/** Shutting a connection down with GOAWAY frames, section 6.8 of RFC 7540. */
module GoAway {
  import opened Errors

  /** The largest stream id. */
  const MAX_ID := 0x7FFF_FFFF
  const NO_ERROR := 0

  /** A GOAWAY frame, or the memory of one. */
  datatype GoAwayFrame = GoAwayFrame(last: nat, reason: nat)

  /** No entry is larger than an earlier one. */
  ghost predicate NeverRises(ids: seq<nat>) {
    forall i, j :: 0 <= i < j < |ids| ==> ids[j] <= ids[i]
  }

  lemma NeverRisesSnoc(ids: seq<nat>, id: nat)
    requires NeverRises(ids) && (ids != [] ==> id <= ids[|ids| - 1])
    ensures NeverRises(ids + [id])
  {
    var ids' := ids + [id];
    forall i, j | 0 <= i < j < |ids'|
      ensures ids'[j] <= ids'[i]
    {
      assert j == |ids| && i < |ids| - 1 ==> ids[|ids| - 1] <= ids[i];
    }
  }

  class Handler {
    var closeNow: bool
    var goingAway: Option<GoAwayFrame>
    var isUserInitiated: bool
    var pending: Option<GoAwayFrame>
    /** The last-stream-ids of all frames enqueued so far. */
    ghost var enqueued: seq<nat>

    constructor ()
      ensures Valid() && goingAway == None && !closeNow && pending == None && enqueued == []
    {
      closeNow, goingAway, isUserInitiated, pending, enqueued := false, None, false, None, [];
    }

    /** The last-stream-ids have never risen, and the last of them is remembered. */
    ghost predicate Valid()
      reads this
    {
      && NeverRises(enqueued)
      && (if goingAway.None? then enqueued == [] && pending.None? && !closeNow
          else enqueued != [] && enqueued[|enqueued| - 1] == goingAway.value.last)
      && (pending.Some? ==> pending == goingAway)
    }

    /** The id must not be higher than the last one; a higher one fails an assertion. */
    method EnqueueGoAway(f: GoAwayFrame)
      requires Valid() && (goingAway.Some? ==> f.last <= goingAway.value.last)
      modifies `goingAway, `pending, `enqueued
      ensures Valid() && goingAway == pending == Some(f) && enqueued == old(enqueued) + [f.last]
    {
      NeverRisesSnoc(enqueued, f.last);
      goingAway := Some(f);
      pending := Some(f);
      enqueued := enqueued + [f.last];
    }

    method GoAwayNow(f: GoAwayFrame)
      requires Valid() && (goingAway.Some? ==> f.last <= goingAway.value.last)
      modifies this
      ensures Valid() && closeNow && goingAway == Some(f) && isUserInitiated == old(isUserInitiated)
      ensures old(goingAway) == Some(f) ==> pending == old(pending) && enqueued == old(enqueued)
      ensures old(goingAway) != Some(f) ==> pending == Some(f) && enqueued == old(enqueued) + [f.last]
    {
      if goingAway.Some? && goingAway.value.last == f.last && goingAway.value.reason == f.reason {
        closeNow := true;
        return;
      }
      EnqueueGoAway(f);
      closeNow := true;
    }

    method GoAwayFromUser(f: GoAwayFrame)
      requires Valid() && (goingAway.Some? ==> f.last <= goingAway.value.last)
      modifies this
      ensures Valid() && closeNow && goingAway == Some(f) && isUserInitiated && old(enqueued) <= enqueued
    {
      isUserInitiated := true;
      GoAwayNow(f);
    }

    predicate ShouldCloseNow()
      reads this
    {
      pending.None? && closeNow
    }

    predicate ShouldCloseOnIdle()
      reads this
    {
      !closeNow && goingAway.Some? && goingAway.value.last != MAX_ID
    }

    /** Writes the pending frame if the buffer is ready for it; None where it is not. */
    method SendPendingGoAway(ready: bool) returns (r: Option<Option<nat>>)
      requires Valid()
      modifies `pending
      ensures Valid()
      ensures r.None? <==> old(pending).Some? && !ready
      ensures r.None? ==> pending == old(pending)
      ensures r.Some? ==> pending.None?
      ensures r.Some? && (old(pending).Some? || closeNow) ==> goingAway.Some? && r.value == Some(goingAway.value.reason)
      ensures r.Some? && old(pending).None? && !closeNow ==> r.value == None
    {
      if pending.Some? {
        if !ready {
          return None;
        }
        var reason := pending.value.reason;
        pending := None;
        return Some(Some(reason));
      } else if ShouldCloseNow() {
        return Some(Some(goingAway.value.reason));
      }
      return Some(None);
    }
  }

  datatype ConnectionState = Running | Closing | Closed

  /** What the peer may send, as far as it matters here. */
  datatype Incoming =
    | HeadersFrame(id: nat, isInitial: bool)
    | ShutdownAck
    | OtherFrame
    | PeerGoAway
    | Failure(reason: nat)
    | Eof

  /** How a round of reading ends. */
  datatype Outcome = Waiting | Read | Finished | GoAwayError(reason: nat)

  class Connection {
    const handler: Handler
    var state: ConnectionState
    var lastProcessedId: nat
    /** Streams with a higher id are ignored. */
    var maxStreamId: nat
    /** A shutdown PING has not been acknowledged yet. */
    var pendingPing: bool
    var hasError: bool

    /**
     No stream beyond the last GOAWAY has been processed. Until the connection is to be closed at once that
     GOAWAY is a graceful one, and it is in force: what it does not cover is ignored.
     */
    ghost predicate Valid()
      reads this, handler
    {
      && handler.Valid()
      && lastProcessedId <= maxStreamId <= MAX_ID
      && match handler.goingAway
         case None => maxStreamId == MAX_ID && !pendingPing
         case Some(g) =>
           && lastProcessedId <= g.last <= MAX_ID
           && (!handler.closeNow ==> g.last == maxStreamId && g.reason == NO_ERROR)
    }

    constructor ()
      ensures Valid() && fresh(handler) && handler.enqueued == [] && lastProcessedId == 0
    {
      handler := new Handler();
      state, lastProcessedId, maxStreamId, pendingPing, hasError := Running, 0, MAX_ID, false, false;
    }

    /** Streams above `id` are ignored from now on; raising the bound fails an assertion. */
    method RecvGoAway(id: nat)
      requires id <= maxStreamId
      modifies `maxStreamId
      ensures maxStreamId == id
    {
      maxStreamId := id;
    }

    method GoAwayGraceful(id: nat, reason: nat)
      requires Valid() && lastProcessedId <= id <= maxStreamId && reason == NO_ERROR && !handler.closeNow
      modifies `maxStreamId, handler
      ensures Valid() && !handler.closeNow && handler.goingAway == Some(GoAwayFrame(id, reason))
      ensures maxStreamId == id && handler.enqueued == old(handler.enqueued) + [id]
    {
      RecvGoAway(id);
      handler.EnqueueGoAway(GoAwayFrame(id, reason));
    }

    method GoAwayNow(reason: nat)
      requires Valid()
      modifies handler
      ensures Valid() && handler.closeNow && old(handler.enqueued) <= handler.enqueued
      ensures handler.goingAway == Some(GoAwayFrame(lastProcessedId, reason))
      ensures if old(handler.goingAway) == handler.goingAway
              then handler.pending == old(handler.pending) && handler.enqueued == old(handler.enqueued)
              else handler.pending == handler.goingAway && handler.enqueued == old(handler.enqueued) + [lastProcessedId]
    {
      handler.GoAwayNow(GoAwayFrame(lastProcessedId, reason));
    }

    /** The user shuts down abruptly. */
    method GoAwayFromUser(reason: nat)
      requires Valid()
      modifies handler
      ensures Valid() && handler.closeNow && old(handler.enqueued) <= handler.enqueued
    {
      handler.GoAwayFromUser(GoAwayFrame(lastProcessedId, reason));
    }

    /** The user shuts down gracefully; the PING that follows finds no other one outstanding. */
    method GoAwayGracefully()
      requires Valid()
      modifies `maxStreamId, `pendingPing, handler
      ensures Valid() && old(handler.enqueued) <= handler.enqueued
      ensures old(handler.goingAway).Some? ==> unchanged(this) && unchanged(handler)
      ensures old(handler.goingAway).None? ==> handler.enqueued == [MAX_ID] && pendingPing
    {
      if handler.goingAway.Some? {
        return;
      }
      GoAwayGraceful(MAX_ID, NO_ERROR);
      assert !pendingPing;
      pendingPing := true;
    }

    /** A connection without streams closes, if it is going away or the peer is. */
    method CloseIfIdle(hasStreams: bool)
      requires Valid()
      modifies handler
      ensures Valid() && old(handler.enqueued) <= handler.enqueued
    {
      if (hasError || handler.ShouldCloseOnIdle()) && !hasStreams {
        GoAwayNow(NO_ERROR);
      }
    }

    /** One round of reading: pending GOAWAY frames go out before a frame is read. */
    method Poll2(ready: bool, input: Option<Incoming>) returns (r: Outcome)
      requires Valid()
      modifies this, handler
      ensures Valid() && old(handler.enqueued) <= handler.enqueued
      ensures state == old(state) && lastProcessedId >= old(lastProcessedId)
      ensures old(handler.closeNow) ==>
              lastProcessedId == old(lastProcessedId) && (r.Waiting? || r.Finished? || r.GoAwayError?)
      ensures r.GoAwayError? && old(handler.closeNow) ==>
              handler.goingAway.Some? && handler.goingAway.value.reason == r.reason
    {
      var sent := handler.SendPendingGoAway(ready);
      if sent.None? {
        return Waiting;
      }
      if sent.value.Some? {
        if handler.ShouldCloseNow() {
          if handler.isUserInitiated {
            return Finished;
          }
          return GoAwayError(sent.value.value);
        }
        assert sent.value.value == NO_ERROR;
      }
      assert !handler.closeNow;
      if input.None? {
        return Waiting;
      }
      match input.value
      case HeadersFrame(id, isInitial) =>
        if id <= maxStreamId && isInitial && id > lastProcessedId {
          lastProcessedId := id;
        }
        return Read;
      case ShutdownAck =>
        if pendingPing {
          pendingPing := false;
          GoAwayGraceful(lastProcessedId, NO_ERROR);
        }
        return Read;
      case PeerGoAway =>
        hasError := true;
        return Read;
      case OtherFrame =>
        return Read;
      case Failure(reason) =>
        return GoAwayError(reason);
      case Eof =>
        return Finished;
    }

    /** What follows when reading has ended. */
    method HandleResult(result: Outcome)
      requires Valid()
      modifies `state, handler
      ensures Valid() && old(handler.enqueued) <= handler.enqueued
      ensures match result
              case Finished => state == Closing && unchanged(handler)
              case GoAwayError(reason) =>
                var announced := old(handler.goingAway).Some? && old(handler.goingAway).value.reason == reason;
                if announced then state == Closing && unchanged(handler)
                else
                  && state == old(state) && handler.closeNow
                  && handler.goingAway == handler.pending == Some(GoAwayFrame(lastProcessedId, reason))
                  && handler.enqueued == old(handler.enqueued) + [lastProcessedId]
              case _ => unchanged(this) && unchanged(handler)
    {
      match result
      case Finished =>
        state := Closing;
      case GoAwayError(reason) =>
        if handler.goingAway.Some? && handler.goingAway.value.reason == reason {
          state := Closing;
          return;
        }
        GoAwayNow(reason);
      case _ =>
    }
  }

  // ===== runs =====

  /** Anything the user, the peer or the transport can do. */
  datatype Action =
    | Graceful
    | Abrupt(reason: nat)
    | Idle(hasStreams: bool)
    | Unused
    | Poll(ready: bool, input: Option<Incoming>)

  /** Whatever happens to a connection, the last-stream-ids of its GOAWAY frames never rise. */
  method Run(actions: seq<Action>) returns (c: Connection)
    ensures fresh(c) && c.Valid() && NeverRises(c.handler.enqueued) && c.lastProcessedId <= c.maxStreamId
    ensures c.handler.enqueued != [] ==> c.lastProcessedId <= c.handler.enqueued[|c.handler.enqueued| - 1]
  {
    c := new Connection();
    for i := 0 to |actions|
      invariant c.Valid() && fresh(c) && fresh(c.handler)
    {
      match actions[i]
      case Graceful => c.GoAwayGracefully();
      case Abrupt(reason) => c.GoAwayFromUser(reason);
      case Idle(hasStreams) => c.CloseIfIdle(hasStreams);
      case Unused => c.GoAwayNow(NO_ERROR);
      case Poll(ready, input) =>
        if c.state.Running? {
          var r := c.Poll2(ready, input);
          c.HandleResult(r);
        }
    }
  }
}
