/** Whole runs of a connection's streams. */
module StreamRuns {
  import opened Errors
  import opened StreamState
  import opened StreamStore
  import opened FlowControl
  import opened Counting
  import opened Scheduler
  import opened Streams

  /** What the user, the peer and the transport can do; a key that no longer leads to a stream does nothing. */
  datatype Action =
    | Request(body: Option<Bytes>, trailers: bool, allowed: bool)
    | Respond(key: Key, body: Option<Bytes>, trailers: bool)
    | RecvHeaders(id: nat, eos: bool, informational: bool, outcome: HeadersOutcome)
    | RecvEnd(key: Key, end: EndOutcome)
    | RecvReset(key: Key, reason: nat)
    | GrantConnection(inc: nat)
    | GrantStream(key: Key, inc: nat)
    | Settings(window: nat)
    | LimitStreams(max: Option<nat>)
    | NextAccept
    | Clone(key: Key)
    | Drop(key: Key)
    | Reset(key: Key, reason: nat, initiator: Initiator)
    | ResetUnknown(id: nat, reason: nat)
    | Fail(error: ProtoError, last: nat)
    | Expire(expired: Stream -> bool)
    | PollOpen
    | PopFrame(maxFrame: nat)

  /** Nothing is reset and no handle is dropped. */
  predicate Harmless(a: Action) {
    match a
    case RecvHeaders(_, _, _, outcome) => outcome.Accepted?
    case RecvEnd(_, end) => end.Fine?
    case RecvReset(_, _) => false
    case Drop(_) => false
    case Reset(_, _, _) => false
    case ResetUnknown(_, _) => false
    case Fail(_, _) => false
    case _ => true
  }

  /**
   The increment or window that the action carries is one a frame can carry, and what we do to a stream is not passed
   off as the peer's doing.
   */
  predicate InRange(a: Action) {
    match a
    case GrantConnection(inc) => inc <= MAX_WINDOW
    case GrantStream(_, inc) => inc <= MAX_WINDOW
    case Settings(window) => window <= MAX_WINDOW
    case Reset(_, _, initiator) => !initiator.Remote?
    case Fail(error, _) => !error.IsRemoteReset()
    case _ => true
  }

  /** What an action does for the connection's window. */
  function Granted(a: Action, ok: bool): nat {
    if a.GrantConnection? && ok then a.inc else 0
  }

  /** The head of the streams that wait to be opened can be, and has nothing left to send. */
  ghost predicate OpensEmpty(s: Streams)
    reads s, s.Parts()
  {
    && s.counts.CanIncNumSendStreams() && s.pendingOpen.items != []
    && var k := s.pendingOpen.items[0].index;
    k in s.store.slab && s.store.slab[k].frames == [] && !s.store.slab[k].state.Closed?
  }

  /**
   Performs one action; `ok` is false where the peer broke the rules of flow control, and `frame` is the frame that
   goes out. `bare` are the streams at which the scheduler's assertion fails: a stream comes to be one of them only
   by being opened with nothing left to send, and fails it when it is taken.
   */
  method Act(s: Streams, a: Action) returns (ok: bool, frame: Option<Frame>, ghost bare: set<nat>)
    requires s.Valid({}) && InRange(a)
    modifies s, s.Parts()
    ensures s.Valid({})
    ensures ok && Harmless(a) ==> s.clean == old(s.clean)
    ensures frame.Some? ==> a.PopFrame?
    ensures s.granted == old(s.granted) + Granted(a, ok) && s.sent == old(s.sent) + Length(frame)
    ensures s.peak == if a.GrantConnection? && ok && old(s.peak) < DEFAULT_WINDOW + s.granted - s.sent
                      then DEFAULT_WINDOW + s.granted - s.sent else old(s.peak)
    ensures !(a.PollOpen? && old(OpensEmpty(s))) ==> Hollow(s.store.slab) <= old(Hollow(s.store.slab))
    ensures bare == if a.PopFrame? then old(Hollow(s.store.slab)) - Hollow(s.store.slab) else {}
  {
    hide Streams.Wired, Streams.Ledger, Counts.Accurate, AllOk, FindId, Settle, Tracked, Hollow;
    ok, frame, bare := true, None, {};
    s.Tighten();
    match a {
      case PopFrame(maxFrame) =>
        var r;
        ghost var n;
        r, n, bare := s.PopFrame(maxFrame);
        if r.Some? {
          frame := Some(r.value.1);
        }
      case PollOpen =>
        if s.counts.CanIncNumSendStreams() && s.pendingOpen.items != [] && !OpensEmpty(s) {
          OpensEmptyIs(s);
        }
        var _ := s.PollOpen();
      case GrantConnection(inc) =>
        ok := s.RecvConnectionWindowUpdate(inc, true, {});
      case _ =>
        ok := Other(s, a);
    }
    s.NoMoreHollow();
  }

  /** Opening a stream that has something to send, or is closed, makes none hollow. */
  lemma OpensEmptyIs(s: Streams)
    requires s.counts.CanIncNumSendStreams() && s.pendingOpen.items != [] && !OpensEmpty(s)
    ensures var k := s.pendingOpen.items[0].index; k in s.store.slab ==> Busy(Opened(s.store.slab[k]))
  {
  }

  /** The actions that send nothing and grant the connection nothing. */
  method Other(s: Streams, a: Action) returns (ok: bool)
    requires s.Valid({}) && InRange(a) && !a.PopFrame? && !a.PollOpen? && !a.GrantConnection?
    modifies s, s.Parts()
    ensures s.Valid({})
    ensures ok && Harmless(a) ==> s.clean == old(s.clean)
    ensures s.granted == old(s.granted) && s.sent == old(s.sent) && s.peak == old(s.peak) && s.hollow == old(s.hollow)
  {
    hide Streams.Wired, Streams.Ledger, Counts.Accurate, AllOk, FindId, Settle, Tracked;
    ok := true;
    match a
    case Request(body, trailers, allowed) =>
      var _ := s.SendRequest(body, trailers, allowed);
    case Respond(key, body, trailers) =>
      if Resolves(s.store.slab, key) {
        var _ := s.SendResponse(key, body, trailers);
      }
    case RecvHeaders(id, eos, informational, outcome) =>
      if id > 0 {
        var _, _ := s.RecvHeaders(id, eos, informational, outcome);
      }
    case RecvEnd(key, end) =>
      if Resolves(s.store.slab, key) {
        var _ := s.RecvEnd(key, end);
      }
    case RecvReset(key, reason) =>
      if Resolves(s.store.slab, key) {
        var _ := s.RecvReset(key, reason);
      }
    case GrantStream(key, inc) =>
      if Resolves(s.store.slab, key) {
        ok := s.RecvWindowUpdate(key, inc);
      }
    case Settings(window) =>
      ok := s.ApplyRemoteSettings(window);
    case LimitStreams(max) =>
      s.LimitStreams(max);
    case NextAccept =>
      var _ := s.NextAccept();
    case Clone(key) =>
      if Resolves(s.store.slab, key) && s.store.slab[key.index].refCount > 0 {
        s.AddHandle(key);
      }
    case Drop(key) =>
      if Resolves(s.store.slab, key) && s.store.slab[key.index].refCount > 0 {
        s.DropHandle(key);
      }
    case Reset(key, reason, initiator) =>
      if Resolves(s.store.slab, key) {
        s.ResetStream(key, reason, initiator);
      }
    case ResetUnknown(id, reason) =>
      var known := s.Find(id);
      if known.None? && id > 0 {
        var _ := s.ResetUnknown(id, reason);
      }
    case Fail(error, last) =>
      s.HandleError(error, last);
    case Expire(expired) =>
      var _ := s.ClearExpiredResetStreams(expired);
  }

  // ===== runs =====

  /** What holds of a connection's streams at any moment of any run. */
  ghost predicate Sound(s: Streams)
    reads s, s.Parts()
  {
    && (forall w :: Members(w, s.QueueOf(w).items, s.store.slab))
    && IdsOk(s.store.ids, s.store.slab)
    && s.counts.numSend == |Counted(s.store.slab, s.counts.isServer, true)|
    && s.counts.numRecv == |Counted(s.store.slab, s.counts.isServer, false)|
  }

  lemma ValidIsSound(s: Streams)
    requires s.Valid({})
    ensures Sound(s)
  {
    assert forall w :: s.QueueOf(w).which == w && s.QueueOf(w).Ok(s.store);
  }

  /** The increments of the connection's window that have been accepted. */
  function GrantedBy(actions: seq<Action>, oks: seq<bool>): nat
    requires |oks| == |actions|
  {
    if oks == [] then 0
    else
      var n := |oks| - 1;
      GrantedBy(actions[..n], oks[..n]) + Granted(actions[n], oks[n])
  }

  /** The DATA octets of the frames that have gone out. */
  function SentBy(frames: seq<Option<Frame>>): nat {
    if frames == [] then 0 else SentBy(frames[..|frames| - 1]) + Length(frames[|frames| - 1])
  }

  /** What the peer has granted and not been sent, at any moment of the run, is no more than a window can hold. */
  ghost predicate NeverOvergranted(actions: seq<Action>, oks: seq<bool>, frames: seq<Option<Frame>>)
    requires |frames| == |oks| == |actions|
  {
    forall i :: 0 <= i <= |actions| ==>
      DEFAULT_WINDOW + GrantedBy(actions[..i], oks[..i]) - SentBy(frames[..i]) <= MAX_WINDOW
  }

  lemma GrantedNext(actions: seq<Action>, oks: seq<bool>, ok: bool)
    requires |oks| < |actions|
    ensures var n := |oks|;
            GrantedBy(actions[..n + 1], oks + [ok]) == GrantedBy(actions[..n], oks) + Granted(actions[n], ok)
  {
    var n := |oks|;
    assert actions[..n + 1][..n] == actions[..n] && (oks + [ok])[..n] == oks;
  }

  lemma SentNext(frames: seq<Option<Frame>>, frame: Option<Frame>)
    ensures SentBy(frames + [frame]) == SentBy(frames) + Length(frame)
  {
    assert (frames + [frame])[..|frames|] == frames;
  }

  lemma Prefix<T>(s: seq<T>, x: T, i: nat)
    requires i <= |s|
    ensures (s + [x])[..i] == s[..i]
  {
  }

  lemma GrantNext(actions: seq<Action>, oks: seq<bool>, frames: seq<Option<Frame>>, ok: bool, frame: Option<Frame>)
    requires |frames| == |oks| < |actions|
    requires NeverOvergranted(actions[..|oks| + 1], oks + [ok], frames + [frame])
    ensures var n := |oks|;
            && NeverOvergranted(actions[..n], oks, frames)
            && DEFAULT_WINDOW + GrantedBy(actions[..n + 1], oks + [ok]) - SentBy(frames + [frame]) <= MAX_WINDOW
  {
    hide GrantedBy, SentBy;
    var n := |oks|;
    forall i | 0 <= i <= n
      ensures DEFAULT_WINDOW + GrantedBy(actions[..n][..i], oks[..i]) - SentBy(frames[..i]) <= MAX_WINDOW
    {
      Prefix(oks, ok, i);
      Prefix(frames, frame, i);
      assert actions[..n + 1][..i] == actions[..n][..i];
    }
    assert actions[..n + 1][..n + 1] == actions[..n + 1] && (oks + [ok])[..n + 1] == oks + [ok];
    assert (frames + [frame])[..n + 1] == frames + [frame];
  }

  lemma SumsNext(actions: seq<Action>, oks: seq<bool>, frames: seq<Option<Frame>>, ok: bool, frame: Option<Frame>)
    requires |frames| == |oks| < |actions|
    ensures var n := |oks|;
            && GrantedBy(actions[..n + 1], oks + [ok]) == GrantedBy(actions[..n], oks) + Granted(actions[n], ok)
            && SentBy(frames + [frame]) == SentBy(frames) + Length(frame)
            && (NeverOvergranted(actions[..n + 1], oks + [ok], frames + [frame]) ==>
                  && NeverOvergranted(actions[..n], oks, frames)
                  && DEFAULT_WINDOW + GrantedBy(actions[..n], oks) + Granted(actions[n], ok)
                     - SentBy(frames) - Length(frame) <= MAX_WINDOW)
  {
    hide GrantedBy, SentBy, NeverOvergranted;
    GrantedNext(actions, oks, ok);
    SentNext(frames, frame);
    if NeverOvergranted(actions[..|oks| + 1], oks + [ok], frames + [frame]) {
      GrantNext(actions, oks, frames, ok, frame);
    }
  }

  /**
   At any moment of any run the queues hold exactly the streams flagged for them, every id leads to its stream, and
   the counters are the numbers of counted streams. As long as nothing is reset and no handle dropped, what the
   connection and its streams hold of the window, and the DATA octets that have gone out, are within 65,535 and the
   increments that have been accepted; and the connection's window is never negative if the peer never grants more
   than a window can hold. The scheduler's assertion fails only after a stream has been opened with nothing left to
   send, as `emptied` says for each action.
   */
  method Run(isServer: bool, initWindow: nat, maxSend: nat, maxRecv: nat, maxLocalReset: nat, maxRemoteReset: nat,
             actions: seq<Action>)
    returns (s: Streams, oks: seq<bool>, frames: seq<Option<Frame>>, ghost emptied: seq<bool>, ghost bare: set<nat>)
    requires initWindow <= MAX_WINDOW && forall i :: 0 <= i < |actions| ==> InRange(actions[i])
    ensures fresh(s) && fresh(s.Parts()) && s.Valid({}) && Sound(s)
    ensures |frames| == |oks| == |emptied| == |actions|
    ensures forall i :: 0 <= i < |actions| && emptied[i] ==> actions[i].PollOpen?
    ensures s.sent == SentBy(frames) && s.granted == GrantedBy(actions, oks)
    ensures (forall i :: 0 <= i < |actions| ==> oks[i] && Harmless(actions[i])) ==>
              && s.flow + Assigned(s.store.slab) + SentBy(frames) <= DEFAULT_WINDOW + GrantedBy(actions, oks)
              && (NeverOvergranted(actions, oks, frames) ==> s.flow >= 0)
    ensures (forall i :: 0 <= i < |actions| ==> !emptied[i]) ==> bare == {} && Hollow(s.store.slab) == {}
  {
    hide Streams.Wired, Counts.Accurate, AllOk, Assigned, Sound, Tracked, Hollow, NeverOvergranted, SentBy, GrantedBy,
         OpensEmpty;
    s := new Streams(isServer, initWindow, maxSend, maxRecv, maxLocalReset, maxRemoteReset);
    oks, frames, emptied, bare := [], [], [], {};
    RunStart(s);
    for i := 0 to |actions|
      invariant s.Valid({}) && fresh(s) && fresh(s.Parts())
      invariant |frames| == |oks| == |emptied| == i
      invariant forall j :: 0 <= j < i && emptied[j] ==> actions[j].PollOpen?
      invariant s.sent == SentBy(frames) && s.granted == GrantedBy(actions[..i], oks)
      invariant (forall j :: 0 <= j < i ==> oks[j] && Harmless(actions[j])) ==> s.clean
      invariant NeverOvergranted(actions[..i], oks, frames) ==> s.peak <= MAX_WINDOW
      invariant (forall j :: 0 <= j < i ==> !emptied[j]) ==> bare == {} && Hollow(s.store.slab) == {}
    {
      SumsEnd(actions, i);
      ghost var empty := actions[i].PollOpen? && OpensEmpty(s);
      var ok, frame;
      ghost var here;
      ok, frame, here := Act(s, actions[i]);
      SumsNext(actions, oks, frames, ok, frame);
      assert forall j :: 0 <= j < i ==> (oks + [ok])[j] == oks[j] && (emptied + [empty])[j] == emptied[j];
      assert (oks + [ok])[i] == ok && (emptied + [empty])[i] == empty;
      oks, frames, emptied, bare := oks + [ok], frames + [frame], emptied + [empty], bare + here;
    }
    assert actions[..|actions|] == actions;
    ValidIsSound(s);
  }

  lemma RunStart(s: Streams)
    requires s.store.slab == map[]
    ensures SentBy([]) == 0 && GrantedBy([], []) == 0 && Hollow(s.store.slab) == {}
  {
  }

  lemma SumsEnd(actions: seq<Action>, i: nat)
    requires i < |actions|
    ensures |actions[..i]| == i && actions[..i + 1] == actions[..i] + [actions[i]]
  {
  }

  // ===== a stream opened with nothing left to send =====

  /** A queue of a connection with a single stream. */
  lemma Alone(s: Streams, w: Which, k: nat, t: Stream)
    requires s.Valid({}) && s.store.slab == map[k := t]
    ensures s.QueueOf(w).items == if w in t.queued then [Key(k, t.id)] else []
  {
    hide Streams.Valid;
    ValidIsSound(s);
    AloneIn(w, s.QueueOf(w).items, s.store.slab, k);
  }

  lemma AloneIn(w: Which, items: seq<Key>, slab: Slab, k: nat)
    requires Members(w, items, slab) && slab.Keys == {k}
    ensures items == if w in slab[k].queued then [Key(k, slab[k].id)] else []
  {
    assert |items| > 1 ==> items[0].index != items[1].index;
    assert forall i :: 0 <= i < |items| ==> Resolves(slab, items[i]) && items[i].index == k;
    if items != [] {
      assert w in slab[items[0].index].queued;
    }
    if w in slab[k].queued {
      assert Listed(items, k);
    }
  }

  lemma OneLeft(items: seq<Key>, n: nat, before: Slab, slab: Slab, k: nat)
    requires Others(items, n, before, slab) && before.Keys == {k} && |items| == 1 && items[0].index == k
    ensures slab.Keys <= {k}
  {
    forall j | j != k
      ensures Lookup(slab, j) == Lookup(before, j)
    {
      assert forall i :: 0 <= i < n ==> items[i].index != j;
    }
    assert forall j :: j in slab && j != k ==> Lookup(slab, j).Some?;
  }

  lemma TriedAt(items: seq<Key>, n: nat, slab: Slab, flow: int, maxFrame: nat)
    requires Tried(items, n, slab, flow, maxFrame)
    ensures n > 0 ==> items[0].index in slab && BodyOk(Unqueued(slab[items[0].index]))
                      && PopHead(Unqueued(slab[items[0].index]), flow, maxFrame).frame.None?
  {
    hide BodyOk, PopHead;
  }

  lemma SentFrame(s: Stream, flow: int, maxFrame: nat, frame: Frame, after: Option<Stream>)
    requires Sent(s, flow, maxFrame, frame, after)
    ensures BodyOk(Unqueued(s)) && PopHead(Unqueued(s), flow, maxFrame).frame == Some(frame)
  {
    hide BodyOk, PopHead;
  }

  /** Once no stream waits to send, none is hollow. */
  lemma LastHollow(s: Streams, k: nat, before: Slab)
    requires s.Valid({}) && s.pendingSend.items == [] && s.store.slab.Keys <= {k} && before.Keys == {k}
    ensures Hollow(s.store.slab) == {}
    ensures Hollow(before) == if Busy(before[k]) then {} else {k}
  {
    hide Streams.Valid, Busy;
    ValidIsSound(s);
    assert s.QueueOf(Send) == s.pendingSend;
    NotListed(s.store.slab, k);
  }

  lemma NotListed(slab: Slab, k: nat)
    requires Members(Send, [], slab) && slab.Keys <= {k}
    ensures Hollow(slab) == {}
  {
    assert forall j :: j in slab && Send in slab[j].queued ==> Listed([], j);
  }

  /** Takes a frame where there is one stream, which waits to send. */
  method PopOnly(s: Streams, key: Key, ghost t: Stream, maxFrame: nat)
    returns (frame: Option<Frame>, ghost bare: set<nat>)
    requires s.Valid({}) && s.store.slab == map[key.index := t] && key.streamId == t.id && Send in t.queued
    modifies s, s.Parts()
    ensures s.Valid({}) && BodyOk(Unqueued(t)) && s.store.slab.Keys <= {key.index}
    ensures frame == PopHead(Unqueued(t), old(s.flow), maxFrame).frame
    ensures frame.Some? ==> s.flow == PopHead(Unqueued(t), old(s.flow), maxFrame).flow
                            && Sent(t, old(s.flow), maxFrame, frame.value, Lookup(s.store.slab, key.index))
    ensures frame.None? ==> bare == if Busy(t) then {} else {key.index}
  {
    hide Streams.Valid, PopHead, BodyOk, Sent, Others, Tried, Hollow;
    ghost var items, before, flow := s.pendingSend.items, s.store.slab, s.flow;
    Alone(s, Send, key.index, t);
    var r;
    ghost var n;
    r, n, bare := s.PopFrame(maxFrame);
    frame := if r.Some? then Some(r.value.1) else None;
    OneLeft(items, if r.Some? then n + 1 else n, before, s.store.slab, key.index);
    TriedAt(items, n, before, flow, maxFrame);
    if r.None? {
      LastHollow(s, key.index, before);
    } else {
      SentFrame(t, flow, maxFrame, r.value.1, Lookup(s.store.slab, key.index));
    }
  }

  /** A request with one octet of body, under a window of nothing. */
  function Waiting(): Stream {
    Requested(1, 0, Some([0]), false)
  }

  /** The stream once its window is one octet: it waits to be opened, and to send. */
  function Fed(): Stream {
    Waiting().(sendFlow := 1, connWindow := 1, queued := {Which.Open, Send})
  }

  /** The stream once its headers have gone. */
  function Headed(): Stream {
    Fed().(connWindow := 2, frames := [Data([0], true)])
  }

  /** The stream once its body has gone. */
  function Spent(): Stream {
    Headed().(sendFlow := 0, connWindow := 1, frames := [], remaining := None,
              state := HalfClosedLocal(AwaitingHeaders), queued := {Which.Open})
  }

  lemma WaitingGrows(k: nat)
    ensures Led([(1, k)], map[k := Waiting()]) && MayGrow([(1, k)], map[k := Waiting()], 1)
    ensures Grown([(1, k)], map[k := Waiting()], DEFAULT_WINDOW, 1) == (map[k := Fed()], DEFAULT_WINDOW - 1)
  {
    var ids, slab := [(1, k)], map[k := Waiting()];
    assert ids[..0] == [] && ids[..1] == ids;
    GrownStart(ids, slab, DEFAULT_WINDOW, 1);
    GrownNext(ids, slab, DEFAULT_WINDOW, 1, 0);
    assert {Which.Open} + {Send} == {Which.Open, Send};
    assert TryAssign(Waiting().(sendFlow := 1), DEFAULT_WINDOW) == (Fed(), DEFAULT_WINDOW - 1);
    assert slab[k := Fed()] == map[k := Fed()];
  }

  lemma FedSends(maxFrame: nat, after: Option<Stream>)
    requires BodyOk(Unqueued(Fed()))
    ensures var p := PopHead(Unqueued(Fed()), DEFAULT_WINDOW - 1, maxFrame);
            && p.frame == Some(Headers(false)) && p.flow == DEFAULT_WINDOW - 2
            && (Sent(Fed(), DEFAULT_WINDOW - 1, maxFrame, p.frame.value, after) ==> after == Some(Headed()))
  {
    assert Unqueued(Fed()).queued == {Which.Open} && {Which.Open} + {Send} == {Which.Open, Send};
    assert Fed().frames[1..] == [Data([0], true)];
    assert PopHead(Unqueued(Fed()), DEFAULT_WINDOW - 1, maxFrame).stream == Headed();
  }

  lemma HeadedSends(maxFrame: nat, after: Option<Stream>)
    requires BodyOk(Unqueued(Headed())) && maxFrame > 0
    ensures var p := PopHead(Unqueued(Headed()), DEFAULT_WINDOW - 2, maxFrame);
            && p.frame == Some(Data([0], true))
            && (Sent(Headed(), DEFAULT_WINDOW - 2, maxFrame, p.frame.value, after) ==> after == Some(Spent()))
  {
    assert Unqueued(Headed()).queued == {Which.Open};
    assert PopHead(Unqueued(Headed()), DEFAULT_WINDOW - 2, maxFrame).stream == Spent();
  }

  lemma SpentOpens(k: nat)
    ensures Opened(Spent()) == Spent().(queued := {Send}, isCounted := true) && !Busy(Opened(Spent()))
    ensures map[k := Spent()][k := Opened(Spent())] == map[k := Opened(Spent())]
    ensures BodyOk(Unqueued(Opened(Spent()))) ==>
              forall flow, maxFrame :: PopHead(Unqueued(Opened(Spent())), flow, maxFrame).frame.None?
  {
  }

  lemma Only(slab: Slab, k: nat, t: Stream)
    requires slab.Keys <= {k} && Lookup(slab, k) == Some(t)
    ensures slab == map[k := t]
  {
  }

  lemma NotCounted(s: Streams, k: nat, t: Stream)
    requires s.Valid({}) && s.store.slab == map[k := t] && !t.isCounted
    ensures s.counts.numSend == 0
  {
    hide Streams.Valid;
    ValidIsSound(s);
    assert Counted(s.store.slab, s.counts.isServer, true) == {};
  }

  /** A request that may not be opened yet sends its headers and its body, since the window has grown meanwhile. */
  method DrainUnopened(maxFrame: nat) returns (s: Streams, key: Key, first: Option<Frame>, second: Option<Frame>)
    requires maxFrame > 0
    ensures fresh(s) && fresh(s.Parts()) && s.Valid({}) && s.counts.numSend == 0
    ensures first == Some(Headers(false)) && second == Some(Data([0], true))
    ensures s.store.slab == map[key.index := Spent()] && key.streamId == 1
  {
    hide Streams.Valid, Hollow, PopHead, BodyOk, Sent, Grown, Led, MayGrow;
    s := new Streams(false, 0, 0, 0, 0, 0);
    var r := s.SendRequest(Some([0]), false, true);
    key := r.value;
    assert s.store.slab == map[key.index := Waiting()] && s.store.ids == [(1, key.index)];
    WaitingGrows(key.index);
    var _ := s.ApplyRemoteSettings(1);
    ghost var none;
    first, none := PopOnly(s, key, Fed(), maxFrame);
    FedSends(maxFrame, Lookup(s.store.slab, key.index));
    Only(s.store.slab, key.index, Headed());
    second, none := PopOnly(s, key, Headed(), maxFrame);
    HeadedSends(maxFrame, Lookup(s.store.slab, key.index));
    Only(s.store.slab, key.index, Spent());
    NotCounted(s, key.index, Spent());
  }

  /**
   A run in which the assertion fails. While the limit on streams is zero a client sends a request; the initial
   window grows, which puts the stream on the send queue though it waits to be opened; its headers and its body go
   out; the limit is raised, the stream is opened with nothing left to send, and taken off the send queue so.
   */
  method EmptyOpening(maxFrame: nat) returns (frames: seq<Option<Frame>>, ghost bare: set<nat>)
    requires maxFrame > 0
    ensures frames == [Some(Headers(false)), Some(Data([0], true)), None] && bare != {}
  {
    hide Streams.Valid, Hollow, PopHead, BodyOk, Sent, Opened;
    var s, key, first, second := DrainUnopened(maxFrame);
    s.LimitStreams(Some(1));
    Alone(s, Which.Open, key.index, Spent());
    SpentOpens(key.index);
    var _ := s.PollOpen();
    var third;
    third, bare := PopOnly(s, key, Opened(Spent()), maxFrame);
    frames := [first, second, third];
  }
}
