/** All the streams of a connection: the store, the queues, the counters and the send side's windows. */
module Streams {
  import opened Errors
  import opened StreamState
  import opened StreamStore
  import opened FlowControl
  import opened Counting
  import opened Scheduler

  const NO_ERROR := 0
  const PROTOCOL_ERROR := 1
  const FLOW_CONTROL_ERROR := 3
  /** The largest stream id. */
  const MAX_ID := 0x7FFF_FFFF

  // ===== one stream =====

  /** What holds of a stream at any time. */
  ghost predicate StreamOk(isServer: bool, s: Stream) {
    && s.id > 0 && IsI32(s.sendFlow) && s.connWindow < U32
    && (Which.Open in s.queued ==> !s.isCounted && IsLocalInit(isServer, s.id) && !s.state.IsSendAwaiting())
    && (s.isCounted && IsLocalInit(isServer, s.id) ==> !s.state.IsSendAwaiting())
    && BodyOk(s)
  }

  /** What also holds of a stream that no action is working on: it has been opened, and its reset will be sent. */
  ghost predicate Ready(s: Stream) {
    ResetQueued(s) && !s.state.Idle? && !s.state.ReservedRemote?
  }

  /** A stream that waits to send has something to send, or is closed. */
  predicate Busy(s: Stream) {
    Send in s.queued ==> s.frames != [] || s.state.Closed?
  }

  /** The id has been given out, by us or by the peer. */
  predicate Issued(isServer: bool, nextSend: Option<nat>, nextRecv: Option<nat>, id: nat) {
    var next := if IsLocalInit(isServer, id) then nextSend else nextRecv;
    next.Some? ==> id < next.value
  }

  /** Every stream's id has been given out, and all but the hollow ones are busy. */
  ghost predicate Tracked(slab: Slab, hollow: set<nat>, isServer: bool, nextSend: Option<nat>, nextRecv: Option<nat>) {
    forall k :: k in slab ==> (Busy(slab[k]) || k in hollow) && Issued(isServer, nextSend, nextRecv, slab[k].id)
  }

  /** The streams that wait to send, though they have nothing to send and are open. */
  ghost function Hollow(slab: Slab): set<nat> {
    set k | k in slab && !Busy(slab[k])
  }

  ghost predicate AllOk(slab: Slab, isServer: bool, except: set<nat>) {
    forall k :: k in slab ==> StreamOk(isServer, slab[k]) && (k !in except ==> Ready(slab[k]))
  }

  lemma TrackedSet(slab: Slab, hollow: set<nat>, isServer: bool, nextSend: Option<nat>, nextRecv: Option<nat>, k: nat,
                   s: Stream)
    requires Tracked(slab, hollow, isServer, nextSend, nextRecv) && k in slab && s.id == slab[k].id
    ensures Busy(s) || !Busy(slab[k]) ==> Tracked(slab[k := s], hollow, isServer, nextSend, nextRecv)
    ensures Tracked(slab[k := s], hollow + {k}, isServer, nextSend, nextRecv)
    ensures Tracked(slab - {k}, hollow, isServer, nextSend, nextRecv)
  {
    hide Busy;
  }

  lemma TrackedEmpty(hollow: set<nat>, isServer: bool, nextSend: Option<nat>, nextRecv: Option<nat>)
    ensures Tracked(map[], hollow, isServer, nextSend, nextRecv)
  {
  }

  lemma TrackedInsert(slab: Slab, hollow: set<nat>, isServer: bool, nextSend: Option<nat>, nextRecv: Option<nat>,
                      k: nat, s: Stream)
    requires Tracked(slab, hollow, isServer, nextSend, nextRecv) && k !in slab
    requires Busy(s) && Issued(isServer, nextSend, nextRecv, s.id)
    ensures Tracked(slab[k := s], hollow, isServer, nextSend, nextRecv)
  {
    hide Busy;
  }

  /** An id that has not been given out belongs to no stream. */
  lemma NotIssued(slab: Slab, hollow: set<nat>, isServer: bool, nextSend: Option<nat>, nextRecv: Option<nat>, ids: Ids,
                  id: nat)
    requires Tracked(slab, hollow, isServer, nextSend, nextRecv) && IdsOk(ids, slab)
    requires !Issued(isServer, nextSend, nextRecv, id)
    ensures FindId(ids, id).None?
  {
  }

  /** The id after this one on its side. */
  function NextId(id: nat): Option<nat> {
    if id + 2 <= MAX_ID then Some(id + 2) else None
  }

  /** The id is not below the next one expected. */
  predicate MayUse(next: Option<nat>, id: nat) {
    next.Some? && id >= next.value
  }

  /** An id given out by being used. */
  function Bumped(next: Option<nat>, id: nat): Option<nat> {
    if next.Some? && id >= next.value then NextId(id) else next
  }

  /** Giving out more ids takes none back. */
  lemma TrackedBump(slab: Slab, hollow: set<nat>, isServer: bool, nextSend: Option<nat>, nextRecv: Option<nat>, id: nat)
    requires Tracked(slab, hollow, isServer, nextSend, nextRecv)
    ensures Tracked(slab, hollow, isServer, Bumped(nextSend, id), nextRecv)
    ensures Tracked(slab, hollow, isServer, nextSend, Bumped(nextRecv, id))
    ensures Issued(isServer, if IsLocalInit(isServer, id) then Bumped(nextSend, id) else nextSend,
                   if IsLocalInit(isServer, id) then nextRecv else Bumped(nextRecv, id), id)
  {
    hide Busy;
  }

  /** The stream has come to be in the queue. */
  predicate Joins(before: Slab, slab: Slab, k: nat, w: Which)
    requires k in before && k in slab
  {
    w in slab[k].queued && w !in before[k].queued
  }

  // ===== the shares of the connection window =====

  /** What the streams hold of the connection window. */
  ghost function Assigned(slab: Slab): nat {
    if slab == map[] then 0
    else
      var k :| k in slab;
      slab[k].connWindow + Assigned(slab - {k})
  }

  lemma {:induction false} AssignedSplit(slab: Slab, k: nat)
    requires k in slab
    ensures Assigned(slab) == slab[k].connWindow + Assigned(slab - {k})
    decreases |slab|
  {
    var j :| j in slab && Assigned(slab) == slab[j].connWindow + Assigned(slab - {j});
    if j != k {
      AssignedSplit(slab - {j}, k);
      AssignedSplit(slab - {k}, j);
      assert slab - {j} - {k} == slab - {k} - {j};
    }
  }

  lemma AssignedChange(slab: Slab, k: nat, s: Stream)
    ensures k in slab ==> Assigned(slab[k := s]) == Assigned(slab) - slab[k].connWindow + s.connWindow
    ensures k !in slab ==> Assigned(slab[k := s]) == Assigned(slab) + s.connWindow
  {
    AssignedSplit(slab[k := s], k);
    assert slab[k := s] - {k} == slab - {k};
    if k in slab {
      AssignedSplit(slab, k);
    } else {
      assert slab - {k} == slab;
    }
  }

  // ===== changes that leave queues and counters alone =====

  /** A change of a stream that moves it in or out of no queue. */
  lemma BodyQueue(w: Which, items: seq<Key>, slab: Slab, links: Links, k: nat, s: Stream)
    requires QueueOk(w, items, slab, links) && k in slab && s.id == slab[k].id && s.queued == slab[k].queued
    ensures QueueOk(w, items, slab[k := s], links)
  {
    hide Threaded;
  }

  lemma InsertQueue(w: Which, items: seq<Key>, slab: Slab, links: Links, k: nat, s: Stream)
    requires QueueOk(w, items, slab, links) && k !in slab && s.queued == {}
    ensures QueueOk(w, items, slab[k := s], links)
  {
    hide Threaded;
  }

  /** Removing a stream that is in no queue. */
  lemma RemoveQueue(w: Which, items: seq<Key>, slab: Slab, links: Links, k: nat)
    requires QueueOk(w, items, slab, links) && k in slab && slab[k].queued == {}
    ensures QueueOk(w, items, slab - {k}, links)
  {
    hide Threaded;
  }

  lemma SettleQueue(w: Which, items: seq<Key>, slab: Slab, links: Links, k: nat)
    requires QueueOk(w, items, slab, links) && k in slab
    ensures QueueOk(w, items, Settle(slab, k), links)
  {
    hide QueueOk;
    BodyQueue(w, items, slab, links, k, Settled(slab[k]));
    if Settled(slab[k]).IsReleased() {
      RemoveQueue(w, items, slab, links, k);
    }
  }

  /** Setting or clearing a flag changes no sum but that of the held or the abandoned streams. */
  lemma Flagging(slab: Slab, isServer: bool, k: nat, w: Which, on: bool)
    requires k in slab
    ensures var slab' := Flag(slab, k, w, on);
            && Counted(slab', isServer, true) == Counted(slab, isServer, true)
            && Counted(slab', isServer, false) == Counted(slab, isServer, false)
            && Assigned(slab') == Assigned(slab)
            && (w != ResetExpire || (w in slab[k].queued) == on ==> Held(slab') == Held(slab))
            && (w == ResetExpire && (w in slab[k].queued) != on ==>
                  |Held(slab')| == if on then |Held(slab)| + 1 else |Held(slab)| - 1)
            && (w != Accept || !slab[k].state.IsRemoteReset() || (w in slab[k].queued) == on ==>
                  AbandonedIn(slab') == AbandonedIn(slab))
            && (w == Accept && Abandoned(slab[k]) && !on ==> |AbandonedIn(slab')| == |AbandonedIn(slab)| - 1)
  {
    hide Counted, Held, AbandonedIn, Assigned;
    var s := Flag(slab, k, w, on)[k];
    CountChange(slab, isServer, true, k, s);
    CountChange(slab, isServer, false, k, s);
    HeldChange(slab, k, s);
    AbandonedChange(slab, k, s);
    AssignedChange(slab, k, s);
  }

  /** Flags matter to a stream only where it waits to be opened, or to send its reset. */
  lemma FlagOk(slab: Slab, isServer: bool, k: nat, w: Which, on: bool, except: set<nat>)
    requires k in slab && AllOk(slab, isServer, except)
    requires on && w == Which.Open ==> StreamOk(isServer, Flag(slab, k, w, on)[k])
    ensures AllOk(Flag(slab, k, w, on), isServer, if !on && w == Send then except + {k} else except)
  {
    hide BodyOk;
    BodyQueued(slab[k], Flag(slab, k, w, on)[k].queued, 0);
  }

  lemma EmptyStore()
    ensures forall w :: QueueOk(w, [], map[], map[])
    ensures IdsOk([], map[]) && Assigned(map[]) == 0
  {
  }

  class Streams {
    const store: Store
    const counts: Counts
    const pendingAccept: Queue
    const pendingComplete: Queue
    const pendingResetExpired: Queue
    const pendingSend: Queue
    const pendingCapacity: Queue
    const pendingOpen: Queue
    /** The connection's send window, and the initial window of new streams. */
    var flow: int
    var initWindow: nat
    /** The ids that we and the peer may use next; None once they are used up. */
    var nextSend: Option<nat>
    var nextRecv: Option<nat>
    /** The accepted increments of the connection window, and the DATA octets sent. */
    ghost var granted: nat
    ghost var sent: nat
    /** No capacity has been reclaimed from a stream that keeps it on record. */
    ghost var clean: bool
    /** At least as much as was ever granted and not yet sent at the same time. */
    ghost var peak: int
    /** Where streams may wait to send that have nothing to send, though they are open. */
    ghost var hollow: set<nat>

    function QueueOf(w: Which): Queue {
      match w
      case Accept => pendingAccept
      case Complete => pendingComplete
      case Send => pendingSend
      case Capacity => pendingCapacity
      case Open => pendingOpen
      case ResetExpire => pendingResetExpired
    }

    ghost function Parts(): set<object> {
      {store, counts, pendingAccept, pendingComplete, pendingSend, pendingCapacity, pendingOpen, pendingResetExpired}
    }

    /** Every queue lists exactly the streams flagged for it, and every id leads to its stream. */
    ghost predicate Wired()
      reads Parts()
    {
      && (forall w :: QueueOf(w).which == w && QueueOf(w).Ok(store))
      && IdsOk(store.ids, store.slab)
    }

    /** Section 6.9.1 of RFC 7540: no more is held and sent than was granted. */
    ghost predicate Ledger()
      reads `flow, `granted, `sent, `clean, `peak, store`slab
    {
      && IsI32(flow) && DEFAULT_WINDOW + granted - sent <= peak
      && (clean ==> flow + Assigned(store.slab) + sent <= DEFAULT_WINDOW + granted)
      && (clean && peak <= MAX_WINDOW ==> flow >= 0)
    }

    /** What holds between any two actions, save for the streams that an action is working on. */
    ghost predicate Valid(except: set<nat>)
      reads this, Parts()
    {
      Wired() && counts.Accurate(store.slab) && AllOk(store.slab, counts.isServer, except) && Ledger()
        && Tracked(store.slab, hollow, counts.isServer, nextSend, nextRecv)
        && initWindow <= MAX_WINDOW && (counts.isServer || nextSend.None? || nextSend.value % 2 == 1)
    }

    /** What only some actions change is as it was. */
    twostate predicate Kept()
      reads this
    {
      && granted == old(granted) && sent == old(sent) && peak == old(peak) && hollow == old(hollow)
      && initWindow == old(initWindow) && nextSend == old(nextSend) && nextRecv == old(nextRecv)
    }

    constructor (isServer: bool, initWindow: nat, maxSend: nat, maxRecv: nat, maxLocalReset: nat,
                 maxRemoteReset: nat)
      requires initWindow <= MAX_WINDOW
      ensures Valid({}) && fresh(Parts()) && store.slab == map[]
      ensures flow == DEFAULT_WINDOW && granted == sent == 0 && clean && peak == DEFAULT_WINDOW && store.ids == []
      ensures this.initWindow == initWindow && nextSend == Some(1) && nextRecv == Some(if isServer then 1 else 2)
      ensures counts.isServer == isServer && counts.maxSend == maxSend && counts.numSend == 0
    {
      hide Valid, Wired, Queue.Ends, Counts.Accurate;
      store := new Store();
      counts := new Counts(isServer, maxSend, maxRecv, maxLocalReset, maxRemoteReset);
      pendingAccept := new Queue(Accept);
      pendingComplete := new Queue(Complete);
      pendingResetExpired := new Queue(ResetExpire);
      pendingSend := new Queue(Send);
      pendingCapacity := new Queue(Capacity);
      pendingOpen := new Queue(Which.Open);
      flow := DEFAULT_WINDOW;
      this.initWindow := initWindow;
      granted, sent, clean, peak, hollow := 0, 0, true, DEFAULT_WINDOW, {};
      nextSend := Some(1);
      nextRecv := Some(if isServer then 1 else 2);
      new;
      NothingWired();
      NothingOwed();
    }

    lemma NothingOwed()
      requires store.slab == map[] && Wired() && counts.Accurate(map[])
      requires flow == peak == DEFAULT_WINDOW && granted == sent == 0 && initWindow <= MAX_WINDOW && nextSend == Some(1)
      ensures Valid({})
    {
      hide Tracked, Wired, Counts.Accurate, Assigned;
      EmptyStore();
      TrackedEmpty(hollow, counts.isServer, nextSend, nextRecv);
    }

    lemma NothingWired()
      requires store.slab == map[] && store.links == map[] && store.ids == []
      requires pendingAccept.which == Accept && pendingAccept.items == [] && pendingAccept.Ends()
      requires pendingComplete.which == Complete && pendingComplete.items == [] && pendingComplete.Ends()
      requires pendingResetExpired.which == ResetExpire && pendingResetExpired.items == [] && pendingResetExpired.Ends()
      requires pendingSend.which == Send && pendingSend.items == [] && pendingSend.Ends()
      requires pendingCapacity.which == Capacity && pendingCapacity.items == [] && pendingCapacity.Ends()
      requires pendingOpen.which == Which.Open && pendingOpen.items == [] && pendingOpen.Ends()
      ensures Wired()
    {
      hide QueueOk, Queue.Ends, IdsOk;
      EmptyStore();
    }

    // ===== steps =====

    /** Changes a stream and the connection window; `len` octets of what they held are sent. */
    method Commit(key: Key, s: Stream, flow': int, ghost len: nat, ghost except: set<nat>)
      requires Valid(except) && Resolves(store.slab, key)
      requires var was := store.slab[key.index];
               && s.id == was.id && s.queued == was.queued && s.isCounted == was.isCounted
               && flow' + s.connWindow + len <= flow + was.connWindow
      requires StreamOk(counts.isServer, s) && (key.index !in except ==> Ready(s))
      requires IsI32(flow') && (flow >= 0 ==> flow' >= 0)
      requires Abandoned(s) ==>
                 Abandoned(store.slab[key.index]) || counts.numRemoteReset > |AbandonedIn(store.slab)|
      requires Busy(s) || !Busy(store.slab[key.index])
      modifies `flow, `sent, store`slab
      ensures Valid(except)
      ensures store.slab == old(store.slab)[key.index := s] && flow == flow' && sent == old(sent) + len
      ensures Assigned(store.slab) == old(Assigned(store.slab)) - old(store.slab)[key.index].connWindow + s.connWindow
    {
      hide Tracked, QueueOk, Counted, Held, AbandonedIn, IdsOk, StreamOk, Ready, Assigned;
      ghost var k, slab := key.index, store.slab;
      forall w
        ensures QueueOk(w, QueueOf(w).items, slab[k := s], store.links)
      {
        assert QueueOf(w).Ok(store);
        BodyQueue(w, QueueOf(w).items, slab, store.links, k, s);
      }
      CountChange(slab, counts.isServer, true, k, s);
      CountChange(slab, counts.isServer, false, k, s);
      HeldChange(slab, k, s);
      AbandonedChange(slab, k, s);
      IdsBody(store.ids, slab, k, s);
      AssignedChange(slab, k, s);
      TrackedSet(slab, hollow, counts.isServer, nextSend, nextRecv, k, s);
      store.slab := store.slab[key.index := s];
      flow := flow';
      sent := sent + len;
    }

    /** Puts a stream at the back of a queue. */
    method Push(w: Which, key: Key, ghost except: set<nat>)
      requires Valid(except) && Resolves(store.slab, key)
      requires w == ResetExpire && w !in store.slab[key.index].queued ==> counts.numLocalReset > |Held(store.slab)|
      requires w == Accept ==> !store.slab[key.index].state.IsRemoteReset()
      requires w == Send ==> store.slab[key.index].frames != [] || store.slab[key.index].state.Closed?
      requires w == Which.Open ==> StreamOk(counts.isServer, Flag(store.slab, key.index, w, true)[key.index])
      modifies QueueOf(w)`indices, QueueOf(w)`items, store`slab, store`links
      ensures Valid(except) && store.slab == Flag(old(store.slab), key.index, w, true)
      ensures QueueOf(w).items == if w in old(store.slab)[key.index].queued
              then old(QueueOf(w).items) else old(QueueOf(w).items) + [key]
    {
      hide Tracked, QueueOk, Counted, Held, AbandonedIn, IdsOk, Assigned, SameLinks, StreamOk, AllOk;
      ghost var slab, links := store.slab, store.links;
      assert forall v :: QueueOf(v).which == v && QueueOf(v).Ok(store);
      Flagging(slab, counts.isServer, key.index, w, true);
      FlagOk(slab, counts.isServer, key.index, w, true, except);
      TrackedSet(slab, hollow, counts.isServer, nextSend, nextRecv, key.index,
                 Flag(slab, key.index, w, true)[key.index]);
      var _ := QueueOf(w).Push(store, key);
      IdsBody(store.ids, slab, key.index, store.slab[key.index]);
      forall v | v != w
        ensures QueueOf(v).Ok(store)
      {
        OtherQueue(w, v, QueueOf(v).items, slab, links, store.links, key.index, true);
      }
    }

    /** Puts a stream at the front of the send queue. */
    method PushFront(key: Key, ghost except: set<nat>)
      requires Valid(except) && Resolves(store.slab, key)
      modifies `hollow, pendingSend`indices, pendingSend`items, store`slab, store`links
      ensures Valid(except) && store.slab == Flag(old(store.slab), key.index, Send, true)
      ensures hollow == old(hollow) + if Busy(store.slab[key.index]) then {} else {key.index}
      ensures pendingSend.items == if Send in old(store.slab)[key.index].queued
              then old(pendingSend.items) else [key] + old(pendingSend.items)
    {
      hide Tracked, QueueOk, Counted, Held, AbandonedIn, IdsOk, Assigned, SameLinks, StreamOk, AllOk;
      ghost var slab, links := store.slab, store.links;
      assert forall v :: QueueOf(v).which == v && QueueOf(v).Ok(store);
      assert QueueOf(Send) == pendingSend;
      Flagging(slab, counts.isServer, key.index, Send, true);
      FlagOk(slab, counts.isServer, key.index, Send, true, except);
      TrackedSet(slab, hollow, counts.isServer, nextSend, nextRecv, key.index,
                 Flag(slab, key.index, Send, true)[key.index]);
      var _ := pendingSend.PushFront(store, key);
      if !Busy(store.slab[key.index]) {
        hollow := hollow + {key.index};
      }
      IdsBody(store.ids, slab, key.index, store.slab[key.index]);
      forall v | v != Send
        ensures QueueOf(v).Ok(store)
      {
        OtherQueue(Send, v, QueueOf(v).items, slab, links, store.links, key.index, true);
      }
    }

    /** Takes the stream at the front of a queue; one taken off the send queue may have its reset still to be sent. */
    method Pop(w: Which, ghost except: set<nat>) returns (r: Option<Key>)
      requires Valid(except)
      modifies QueueOf(w)`indices, QueueOf(w)`items, store`slab, store`links
      ensures r.None? ==> Valid(except) && store.slab == old(store.slab)
      ensures r.None? ==> QueueOf(w).items == old(QueueOf(w).items) == []
      ensures r.Some? ==> old(QueueOf(w).items) != [] && r.value == old(QueueOf(w).items)[0]
      ensures r.Some? ==>
                && Valid(if w == Send then except + {r.value.index} else except)
                && Resolves(old(store.slab), r.value) && w in old(store.slab)[r.value.index].queued
                && Resolves(store.slab, r.value) && store.slab == Flag(old(store.slab), r.value.index, w, false)
                && QueueOf(w).items == old(QueueOf(w).items)[1..]
                && (w == ResetExpire ==> counts.numLocalReset > |Held(store.slab)|)
                && (w == Accept && store.slab[r.value.index].state.IsRemoteReset() ==>
                      counts.numRemoteReset > |AbandonedIn(store.slab)|)
    {
      hide Tracked, QueueOk, Counted, Held, AbandonedIn, IdsOk, Assigned, SameLinks, StreamOk, AllOk;
      ghost var slab, links := store.slab, store.links;
      assert forall v :: QueueOf(v).which == v && QueueOf(v).Ok(store);
      r := QueueOf(w).Pop(store);
      if r.None? {
        return;
      }
      ghost var k := r.value.index;
      Flagging(slab, counts.isServer, k, w, false);
      TrackedSet(slab, hollow, counts.isServer, nextSend, nextRecv, k, store.slab[k]);
      IdsBody(store.ids, slab, k, store.slab[k]);
      FlagOk(slab, counts.isServer, k, w, false, except);
      forall v | v != w
        ensures QueueOf(v).Ok(store)
      {
        OtherQueue(w, v, QueueOf(v).items, slab, links, store.links, k, false);
      }
    }

    /** Cleans up after an action on a stream. */
    method After(key: Key, isResetCounted: bool, ghost except: set<nat>)
      requires Valid(except) && Resolves(store.slab, key) && ResetQueued(store.slab[key.index])
      requires isResetCounted && ResetExpire !in store.slab[key.index].queued ==>
               counts.numLocalReset > |Held(store.slab)|
      modifies counts, store`slab, store`ids
      ensures Valid(except) && store.slab == Settle(old(store.slab), key.index)
      ensures !old(store.slab)[key.index].IsClosed() ==> unchanged(counts)
      ensures Assigned(store.slab) == old(Assigned(store.slab))
                                      - if key.index in store.slab then 0 else old(store.slab)[key.index].connWindow
      ensures store.ids == if Forgotten(old(store.slab)[key.index])
              then Unlinked(old(store.ids), key.streamId) else old(store.ids)
    {
      hide Tracked, QueueOk, Counted, Held, AbandonedIn, IdsOk, Assigned, StreamOk, AllOk, Settle, ResetQueued, Settled;
      ghost var slab := store.slab;
      assert forall v :: QueueOf(v).which == v && QueueOf(v).Ok(store);
      SettledBusy(slab, key.index);
      TrackedSet(slab, hollow, counts.isServer, nextSend, nextRecv, key.index, Settled(slab[key.index]));
      counts.TransitionAfter(store, key, isResetCounted);
      forall w
        ensures QueueOf(w).Ok(store)
      {
        SettleQueue(w, QueueOf(w).items, slab, store.links, key.index);
      }
      SettleOk(slab, counts.isServer, key.index, except);
    }

    // ===== capacity =====

    /** Gives the stream a share of the connection window, or queues it for one. */
    method TryAssignCapacity(key: Key, ghost except: set<nat>)
      requires Valid(except) && Resolves(store.slab, key)
      modifies `flow, `sent, store`slab, store`links
      modifies pendingSend`indices, pendingSend`items, pendingCapacity`indices, pendingCapacity`items
      ensures Valid(except) && sent == old(sent)
      ensures var (s, flow') := TryAssign(old(store.slab)[key.index], old(flow));
              store.slab == old(store.slab)[key.index := s] && flow == flow'
      ensures old(flow) > 0 ==> unchanged(pendingCapacity)
      ensures pendingSend.items == if Joins(old(store.slab), store.slab, key.index, Send)
              then old(pendingSend.items) + [key] else old(pendingSend.items)
    {
      hide Tracked, Wired, Ledger, Counts.Accurate, AllOk, StreamOk, Ready, Assigned;
      ghost var k, slab := key.index, store.slab;
      var s := store.slab[key.index];
      SameEntry(slab, k);
      QueuesApart();
      if AsSize(s.sendFlow) == 0 {
        return;
      }
      if AsSize(flow) == 0 {
        Push(Capacity, key, except);
        return;
      }
      if s.remaining.None? {
        return;
      }
      var n := Share(flow, s.sendFlow, s.remaining.value);
      RemainingFrames(slab, counts.isServer, k, except);
      Push(Send, key, except);
      ShareOk(slab, counts.isServer, k, except, n, flow);
      LedgerRange();
      if n == 0 {
        return;
      }
      var t := store.slab[key.index];
      Commit(key, t.(connWindow := Wrap(t.connWindow + n)), flow - n, 0, except);
    }

    lemma QueuesApart()
      requires Wired()
      ensures pendingSend != pendingCapacity && pendingSend != pendingOpen
    {
      assert QueueOf(Send).which == Send && QueueOf(Capacity).which == Capacity;
      assert QueueOf(Which.Open).which == Which.Open;
    }

    lemma LedgerRange()
      requires Ledger()
      ensures IsI32(flow)
    {
    }

    /** Hands out the connection window to the streams that wait for it, until it or the queue is empty. */
    method AssignConnectionCapacity(ghost except: set<nat>)
      requires Valid(except)
      requires forall k :: k in except && k in store.slab ==> !store.slab[k].state.IsSendStreaming()
      modifies `flow, `sent, counts, store, pendingSend`indices, pendingSend`items, pendingCapacity`indices,
               pendingCapacity`items
      ensures Valid(except) && FedAll(old(store.slab), store.slab) && sent == old(sent) && store.ids == old(store.ids)
      ensures AsSize(flow) == 0 || pendingCapacity.items == []
      ensures Handed(old(store.slab), old(flow), store.slab, flow) && unchanged(counts)
    {
      hide Tracked, Wired, Ledger, Counted, Counts.Accurate, AllOk, FedAll, Handed;
      ghost var before, flow0 := store.slab, flow;
      FedSame(store.slab);
      HandedSame(store.slab, flow);
      while AsSize(flow) > 0
        invariant Valid(except) && FedAll(before, store.slab) && sent == old(sent) && store.ids == old(store.ids)
        invariant forall k :: k in except && k in store.slab ==> !store.slab[k].state.IsSendStreaming()
        invariant Handed(before, flow0, store.slab, flow) && unchanged(counts)
        decreases if AsSize(flow) > 0 then 1 else 0, |pendingCapacity.items|
      {
        ghost var slab, flow1 := store.slab, flow;
        var more := FeedNext(except);
        if !more {
          return;
        }
        FedTrans(before, slab, store.slab);
        HandedTrans(before, flow0, slab, flow1, store.slab, flow);
      }
    }

    /** Takes the stream that has waited longest off the queue, and gives it a share if it still wants one. */
    method FeedNext(ghost except: set<nat>) returns (more: bool)
      requires Valid(except) && AsSize(flow) > 0
      requires forall k :: k in except && k in store.slab ==> !store.slab[k].state.IsSendStreaming()
      modifies `flow, `sent, counts, store, pendingSend`indices, pendingSend`items, pendingCapacity`indices,
               pendingCapacity`items
      ensures Valid(except) && FedAll(old(store.slab), store.slab) && sent == old(sent) && store.ids == old(store.ids)
      ensures forall k :: k in except && k in store.slab ==> !store.slab[k].state.IsSendStreaming()
      ensures more == (old(pendingCapacity.items) != [])
      ensures if more then pendingCapacity.items == old(pendingCapacity.items)[1..]
              else pendingCapacity.items == [] && store.slab == old(store.slab) && flow == old(flow)
      ensures Handed(old(store.slab), old(flow), store.slab, flow) && unchanged(counts)
    {
      hide Tracked, Wired, Ledger, Counted, StreamOk, Assigned, TryAssign, Counts.Accurate, AllOk, Handed;
      ghost var slab := store.slab;
      FedSame(slab);
      HandedSame(slab, flow);
      assert QueueOf(Capacity) == pendingCapacity;
      var popped := Pop(Capacity, except);
      if popped.None? {
        return false;
      }
      var key := popped.value;
      FedFlag(slab, slab, key.index, Capacity, false);
      HandedFlag(slab, key.index, Capacity, false, flow);
      var stream := store.slab[key.index];
      if !stream.state.IsSendStreaming() || stream.remaining.None? {
        return true;
      }
      var wasReset := ResetExpire in stream.queued;
      FedAssign(slab, store.slab, key.index, flow);
      AssignResets(stream, flow);
      HandedAssign(slab, store.slab, key.index, flow);
      TryAssignCapacity(key, except);
      OpenStays(store.slab, key.index);
      After(key, wasReset, except);
      return true;
    }

    /** The connection's window grows: by what the peer grants, or by what a stream gives back. */
    method RecvConnectionWindowUpdate(inc: nat, ghost grant: bool, ghost except: set<nat>) returns (ok: bool)
      requires Valid(except) && inc < U32 && (grant ==> inc <= MAX_WINDOW)
      requires !grant && clean ==> flow + Assigned(store.slab) + sent + inc <= DEFAULT_WINDOW + granted
      requires forall k :: k in except && k in store.slab ==> !store.slab[k].state.IsSendStreaming()
      modifies `flow, `sent, `granted, `peak, counts, store
      modifies pendingSend`indices, pendingSend`items, pendingCapacity`indices, pendingCapacity`items
      ensures Valid(except) && FedAll(old(store.slab), store.slab) && sent == old(sent) && store.ids == old(store.ids)
      ensures ok == IncreaseBy(old(flow), inc).Some?
      ensures ok ==> Handed(old(store.slab), IncreaseBy(old(flow), inc).value, store.slab, flow)
      ensures ok ==> AsSize(flow) == 0 || pendingCapacity.items == []
      ensures !ok ==> flow == old(flow) && store.slab == old(store.slab)
      ensures unchanged(counts)
      ensures granted == old(granted) + if ok && grant then inc else 0
      ensures peak == if ok && grant && old(peak) < DEFAULT_WINDOW + granted - sent
                      then DEFAULT_WINDOW + granted - sent else old(peak)
    {
      hide Tracked, QueueOk, IdsOk, Counted, AllOk, Assigned, Counts.Accurate, FedAll, Handed;
      var window := IncreaseBy(flow, inc);
      FedSame(store.slab);
      if window.None? {
        return false;
      }
      flow := window.value;
      if grant {
        granted := granted + inc;
        if peak < DEFAULT_WINDOW + granted - sent {
          peak := DEFAULT_WINDOW + granted - sent;
        }
      }
      AssignConnectionCapacity(except);
      return true;
    }

    /** A stream's window grows; if it overflows the stream is reset. */
    method RecvStreamWindowUpdate(key: Key, sz: nat) returns (ok: bool)
      requires Valid({}) && Resolves(store.slab, key) && sz <= MAX_WINDOW
      modifies this, Parts()
      ensures Valid({}) && Kept()
      ensures initWindow == old(initWindow) && store.ids == old(store.ids)
      ensures Resolves(store.slab, key) && unchanged(counts)
      ensures !ok ==>
                var reset := AfterReset(old(store.slab)[key.index], FLOW_CONTROL_ERROR, Library);
                FedAll(old(store.slab)[key.index := reset], store.slab)
      ensures ok == (old(store.slab)[key.index].state.IsSendClosed()
              || IncreaseBy(old(store.slab)[key.index].sendFlow, sz).Some?)
      ensures ok ==> clean == old(clean)
      ensures var s := old(store.slab)[key.index];
              ok ==> store.slab == if s.state.IsSendClosed() then old(store.slab)
              else old(store.slab)[key.index := TryAssign(s.(sendFlow := s.sendFlow + sz), old(flow)).0]
      ensures var s := old(store.slab)[key.index];
              ok ==> flow == if s.state.IsSendClosed() then old(flow)
              else TryAssign(s.(sendFlow := s.sendFlow + sz), old(flow)).1
    {
      hide Tracked, Wired, Counted, Assigned, Counts.Accurate, AllOk, Ledger, TryAssign, StreamOk;
      var s := store.slab[key.index];
      if s.state.IsSendClosed() {
        return true;
      }
      var window := IncreaseBy(s.sendFlow, sz);
      if window.None? {
        SendReset(key, FLOW_CONTROL_ERROR, Library);
        return false;
      }
      WindowOk(store.slab, counts.isServer, key.index, window.value);
      LedgerRange();
      var t := s.(sendFlow := window.value);
      DoubleUpdate(store.slab, key.index, t, TryAssign(t, flow).0);
      AssignResets(t, flow);
      Commit(key, t, flow, 0, {});
      TryAssignCapacity(key, {});
      return true;
    }

    /** The peer grants the stream more; a stream whose window overflows is reset, and held if there is room. */
    method RecvWindowUpdate(key: Key, sz: nat) returns (ok: bool)
      requires Valid({}) && Resolves(store.slab, key) && sz <= MAX_WINDOW
      modifies this, Parts()
      ensures Valid({}) && Kept()
      ensures ok == (old(store.slab)[key.index].state.IsSendClosed()
              || IncreaseBy(old(store.slab)[key.index].sendFlow, sz).Some?)
      ensures ok ==> clean == old(clean)
      ensures var s := old(store.slab)[key.index];
              ok ==> store.slab == if s.state.IsSendClosed() then old(store.slab)
              else old(store.slab)[key.index := TryAssign(s.(sendFlow := s.sendFlow + sz), old(flow)).0]
      ensures !ok ==>
                && Resolves(store.slab, key)
                && store.slab[key.index].state == Closed(Failed(ResetError(FLOW_CONTROL_ERROR, Library)))
                && store.slab[key.index].frames == [RstStream(FLOW_CONTROL_ERROR)]
                && (ResetExpire in store.slab[key.index].queued
                    <==> ResetExpire in old(store.slab)[key.index].queued || old(counts.CanIncNumResetStreams()))
    {
      hide Tracked, Wired, Counted, Counts.Accurate, AllOk, Ledger, TryAssign, FedAll;
      ghost var before, k := store.slab, key.index;
      ok := RecvStreamWindowUpdate(key, sz);
      if !ok {
        FedStream(before[k := AfterReset(before[k], FLOW_CONTROL_ERROR, Library)], store.slab, k);
        ghost var slab := store.slab;
        SendReset(key, FLOW_CONTROL_ERROR, Library);
        SameEntry(slab, k);
        FedStream(slab, store.slab, k);
        EnqueueResetExpiration(key, {});
      }
    }

    /** Gives back what the stream holds of the connection window, without taking it off the stream's record. */
    method ReclaimAllCapacity(key: Key, ghost except: set<nat>)
      requires Valid(except) && Resolves(store.slab, key)
      requires forall k :: k in except && k in store.slab ==> !store.slab[k].state.IsSendStreaming()
      modifies this, counts, store
      modifies pendingSend`indices, pendingSend`items, pendingCapacity`indices, pendingCapacity`items
      ensures Valid(except) && FedAll(old(store.slab), store.slab) && store.ids == old(store.ids)
      ensures Kept()
      ensures unchanged(counts) && (clean ==> old(clean))
    {
      hide Tracked, QueueOk, IdsOk, Counted, AllOk, Assigned, Counts.Accurate, FedAll;
      var share := store.slab[key.index].connWindow;
      FedSame(store.slab);
      ShareBounded(key, except);
      if share > 0 {
        Spoil(except);
        var _ := RecvConnectionWindowUpdate(share, false, except);
      }
    }

    /** From here on the ledger is not kept. */
    ghost method Spoil(except: set<nat>)
      requires Valid(except)
      modifies `clean
      ensures Valid(except) && !clean
    {
      hide Tracked, QueueOk, IdsOk, Counted, AllOk, Assigned, Counts.Accurate;
      clean := false;
    }

    lemma ShareBounded(key: Key, except: set<nat>)
      requires Valid(except) && key.index in store.slab
      ensures store.slab[key.index].connWindow < U32
    {
    }

    // ===== resets =====

    method ScheduleSend(key: Key, ghost except: set<nat>)
      requires Valid(except) && Resolves(store.slab, key)
      requires store.slab[key.index].frames != [] || store.slab[key.index].state.Closed?
      modifies store`slab, store`links, pendingSend`indices, pendingSend`items
      ensures Valid(except)
      ensures store.slab == if Which.Open in old(store.slab)[key.index].queued then old(store.slab)
                            else Flag(old(store.slab), key.index, Send, true)
      ensures Which.Open in old(store.slab)[key.index].queued ==> unchanged(pendingSend)
    {
      hide Tracked, Wired, Counted, AllOk, Ledger, Counts.Accurate;
      if Which.Open !in store.slab[key.index].queued {
        Push(Send, key, except);
      }
    }

    /** Resets a stream: what is queued is dropped, and an RST_STREAM frame takes its place. */
    method SendReset(key: Key, reason: nat, initiator: Initiator)
      requires Valid({}) && Resolves(store.slab, key) && !initiator.Remote?
      modifies this, counts, store
      modifies pendingSend`indices, pendingSend`items, pendingCapacity`indices, pendingCapacity`items
      ensures Valid({}) && Resolves(store.slab, key) && store.ids == old(store.ids)
      ensures var reset := AfterReset(old(store.slab)[key.index], reason, initiator);
              FedAll(old(store.slab)[key.index := reset], store.slab)
      ensures unchanged(counts)
      ensures Kept()
    {
      hide Tracked, Wired, Counted, AllOk, Ledger, Counts.Accurate, StreamOk, FedAll, Fed, Ready;
      var s := store.slab[key.index];
      SameEntry(store.slab, key.index);
      if s.state.IsReset() {
        FedSame(store.slab);
        return;
      }
      var isClosed, isEmpty := s.state.Closed?, s.frames == [];
      var t := s.(state := Closed(Failed(ResetError(reason, initiator))));
      ResetOk(store.slab, counts.isServer, key.index, t.state, reason, {});
      LedgerRange();
      if isClosed && isEmpty {
        Commit(key, t, flow, 0, {});
        FedSame(store.slab);
        return;
      }
      ReplaceQueue(key, t.state, reason, {});
      ghost var slab := store.slab;
      ReclaimAllCapacity(key, {});
      FedKeeps(slab, store.slab, key.index);
    }

    /** Drops what the stream had queued, and queues its reset instead. */
    method ReplaceQueue(key: Key, state: State, reason: nat, ghost except: set<nat>)
      requires Valid(except) && except <= {key.index} && Resolves(store.slab, key) && state.Closed?
               && state.cause.Failed? && !state.IsRemoteReset()
      modifies `flow, `sent, store`slab, store`links, pendingSend`indices, pendingSend`items
      ensures Valid({}) && flow == old(flow) && sent == old(sent)
      ensures var t := old(store.slab)[key.index].(state := state, frames := [RstStream(reason)], remaining := None);
              store.slab == old(store.slab)[key.index :=
                              if Which.Open in t.queued then t else t.(queued := t.queued + {Send})]
    {
      hide Tracked, Wired, Counted, AllOk, Ledger, Counts.Accurate, StreamOk, Ready;
      ghost var slab := store.slab;
      ResetOk(store.slab, counts.isServer, key.index, state, reason, except);
      LedgerRange();
      Commit(key, store.slab[key.index].(state := state, frames := [], remaining := None), flow, 0, except);
      Done(key.index, except);
      assert [] + [RstStream(reason)] == [RstStream(reason)];
      QueueFrame(key, RstStream(reason));
    }

    method QueueFrame(key: Key, frame: Frame)
      requires Valid({}) && Resolves(store.slab, key)
      requires var t := store.slab[key.index].(frames := store.slab[key.index].frames + [frame]);
               StreamOk(counts.isServer, t) && Ready(t)
      modifies `flow, `sent, store`slab, store`links, pendingSend`indices, pendingSend`items
      ensures Valid({}) && sent == old(sent) && flow == old(flow)
      ensures var s := old(store.slab)[key.index].(frames := old(store.slab)[key.index].frames + [frame]);
              store.slab == old(store.slab)[key.index :=
                              if Which.Open in s.queued then s else s.(queued := s.queued + {Send})]
      ensures Which.Open in old(store.slab)[key.index].queued ==> unchanged(pendingSend)
    {
      hide Tracked, Wired, Counted, Held, AbandonedIn, Ledger, Counts.Accurate, StreamOk, Ready, AllOk;
      var s := store.slab[key.index];
      LedgerRange();
      Commit(key, s.(frames := s.frames + [frame]), flow, 0, {});
      ScheduleSend(key, {});
    }

    /** Holds a locally reset stream for some time, unless too many are held already. */
    method EnqueueResetExpiration(key: Key, ghost except: set<nat>)
      requires Valid(except) && Resolves(store.slab, key)
      modifies counts`numLocalReset, store`slab, store`links, pendingResetExpired`indices, pendingResetExpired`items
      ensures Valid(except)
      ensures var s := old(store.slab)[key.index];
              store.slab == if s.state.IsLocalError() && ResetExpire !in s.queued && old(counts.CanIncNumResetStreams())
                            then Flag(old(store.slab), key.index, ResetExpire, true)
                            else old(store.slab)
    {
      hide Tracked, QueueOk, IdsOk, Counted, Held, AbandonedIn, AllOk, Ledger;
      if !store.slab[key.index].state.IsLocalError() || ResetExpire in store.slab[key.index].queued {
        return;
      }
      if counts.CanIncNumResetStreams() {
        counts.IncNumResetStreams(store.slab);
        Push(ResetExpire, key, except);
      }
    }

    /** Resets a stream on behalf of the user or the library. */
    method ResetStream(key: Key, reason: nat, initiator: Initiator)
      requires Valid({}) && Resolves(store.slab, key) && !initiator.Remote?
      modifies this, Parts()
      ensures Valid({}) && Kept()
      ensures var t := AfterReset(old(store.slab)[key.index], reason, initiator);
              key.index in store.slab ==>
                store.slab[key.index].state == t.state && store.slab[key.index].frames == t.frames && t.state.IsReset()
    {
      hide Tracked, Wired, Counted, Held, AbandonedIn, AllOk, Ledger, Counts.Accurate, Settle, AfterReset;
      var wasReset := ResetExpire in store.slab[key.index].queued;
      ResetFlags(store.slab[key.index], reason, initiator);
      ResetAndHold(key, reason, initiator);
      NoneExcepted(key.index);
      ghost var slab := store.slab;
      After(key, wasReset, {});
      SettledState(slab, key.index);
    }

    /** Resets a stream, and holds it if there is room. */
    method ResetAndHold(key: Key, reason: nat, initiator: Initiator)
      requires Valid({}) && Resolves(store.slab, key) && !initiator.Remote?
      modifies this, Parts()
      ensures Valid({}) && Resolves(store.slab, key) && Kept() && store.ids == old(store.ids)
      ensures counts.numRecv == old(counts.numRecv)
      ensures var s, t := old(store.slab)[key.index], store.slab[key.index];
              var reset := AfterReset(s, reason, initiator);
              && t.state == reset.state && t.frames == reset.frames && t.isCounted == s.isCounted
              && (ResetExpire in s.queued ==> ResetExpire in t.queued)
    {
      hide Tracked, Wired, Counted, Held, AbandonedIn, AllOk, Ledger, Counts.Accurate, FedAll, StreamOk, Ready,
           AfterReset;
      ghost var reset := AfterReset(store.slab[key.index], reason, initiator);
      ghost var before := store.slab;
      ResetFlags(store.slab[key.index], reason, initiator);
      SendReset(key, reason, initiator);
      FedStream(before[key.index := reset], store.slab, key.index);
      EnqueueResetExpiration(key, {});
    }

    lemma NoneExcepted(k: nat)
      requires Valid({}) && k in store.slab
      ensures Ready(store.slab[k]) && StreamOk(counts.isServer, store.slab[k])
    {
    }

    /** The stream an action has been working on is in order again. */
    lemma Done(k: nat, except: set<nat>)
      requires Valid(except) && except <= {k} && (k in store.slab ==> Ready(store.slab[k]))
      ensures Valid({})
    {
    }

    /** Leaves a reset to be sent once the stream's turn to send comes. */
    method ScheduleImplicitReset(key: Key, reason: nat)
      requires Valid({}) && Resolves(store.slab, key)
      requires reason == CANCEL || !store.slab[key.index].state.IsSendStreaming()
      modifies this, counts, store
      modifies pendingSend`indices, pendingSend`items, pendingCapacity`indices, pendingCapacity`items
      ensures Valid({}) && Resolves(store.slab, key) && store.ids == old(store.ids)
      ensures Kept()
      ensures unchanged(counts) && (old(store.slab)[key.index].state.Closed? ==> store.slab == old(store.slab))
      ensures FedAll(old(store.slab)[key.index := Scheduled(old(store.slab)[key.index], reason)], store.slab)
    {
      hide Tracked, Wired, Counted, AllOk, Ledger, Counts.Accurate, StreamOk, Fed, FedAll;
      ghost var before := store.slab;
      var s := store.slab[key.index];
      SameEntry(before, key.index);
      FedSame(before);
      if s.state.Closed? {
        return;
      }
      var t := s.(state := Closed(ScheduledReset(reason)));
      ScheduleOk(store.slab, counts.isServer, key.index, reason);
      LedgerRange();
      Widen(key.index);
      Commit(key, t, flow, 0, {key.index});
      ghost var slab := store.slab;
      ReclaimAllCapacity(key, {key.index});
      FedKeeps(slab, store.slab, key.index);
      ghost var fed := store.slab;
      ScheduleSend(key, {key.index});
      ScheduledFed(before, key.index, reason, fed, store.slab);
      NowQueued(key.index);
      Done(key.index, {key.index});
    }

    lemma Widen(k: nat)
      requires Valid({})
      ensures Valid({k})
    {
    }

    /** A stream that waits to be opened is not counted. */
    lemma NowQueued(k: nat)
      requires Valid({k}) && k in store.slab
      requires store.slab[k].state.Closed? && (Send in store.slab[k].queued || Which.Open in store.slab[k].queued)
      ensures Ready(store.slab[k])
    {
    }

    /** A handle to the stream is dropped; the last one cancels a stream that is still open. */
    method DropHandle(key: Key)
      requires Valid({}) && Resolves(store.slab, key) && store.slab[key.index].refCount > 0
      modifies this, Parts()
      ensures Valid({}) && Kept()
      ensures key.index in store.slab ==> store.slab[key.index].refCount == old(store.slab)[key.index].refCount - 1
    {
      hide Tracked, Wired, Counted, Held, AbandonedIn, AllOk, Ledger, Counts.Accurate, Settle, StreamOk;
      RefDec(key);
      var wasReset := ResetExpire in store.slab[key.index].queued;
      MaybeCancel(key);
      NoneExcepted(key.index);
      ghost var slab' := store.slab;
      After(key, wasReset, {});
      SettledState(slab', key.index);
    }

    /** Ten octets are credited to the connection if the stream holds any of its window. */
    method RefDec(key: Key)
      requires Valid({}) && Resolves(store.slab, key) && store.slab[key.index].refCount > 0
      modifies this, counts, store
      modifies pendingSend`indices, pendingSend`items, pendingCapacity`indices, pendingCapacity`items
      ensures Valid({}) && Resolves(store.slab, key) && Kept()
      ensures store.slab[key.index].refCount == old(store.slab)[key.index].refCount - 1
    {
      hide Tracked, Wired, Counted, Held, AbandonedIn, AllOk, Ledger, Counts.Accurate, Settle, StreamOk, Ready;
      var s := store.slab[key.index];
      NoneExcepted(key.index);
      HandleOk(counts.isServer, s, s.refCount - 1);
      LedgerRange();
      Commit(key, s.(refCount := s.refCount - 1), flow, 0, {});
      ghost var slab := store.slab;
      if s.connWindow > 0 {
        Spoil({});
        var _ := RecvConnectionWindowUpdate(10, false, {});
        assert Fed(slab[key.index], store.slab[key.index]);
      }
    }

    method MaybeCancel(key: Key)
      requires Valid({}) && Resolves(store.slab, key)
      modifies this, Parts()
      ensures Valid({}) && Resolves(store.slab, key) && store.ids == old(store.ids)
      ensures ResetExpire in old(store.slab)[key.index].queued ==> ResetExpire in store.slab[key.index].queued
      ensures Kept()
      ensures store.slab[key.index].refCount == old(store.slab)[key.index].refCount
      ensures var s := old(store.slab)[key.index];
              if s.refCount == 0 && !s.state.Closed? && Send !in s.queued
              then store.slab[key.index].state.IsScheduledReset()
              else store.slab == old(store.slab)
    {
      hide Tracked, Wired, Counted, Held, AbandonedIn, AllOk, Ledger, Counts.Accurate, StreamOk, Ready;
      var s := store.slab[key.index];
      if s.refCount == 0 && !s.state.Closed? && Send !in s.queued {
        var reason :=
          if counts.isServer && s.state.IsSendClosed() && s.state.IsRecvStreaming() then NO_ERROR else CANCEL;
        ScheduleImplicitReset(key, reason);
        EnqueueResetExpiration(key, {});
      }
    }

    // ===== receiving =====

    /** Takes the stream at the front of a queue if it satisfies `f`. */
    method PopIf(w: Which, f: Stream -> bool) returns (r: Option<Key>)
      requires Valid({}) && w != Send
      modifies QueueOf(w)`indices, QueueOf(w)`items, store`slab, store`links
      ensures Valid({})
      ensures r.None? ==>
                && store.slab == old(store.slab) && QueueOf(w).items == old(QueueOf(w).items)
                && (QueueOf(w).items == []
                   || (Resolves(store.slab, QueueOf(w).items[0]) && !f(store.slab[QueueOf(w).items[0].index])))
      ensures r.Some? ==> old(QueueOf(w).items) != [] && r.value == old(QueueOf(w).items)[0]
      ensures r.Some? ==>
                && Resolves(old(store.slab), r.value) && Resolves(store.slab, r.value)
                && f(old(store.slab)[r.value.index])
                && store.slab == Flag(old(store.slab), r.value.index, w, false)
                && QueueOf(w).items == old(QueueOf(w).items)[1..]
                && (w == ResetExpire ==> counts.numLocalReset > |Held(store.slab)|)
    {
      hide Tracked, Counted, Held, AbandonedIn, AllOk, Ledger, Counts.Accurate, IdsOk, Threaded;
      assert QueueOf(w).which == w && QueueOf(w).Ok(store);
      if QueueOf(w).indices.Some? {
        if f(store.slab[QueueOf(w).indices.value.head.index]) {
          ghost var head := QueueOf(w).items[0];
          r := Pop(w, {});
          return;
        }
      }
      return None;
    }

    /**
     Moves complete messages to the application, in the order in which their headers arrived: the longest run of
     finished streams at the front of the queue, without those that the peer has reset.
     */
    method MoveFromPendingComplete() returns (ghost n: nat)
      requires Valid({})
      modifies store`slab, store`links, pendingComplete`indices, pendingComplete`items, pendingAccept`indices,
               pendingAccept`items
      ensures Valid({}) && Moved(old(store.slab), store.slab)
      ensures FinishedRun(old(pendingComplete.items), old(store.slab), n)
              && pendingComplete.items == old(pendingComplete.items)[n..]
      ensures pendingAccept.items == old(pendingAccept.items)
                + if counts.isServer then Acceptable(old(pendingComplete.items)[..n], old(store.slab)) else []
    {
      hide Tracked, Wired, Counted, Held, AbandonedIn, AllOk, Ledger, Counts.Accurate, Moved, Acceptable;
      ghost var before, items := store.slab, pendingComplete.items;
      n := 0;
      MovedSame(store.slab);
      AcceptApart();
      MoveStart(items, before);
      assert items[0..] == items && items[..0] == [];
      while true
        invariant Valid({}) && Moved(before, store.slab)
        invariant n <= |items| && pendingComplete.items == items[n..] && Unmoved(items, before, store.slab, n)
        invariant forall i :: 0 <= i < n ==> Finished(before[items[i].index])
        invariant pendingAccept.items == old(pendingAccept.items)
                                         + if counts.isServer then Acceptable(items[..n], before) else []
        decreases |pendingComplete.items|
      {
        ghost var slab := store.slab;
        var popped := PopIf(Complete, Finished);
        if popped.None? {
          break;
        }
        var key := popped.value;
        MovedFlag(before, slab, key.index, Complete, false);
        MoveNext(items, before, slab, n);
        if counts.isServer {
          if !store.slab[key.index].state.IsRemoteReset() {
            MovedFlag(before, store.slab, key.index, Accept, true);
            Push(Accept, key, {});
          }
        }
        n := n + 1;
      }
    }

    lemma AcceptApart()
      requires Wired()
      ensures pendingAccept != pendingComplete
      ensures Members(Complete, pendingComplete.items, store.slab)
    {
      assert QueueOf(Accept).which == Accept && QueueOf(Complete).which == Complete;
      assert QueueOf(Complete).Ok(store);
    }

    /** One more handle to a stream: for whoever sent the request, accepts the message or copies a handle. */
    method AddHandle(key: Key)
      requires Valid({}) && Resolves(store.slab, key)
      modifies `flow, `sent, store`slab
      ensures Valid({}) && flow == old(flow) && sent == old(sent)
      ensures var s := old(store.slab)[key.index];
              store.slab == old(store.slab)[key.index := s.(refCount := s.refCount + 1)]
    {
      hide Tracked, Wired, Counted, Held, AbandonedIn, AllOk, Ledger, Counts.Accurate, StreamOk, Ready;
      NoneExcepted(key.index);
      var s := store.slab[key.index];
      HandleOk(counts.isServer, s, s.refCount + 1);
      LedgerRange();
      Commit(key, s.(refCount := s.refCount + 1), flow, 0, {});
    }

    /** The application takes the next message, and with it a handle. */
    method NextAccept() returns (r: Option<Key>)
      requires Valid({})
      modifies `flow, `sent, counts`numRemoteReset, store`slab, store`links, pendingAccept`indices, pendingAccept`items
      ensures Valid({}) && sent == old(sent) && flow == old(flow)
      ensures r.Some? ==> Resolves(store.slab, r.value) && store.slab[r.value.index].refCount > 0
      ensures match r
              case None => old(pendingAccept.items) == []
              case Some(key) =>
                && old(pendingAccept.items) != [] && key == old(pendingAccept.items)[0]
                && pendingAccept.items == old(pendingAccept.items)[1..]
                && key.index in old(store.slab)
                && store.slab[key.index].refCount == old(store.slab)[key.index].refCount + 1
                && counts.numRemoteReset == old(counts.numRemoteReset)
                                            - if old(store.slab)[key.index].state.IsRemoteReset() then 1 else 0
    {
      hide Tracked, Wired, Counted, Held, AbandonedIn, AllOk, Ledger, Counts.Accurate, StreamOk, Ready;
      assert QueueOf(Accept) == pendingAccept;
      r := Pop(Accept, {});
      if r.Some? {
        if store.slab[r.value.index].state.IsRemoteReset() {
          DiscountRemoteReset();
        }
        AddHandle(r.value);
      }
    }

    /** The peer ended its half of the stream, with DATA or with trailers, or what it sent is malformed. */
    method RecvEnd(key: Key, outcome: EndOutcome) returns (ok: bool)
      requires Valid({}) && Resolves(store.slab, key)
      modifies this, Parts()
      ensures Valid({}) && Kept()
      ensures outcome.Fine? ==> clean == old(clean)
      ensures ok <==> outcome.MalformedBefore? || RecvClose(old(store.slab)[key.index].state).Some?
      ensures ok && key.index in store.slab ==>
                var t := Ended(old(store.slab)[key.index], outcome);
                store.slab[key.index].state == t.state && store.slab[key.index].frames == t.frames
    {
      hide Tracked, Wired, Counted, Held, AbandonedIn, AllOk, Ledger, Counts.Accurate, StreamOk, Ready, Settle, Ended,
           RecvClose;
      var wasReset := ResetExpire in store.slab[key.index].queued;
      ok := Finish(key, outcome);
      NoneExcepted(key.index);
      ghost var slab := store.slab;
      After(key, wasReset, {});
      SettledState(slab, key.index);
    }

    /** Closes the peer's half of the stream, or resets the stream. */
    method Finish(key: Key, outcome: EndOutcome) returns (ok: bool)
      requires Valid({}) && Resolves(store.slab, key)
      modifies this, Parts()
      ensures Valid({}) && Resolves(store.slab, key) && Kept()
      ensures outcome.Fine? ==> clean == old(clean)
      ensures ok <==> outcome.MalformedBefore? || RecvClose(old(store.slab)[key.index].state).Some?
      ensures ok ==> var t := Ended(old(store.slab)[key.index], outcome);
                     store.slab[key.index].state == t.state && store.slab[key.index].frames == t.frames
      ensures ResetExpire in old(store.slab)[key.index].queued ==> ResetExpire in store.slab[key.index].queued
    {
      hide Tracked, Wired, Counted, Held, AbandonedIn, AllOk, Ledger, Counts.Accurate, StreamOk, Ready, Moved,
           MovedOne, FedAll, AfterReset;
      var s := store.slab[key.index];
      if !outcome.MalformedBefore? {
        var state := RecvClose(s.state);
        if state.None? {
          return false;
        }
        NoneExcepted(key.index);
        ReceivedOk(counts.isServer, s, state.value);
        LedgerRange();
        Commit(key, s.(state := state.value), flow, 0, {});
      }
      ghost var slab := store.slab;
      if outcome.Fine? {
        var _ := MoveFromPendingComplete();
        MovedKeeps(slab, store.slab, key.index);
        MovedFrames(slab, store.slab, key.index);
      } else {
        ResetAndHold(key, outcome.reason, Library);
      }
      return true;
    }

    /** The peer reset the stream; too many resets of messages not yet accepted are an error. */
    method RecvReset(key: Key, reason: nat) returns (ok: bool)
      requires Valid({}) && Resolves(store.slab, key)
      modifies this, Parts()
      ensures Valid({}) && Kept()
      ensures ok <==> Accept !in old(store.slab)[key.index].queued || old(counts.CanIncNumRemoteResetStreams())
      ensures ok ==> ClosedAt(store.slab, key.index)
    {
      hide Tracked, Wired, Counted, Held, AbandonedIn, AllOk, Ledger, Counts.Accurate, StreamOk, Ready, Settle;
      var wasReset := ResetExpire in store.slab[key.index].queued;
      ok := Accept !in store.slab[key.index].queued || counts.CanIncNumRemoteResetStreams();
      if ok {
        CloseReset(key, reason);
      }
      NoneExcepted(key.index);
      ghost var slab := store.slab;
      After(key, wasReset, {});
      SettledState(slab, key.index);
    }

    /** Closes a stream that the peer has reset, and drops what it had queued. */
    method CloseReset(key: Key, reason: nat)
      requires Valid({}) && Resolves(store.slab, key)
      requires Accept !in store.slab[key.index].queued || counts.CanIncNumRemoteResetStreams()
      modifies this, Parts()
      ensures Valid({}) && Resolves(store.slab, key) && Kept() && store.slab[key.index].IsClosed()
      ensures ResetExpire in store.slab[key.index].queued <==> ResetExpire in old(store.slab)[key.index].queued
    {
      hide Tracked, Wired, Counted, Held, AbandonedIn, AllOk, Ledger, Counts.Accurate, StreamOk, Ready, Moved, MovedOne;
      var s := store.slab[key.index];
      if Accept in s.queued {
        CountRemoteReset();
      }
      var state := StreamState.RecvReset(s.state, reason, Send in s.queued);
      NoneExcepted(key.index);
      RemoteResetOk(counts.isServer, s, state);
      LedgerRange();
      Commit(key, s.(state := state), flow, 0, {});
      ghost var slab := store.slab;
      var _ := MoveFromPendingComplete();
      MovedKeeps(slab, store.slab, key.index);
      ClearAndReclaim(key);
    }

    /** One more stream is reset by the peer before it has been accepted. */
    method CountRemoteReset()
      requires Valid({}) && counts.CanIncNumRemoteResetStreams()
      modifies counts`numRemoteReset
      ensures Valid({}) && counts.numRemoteReset > |AbandonedIn(store.slab)|
    {
      hide Tracked, QueueOk, Counted, Held, AbandonedIn, IdsOk, AllOk, Ledger;
      assert forall v :: QueueOf(v).which == v && QueueOf(v).Ok(store);
      counts.IncNumRemoteResetStreams(store.slab);
    }

    /** An abandoned stream has been accepted. */
    method DiscountRemoteReset()
      requires Valid({}) && counts.numRemoteReset > |AbandonedIn(store.slab)|
      modifies counts`numRemoteReset
      ensures Valid({}) && counts.numRemoteReset == old(counts.numRemoteReset) - 1
    {
      hide Tracked, QueueOk, Counted, Held, AbandonedIn, IdsOk, AllOk, Ledger;
      assert forall v :: QueueOf(v).which == v && QueueOf(v).Ok(store);
      counts.DecNumRemoteResetStreams(store.slab);
    }

    /** Drops what a closed stream had queued, and takes back its share. */
    method ClearAndReclaim(key: Key)
      requires Valid({}) && Resolves(store.slab, key) && store.slab[key.index].state.Closed?
      modifies this, counts, store
      modifies pendingSend`indices, pendingSend`items, pendingCapacity`indices, pendingCapacity`items
      ensures Valid({}) && Resolves(store.slab, key) && store.ids == old(store.ids)
      ensures ResetExpire in store.slab[key.index].queued <==> ResetExpire in old(store.slab)[key.index].queued
      ensures Kept()
      ensures store.slab[key.index].IsClosed()
    {
      hide Tracked, Wired, Counted, Held, AbandonedIn, AllOk, Ledger, Counts.Accurate, StreamOk, Ready;
      var s := store.slab[key.index];
      NoneExcepted(key.index);
      ClearOk(counts.isServer, s);
      LedgerRange();
      Commit(key, s.(frames := [], remaining := None), flow, 0, {});
      ghost var slab := store.slab;
      ReclaimAllCapacity(key, {});
      assert Fed(slab[key.index], store.slab[key.index]);
    }

    /** A connection error reaches one stream: it is closed with nothing left to send, if it is still there. */
    method FailStream(key: Key, e: ProtoError)
      requires Valid({}) && Resolves(store.slab, key) && !e.IsRemoteReset()
      modifies this, Parts()
      ensures Valid({}) && Kept()
      ensures store.ids == old(store.ids) || store.ids == Unlinked(old(store.ids), key.streamId)
      ensures ClosedAt(store.slab, key.index) && OthersFed(old(store.slab), store.slab, key.index)
    {
      hide Tracked, Wired, Counted, Held, AbandonedIn, AllOk, Ledger, Counts.Accurate, StreamOk, Ready, Settle,
           Unlinked, Fed, FedAll, OthersFed;
      var s := store.slab[key.index];
      var wasReset := ResetExpire in s.queued;
      NoneExcepted(key.index);
      FailOk(counts.isServer, s, e);
      LedgerRange();
      Commit(key, s.(state := StreamState.HandleError(s.state, e), frames := [], remaining := None), flow, 0, {});
      ghost var slab := store.slab;
      ReclaimAllCapacity(key, {});
      FedKeeps(slab, store.slab, key.index);
      ghost var slab' := store.slab;
      NoneExcepted(key.index);
      After(key, wasReset, {});
      FailedKeeps(old(store.slab), slab, slab', key.index);
    }

    /**
     An error ends every stream above `last`: all of them for an error of our own. The others keep their ids, and
     at most get what the streams that have ended give back.
     */
    method HandleError(e: ProtoError, last: nat)
      requires Valid({}) && !e.IsRemoteReset()
      modifies this, Parts()
      ensures Valid({}) && Kept()
      ensures forall x :: x in old(store.ids) && x.0 > last ==> ClosedAt(store.slab, x.1)
      ensures forall x :: x in old(store.ids) && x.0 <= last ==> x in store.ids
      ensures forall k :: k in old(store.slab) && old(store.slab)[k].id <= last ==>
                k in store.slab && Fed(old(store.slab)[k], store.slab[k])
    {
      hide Tracked, Counted, Held, AbandonedIn, AllOk, Ledger, Counts.Accurate, QueueOk, ClosedAt, OthersFed,
           Unlinked, FindId, Fed, FailedSoFar;
      var len := |store.ids|;
      var i := 0;
      FailedStart(store.ids, store.slab, last);
      while i < len
        invariant i <= len == |store.ids|
        invariant Valid({}) && Kept()
        invariant FailedSoFar(old(store.ids), store.ids, old(store.slab), store.slab, i, last)
        decreases len - i
      {
        ghost var ids, slab := store.ids, store.slab;
        var key := Key(store.ids[i].1, store.ids[i].0);
        if store.slab[key.index].id > last {
          FailStream(key, e);
          FailedStep(old(store.ids), ids, store.ids, old(store.slab), slab, store.slab, i, last);
        } else {
          PassedStep(old(store.ids), ids, old(store.slab), slab, i, last);
        }
        var newLen := |store.ids|;
        if newLen < len {
          len := len - 1;
        } else {
          i := i + 1;
        }
      }
      FailedEnd(old(store.ids), store.ids, old(store.slab), store.slab, last);
    }

    // ===== opening streams =====

    /** Stores a new stream, which is not open yet. */
    method Insert(id: nat, s: Stream) returns (key: Key)
      requires Valid({}) && FindId(store.ids, id).None? && s.id == id
      requires s.queued == {} && !s.isCounted && s.connWindow == 0 && StreamOk(counts.isServer, s)
      requires Issued(counts.isServer, nextSend, nextRecv, id)
      modifies store`slab, store`ids
      ensures key.index !in old(store.slab) && key.streamId == id && store.ids == old(store.ids) + [(id, key.index)]
      ensures Valid({key.index}) && store.slab == old(store.slab)[key.index := s] && Resolves(store.slab, key)
    {
      hide Tracked, QueueOk, Counted, Held, AbandonedIn, IdsOk, Assigned, StreamOk, Ready, FindId;
      ghost var slab := store.slab;
      assert forall v :: QueueOf(v).which == v && QueueOf(v).Ok(store);
      key := store.Insert(id, s);
      CountInsert(slab, counts.isServer, true, key.index, s);
      CountInsert(slab, counts.isServer, false, key.index, s);
      AssignedChange(slab, key.index, s);
      TrackedInsert(slab, hollow, counts.isServer, nextSend, nextRecv, key.index, s);
      forall w
        ensures QueueOf(w).Ok(store)
      {
        InsertQueue(w, QueueOf(w).items, slab, store.links, key.index, s);
      }
    }

    /** Opens the send half of a stream; one of our own waits to be opened by the peer's leave. */
    method OpenSend(key: Key, ghost eos: bool, state: State, ghost except: set<nat>)
      requires Valid(except) && Resolves(store.slab, key) && except <= {key.index}
      requires SendOpen(store.slab[key.index].state, eos) == Some(state)
      modifies `flow, `sent, store`slab, store`links, pendingOpen`indices, pendingOpen`items
      ensures Valid({}) && sent == old(sent) && flow == old(flow)
      ensures var s := old(store.slab)[key.index];
              && s.frames == [] && s.remaining.None? && !s.isSendingTrailer && !state.IsSendAwaiting()
              && store.slab == old(store.slab)[key.index := s.(state := state, queued :=
                                 if IsLocalInit(counts.isServer, key.streamId) then s.queued + {Which.Open}
                                 else s.queued)]
      ensures pendingOpen.items ==
              if IsLocalInit(counts.isServer, key.streamId) && Which.Open !in old(store.slab)[key.index].queued
              then old(pendingOpen.items) + [key] else old(pendingOpen.items)
    {
      hide Tracked, Wired, Counted, Held, AbandonedIn, Ledger, Counts.Accurate, StreamOk, Ready, AllOk;
      OpenOk(store.slab, counts.isServer, key.index, except, state, eos);
      LedgerRange();
      Commit(key, store.slab[key.index].(state := state), flow, 0, except);
      Done(key.index, except);
      if IsLocalInit(counts.isServer, key.streamId) {
        Push(Which.Open, key, {});
      }
    }

    /** Opens the send half of a stream and queues its headers; a stream of our own waits to be opened. */
    method SendHeaders(key: Key, eos: bool, ghost except: set<nat>) returns (ok: bool)
      requires Valid(except) && Resolves(store.slab, key) && except <= {key.index}
      modifies `flow, `sent, store`slab, store`links
      modifies pendingSend`indices, pendingSend`items, pendingOpen`indices, pendingOpen`items
      ensures Valid(if ok then {} else except) && sent == old(sent) && flow == old(flow)
      ensures Resolves(store.slab, key) && store.slab == old(store.slab)[key.index := store.slab[key.index]]
      ensures var s := old(store.slab)[key.index];
              && ok == SendOpen(s.state, eos).Some?
              && if ok then HeadersQueued(s, store.slab[key.index], eos) else store.slab == old(store.slab)
      ensures ok ==>
                if IsLocalInit(counts.isServer, key.streamId) then
                  && store.slab[key.index].queued == old(store.slab)[key.index].queued + {Which.Open}
                  && pendingOpen.items == (if Which.Open in old(store.slab)[key.index].queued
                                           then old(pendingOpen.items) else old(pendingOpen.items) + [key])
                  && pendingSend.items == old(pendingSend.items)
                else store.slab[key.index].queued == old(store.slab)[key.index].queued + {Send}
    {
      hide Tracked, Wired, Counted, Held, AbandonedIn, Ledger, Counts.Accurate, StreamOk, Ready;
      QueuesApart();
      var s := store.slab[key.index];
      var state := SendOpen(s.state, eos);
      if state.None? {
        return false;
      }
      OpenSend(key, eos, state.value, except);
      NoneExcepted(key.index);
      FirstFrame(counts.isServer, store.slab[key.index], eos);
      QueueFrame(key, Headers(eos));
      return true;
    }

    /** Queues the rest of a message behind its headers. */
    method QueueBodyTrailer(key: Key, body: Option<Bytes>, trailers: bool)
      requires Valid({}) && Resolves(store.slab, key)
      requires var s := store.slab[key.index];
               && s.frames == [Headers(body.None? && !trailers)] && s.remaining.None? && !s.isSendingTrailer
               && (body.Some? || trailers ==> s.state.IsSendStreaming())
      modifies `flow, `sent, store`slab
      ensures Valid({}) && sent == old(sent) && flow == old(flow)
      ensures var was := old(store.slab)[key.index];
              store.slab == old(store.slab)[key.index := was.(frames := Message(body, trailers),
                                             remaining := if body.Some? then Some(|body.value|) else None)]
    {
      hide Tracked, Wired, Counted, Held, AbandonedIn, Ledger, Counts.Accurate, StreamOk, Ready, AllOk;
      var s := store.slab[key.index];
      NoneExcepted(key.index);
      MessageOk(counts.isServer, s, body, trailers);
      var frames := s.frames;
      var remaining := s.remaining;
      if body.Some? {
        remaining := Some(|body.value|);
        frames := frames + [Data(body.value, !trailers)];
      }
      if trailers {
        frames := frames + [Headers(true)];
      }
      LedgerRange();
      assert frames == Message(body, trailers);
      Commit(key, s.(frames := frames, remaining := remaining), flow, 0, {});
    }

    /**
     A client sends a request under the next id, unless they are used up; one with headers that are not allowed leaves
     nothing behind but its id.
     */
    method SendRequest(body: Option<Bytes>, trailers: bool, allowed: bool) returns (r: Option<Key>)
      requires Valid({})
      modifies this, Parts()
      ensures Valid({}) && sent == old(sent) && granted == old(granted) && peak == old(peak) && flow == old(flow)
      ensures hollow == old(hollow) && initWindow == old(initWindow) && nextRecv == old(nextRecv) && clean == old(clean)
      ensures nextSend == if counts.isServer || old(nextSend).None? then old(nextSend) else NextId(old(nextSend).value)
      ensures r.Some? <==> !counts.isServer && old(nextSend).Some? && allowed
      ensures r.None? ==> store.slab == old(store.slab) && unchanged(pendingSend) && unchanged(pendingOpen)
      ensures r.Some? ==>
                var s := Requested(old(nextSend).value, initWindow, body, trailers);
                && r.value.streamId == old(nextSend).value && r.value.index !in old(store.slab)
                && FindId(old(store.ids), r.value.streamId).None?
                && store.slab == old(store.slab)[r.value.index := s] && Sending(s)
                && pendingOpen.items == old(pendingOpen.items) + [r.value]
                && pendingSend.items == old(pendingSend.items)
                && store.ids == old(store.ids) + [(r.value.streamId, r.value.index)]
    {
      hide Tracked, Wired, Counted, Held, AbandonedIn, Ledger, Counts.Accurate, StreamOk, Ready, AllOk, FindId,
           BodyOk, Issued;
      if counts.isServer || nextSend.None? {
        return None;
      }
      var id := nextSend.value;
      TakeId();
      NewOk(counts.isServer, id, initWindow);
      ghost var slab := store.slab;
      var key := Insert(id, NewStream(id, initWindow));
      if !allowed {
        Discard(key);
        assert slab[key.index := NewStream(id, initWindow)] - {key.index} == slab;
        return None;
      }
      StartRequest(key, initWindow, body, trailers);
      AddHandle(key);
      return Some(key);
    }

    /** Opens a stream that has just been stored, and queues the message it is to carry. */
    method StartRequest(key: Key, ghost window: nat, body: Option<Bytes>, trailers: bool)
      requires Valid({key.index}) && Resolves(store.slab, key) && IsLocalInit(counts.isServer, key.streamId)
      requires store.slab[key.index] == NewStream(key.streamId, window)
      modifies `flow, `sent, store`slab, store`links
      modifies pendingSend`indices, pendingSend`items, pendingOpen`indices, pendingOpen`items
      ensures Valid({}) && sent == old(sent) && flow == old(flow)
      ensures var s := Requested(key.streamId, window, body, trailers);
              store.slab == old(store.slab)[key.index := s.(refCount := 0)] && Sending(s)
      ensures pendingOpen.items == old(pendingOpen.items) + [key] && pendingSend.items == old(pendingSend.items)
    {
      hide Tracked, Wired, Counted, Held, AbandonedIn, Ledger, Counts.Accurate, StreamOk, Ready, AllOk, BodyOk, Sending;
      QueuesApart();
      ghost var slab := store.slab;
      var _ := SendHeaders(key, body.None? && !trailers, {key.index});
      RequestedIs(key.streamId, window, body, trailers, store.slab[key.index]);
      QueueBodyTrailer(key, body, trailers);
      NoneExcepted(key.index);
      SendingOk(counts.isServer, store.slab[key.index]);
      SendingHandle(store.slab[key.index], 1);
    }

    /** Gives out the next id of ours. */
    method TakeId()
      requires Valid({}) && nextSend.Some? && !counts.isServer
      modifies `nextSend
      ensures Valid({}) && nextSend == NextId(old(nextSend).value) && old(nextSend).value > 0
      ensures Issued(counts.isServer, nextSend, nextRecv, old(nextSend).value)
      ensures FindId(store.ids, old(nextSend).value).None?
    {
      hide Tracked, QueueOk, Counted, Held, AbandonedIn, Ledger, Counts.Accurate, AllOk, FindId;
      assert forall v :: QueueOf(v).which == v && QueueOf(v).Ok(store);
      NotIssued(store.slab, hollow, counts.isServer, nextSend, nextRecv, store.ids, nextSend.value);
      TrackedBump(store.slab, hollow, counts.isServer, nextSend, nextRecv, nextSend.value);
      nextSend := NextId(nextSend.value);
    }

    /** The peer uses an id of its own, or we reset one that is not known. */
    method UseId(id: nat)
      requires Valid({})
      modifies `nextSend, `nextRecv
      ensures Valid({}) && Issued(counts.isServer, nextSend, nextRecv, id)
      ensures nextSend == if IsLocalInit(counts.isServer, id) then Bumped(old(nextSend), id) else old(nextSend)
      ensures nextRecv == if IsLocalInit(counts.isServer, id) then old(nextRecv) else Bumped(old(nextRecv), id)
    {
      hide Tracked, QueueOk, Counted, Held, AbandonedIn, Ledger, Counts.Accurate, AllOk;
      assert forall v :: QueueOf(v).which == v && QueueOf(v).Ok(store);
      TrackedBump(store.slab, hollow, counts.isServer, nextSend, nextRecv, id);
      if IsLocalInit(counts.isServer, id) {
        nextSend := Bumped(nextSend, id);
      } else {
        nextRecv := Bumped(nextRecv, id);
      }
    }

    /** Takes a new stream out again. */
    method Discard(key: Key)
      requires Valid({key.index}) && Resolves(store.slab, key)
      requires var s := store.slab[key.index]; s.queued == {} && !s.isCounted
      modifies store`slab, store`ids
      ensures Valid({}) && store.slab == old(store.slab) - {key.index}
    {
      hide Tracked, QueueOk, Counted, Held, AbandonedIn, IdsOk, Assigned, StreamOk, Ready, FindId;
      ghost var slab := store.slab;
      assert forall v :: QueueOf(v).which == v && QueueOf(v).Ok(store);
      store.Unlink(key);
      CountRemove(slab, counts.isServer, true, key.index);
      CountRemove(slab, counts.isServer, false, key.index);
      HeldRemove(slab, key.index);
      AssignedSplit(slab, key.index);
      TrackedSet(slab, hollow, counts.isServer, nextSend, nextRecv, key.index, slab[key.index]);
      var _ := store.Remove(key);
      forall w
        ensures QueueOf(w).Ok(store)
      {
        RemoveQueue(w, QueueOf(w).items, slab, store.links, key.index);
      }
    }

    /** A server answers; the send half must not have been opened before. */
    method SendResponse(key: Key, body: Option<Bytes>, trailers: bool) returns (ok: bool)
      requires Valid({}) && Resolves(store.slab, key)
      modifies this, Parts()
      ensures Valid({}) && Kept() && flow == old(flow)
      ensures ok == SendOpen(old(store.slab)[key.index].state, body.None? && !trailers).Some?
      ensures clean == old(clean)
      ensures ok ==> Resolves(store.slab, key) && store.slab[key.index].frames == Message(body, trailers)
                     && Sending(store.slab[key.index])
    {
      hide Tracked, Wired, Counted, Held, AbandonedIn, Ledger, Counts.Accurate, StreamOk, Ready, AllOk, BodyOk,
           Settle, Sending, HeadersQueued;
      if store.slab[key.index].state.IsRemoteReset() {
        return false;
      }
      var wasReset := ResetExpire in store.slab[key.index].queued;
      ghost var s := store.slab[key.index];
      ok := SendHeaders(key, body.None? && !trailers, {});
      if ok {
        BodyMayFollow(s, store.slab[key.index], body, trailers);
      }
      NoneExcepted(key.index);
      FlushedStays(store.slab, key.index);
      After(key, wasReset, {});
      if ok {
        QueueBodyTrailer(key, body, trailers);
        NowSending(key.index);
      }
    }

    lemma NowSending(k: nat)
      requires Valid({}) && k in store.slab
      requires var s := store.slab[k]; EndsLast(s.frames) && !WillClear(s.state) && !s.state.IsScheduledReset()
      ensures Sending(store.slab[k])
    {
      hide Tracked, Wired, Ledger, Counts.Accurate, StreamOk, AllOk, Sending;
      NoneExcepted(k);
      SendingOk(counts.isServer, store.slab[k]);
    }

    /**
     HEADERS arrive for a stream that is not past them. A stream that is not known is opened, and counted, if its id
     is one the peer may still use and the limit on its streams allows it. How the message turns out is given.
     */
    method RecvHeaders(id: nat, eos: bool, informational: bool, outcome: HeadersOutcome)
      returns (ok: bool, ghost created: Option<Key>)
      requires Valid({}) && id > 0
      modifies this, Parts()
      ensures Valid({}) && granted == old(granted) && sent == old(sent) && peak == old(peak)
      ensures hollow == old(hollow) && initWindow == old(initWindow) && nextSend == old(nextSend)
      ensures outcome.Accepted? ==> clean == old(clean)
      ensures var known := FindId(old(store.ids), id);
              && (ok <==> known.Some? || (counts.isServer && id % 2 == 1 && MayUse(old(nextRecv), id)))
              && nextRecv == (if known.None? && ok then NextId(id) else old(nextRecv))
              && (created.Some? <==> known.None? && ok && old(counts.CanIncNumRecvStreams()))
              && match known
                 case Some(p) =>
                   var k := old(store.ids)[p].1;
                   && k in old(store.slab)
                   && if Ignores(old(store.slab)[k]) then store.slab == old(store.slab)
                      else ArrivedAt(old(store.slab)[k], store.slab, k, counts.isServer, eos, informational, outcome)
                 case None => created.None? ==> store.slab == old(store.slab)
      ensures created.Some? ==>
                var key := created.value;
                && key.index !in old(store.slab) && key.streamId == id && Resolves(store.slab, key)
                && store.slab[key.index].isCounted
                && counts.numRecv == old(counts.numRecv) + 1 <= counts.maxRecv
                && ArrivedAt(NewStream(id, initWindow), store.slab, key.index, counts.isServer, eos, informational,
                             outcome)
    {
      hide Tracked, Wired, Counted, Held, AbandonedIn, Ledger, Counts.Accurate, StreamOk, Ready, AllOk, FindId,
           Settle, ArrivedAt;
      var key: Key;
      created := None;
      var found := Find(id);
      if found.Some? {
        key := found.value;
        if store.slab[key.index].state.IsLocalError() {
          return true, None;
        }
        if !store.slab[key.index].state.IsRecvHeaders() {
          return true, None;
        }
      } else {
        if !counts.isServer || id % 2 == 0 {
          return false, None;
        }
        if !MayUse(nextRecv, id) {
          return false, None;
        }
        UseId(id);
        if !counts.CanIncNumRecvStreams() {
          return true, None;
        }
        NewOk(counts.isServer, id, initWindow);
        key := Insert(id, NewStream(id, initWindow));
        created := Some(key);
      }
      Dispatch(key, if found.Some? then {} else {key.index}, eos, informational, outcome);
      ok := true;
    }

    /** Opens the receive half, and does with the message what its contents ask for. */
    method Dispatch(key: Key, ghost unopened: set<nat>, eos: bool, informational: bool, outcome: HeadersOutcome)
      requires Valid(unopened) && Resolves(store.slab, key) && unopened <= {key.index}
      requires var s := store.slab[key.index];
               && s.state.IsRecvHeaders()
               && (unopened != {} ==>
                   && s.state.Idle? && !s.isCounted && !IsLocalInit(counts.isServer, s.id)
                   && counts.CanIncNumRecvStreams())
      modifies this, Parts()
      ensures Valid({}) && Kept()
      ensures initWindow == old(initWindow)
      ensures outcome.Accepted? ==> clean == old(clean)
      ensures ArrivedAt(old(store.slab)[key.index], store.slab, key.index, counts.isServer, eos, informational, outcome)
      ensures unopened != {} ==>
                && Resolves(store.slab, key) && store.slab[key.index].isCounted
                && counts.numRecv == old(counts.numRecv) + 1 <= counts.maxRecv
    {
      hide Tracked, Wired, Counted, Held, AbandonedIn, Ledger, Counts.Accurate, StreamOk, Ready, AllOk, FindId,
           Settle, Digested;
      ghost var s := store.slab[key.index];
      var wasReset := ResetExpire in store.slab[key.index].queued;
      var isInitial := OpenRecv(key, unopened, eos, informational);
      Digest(key, isInitial, eos, informational, outcome);
      NoneExcepted(key.index);
      ghost var slab := store.slab;
      SettledDigested(slab, key.index, s, counts.isServer, eos, informational, outcome);
      After(key, wasReset, {});
    }

    /** Does with a message that has arrived what its contents ask for. */
    method Digest(key: Key, isInitial: bool, eos: bool, informational: bool, outcome: HeadersOutcome)
      requires Valid({}) && Resolves(store.slab, key)
      requires isInitial ==> var state := store.slab[key.index].state;
                             SendOpen(state, true).Some? && !SendOpen(state, true).value.IsSendStreaming()
      modifies this, Parts()
      ensures Valid({}) && Resolves(store.slab, key)
      ensures Kept()
      ensures outcome.Accepted? ==> clean == old(clean)
      ensures Digested(old(store.slab)[key.index], store.slab[key.index], counts.isServer && isInitial, outcome)
      ensures counts.numRecv == old(counts.numRecv)
    {
      hide Tracked, Wired, Counted, Held, AbandonedIn, Ledger, Counts.Accurate, StreamOk, Ready, AllOk, FindId,
           FedAll, Moved, AfterReset, Scheduled;
      match outcome {
        case Malformed(reason) =>
          ResetAndHold(key, reason, Library);
        case Oversize =>
          if counts.isServer && isInitial {
            RejectOversize(key);
            EnqueueResetExpiration(key, {});
          } else {
            ResetAndHold(key, PROTOCOL_ERROR, Library);
          }
        case Accepted =>
          if !informational && !(eos && !counts.isServer) {
            QueueMessage(key, eos);
          }
      }
    }

    /** Answers headers that are too large, and leaves a reset to be sent. */
    method RejectOversize(key: Key)
      requires Valid({}) && Resolves(store.slab, key)
      requires var state := store.slab[key.index].state;
               SendOpen(state, true).Some? && !SendOpen(state, true).value.IsSendStreaming()
      modifies this, counts, store
      modifies pendingSend`indices, pendingSend`items, pendingCapacity`indices, pendingCapacity`items
      modifies pendingOpen`indices, pendingOpen`items
      ensures Valid({}) && Resolves(store.slab, key) && unchanged(counts)
      ensures Kept()
      ensures var s, t := old(store.slab)[key.index], store.slab[key.index];
              && t.state.Closed? && t.frames == [Headers(true)] && t.isCounted == s.isCounted
              && (ResetExpire in t.queued <==> ResetExpire in s.queued)
    {
      hide Tracked, Wired, Counted, Held, AbandonedIn, Ledger, Counts.Accurate, StreamOk, Ready, AllOk, FindId, FedAll;
      var _ := SendHeaders(key, true, {});
      ghost var slab := store.slab;
      ScheduleImplicitReset(key, PROTOCOL_ERROR);
      FedStream(slab[key.index := Scheduled(slab[key.index], PROTOCOL_ERROR)], store.slab, key.index);
    }

    /** A stream that the peer has just opened is counted. */
    method OpenRecv(key: Key, ghost unopened: set<nat>, eos: bool, informational: bool) returns (isInitial: bool)
      requires Valid(unopened) && Resolves(store.slab, key) && unopened <= {key.index}
      requires var s := store.slab[key.index];
               && s.state.IsRecvHeaders()
               && (unopened != {} ==>
                   && s.state.Idle? && !s.isCounted && !IsLocalInit(counts.isServer, s.id)
                   && counts.CanIncNumRecvStreams())
      modifies `flow, `sent, counts`numRecv, store`slab
      ensures Valid({}) && Resolves(store.slab, key) && flow == old(flow) && sent == old(sent)
      ensures var s := old(store.slab)[key.index];
              var opening := RecvOpen(s.state, eos, informational);
              && opening.Some? && isInitial == opening.value.1 == (unopened != {})
              && store.slab == old(store.slab)[key.index :=
                                 s.(state := opening.value.0, isCounted := isInitial || s.isCounted)]
              && counts.numRecv == old(counts.numRecv) + if isInitial then 1 else 0
      ensures isInitial ==> var state := store.slab[key.index].state;
                            SendOpen(state, true).Some? && !SendOpen(state, true).value.IsSendStreaming()
    {
      hide Tracked, Wired, Counted, Held, AbandonedIn, Ledger, Counts.Accurate, StreamOk, Ready, AllOk, FindId, Settle;
      var opening := RecvOpen(store.slab[key.index].state, eos, informational);
      RecvOpens(store.slab, counts.isServer, key.index, unopened, eos, informational);
      var (state, initial) := opening.value;
      LedgerRange();
      Commit(key, store.slab[key.index].(state := state), flow, 0, unopened);
      Done(key.index, unopened);
      if initial {
        CountOpened(key);
      }
      return initial;
    }

    method QueueMessage(key: Key, eos: bool)
      requires Valid({}) && Resolves(store.slab, key)
      modifies store`slab, store`links, pendingComplete`indices, pendingComplete`items, pendingAccept`indices,
               pendingAccept`items
      ensures Valid({}) && Resolves(store.slab, key) && MovedOne(old(store.slab)[key.index], store.slab[key.index])
      ensures ResetExpire in store.slab[key.index].queued <==> ResetExpire in old(store.slab)[key.index].queued
    {
      hide Tracked, Wired, Counted, Held, AbandonedIn, Ledger, Counts.Accurate, StreamOk, Ready, AllOk, Moved, MovedOne;
      MovedSame(store.slab);
      MovedFlag(store.slab, store.slab, key.index, Complete, true);
      Push(Complete, key, {});
      MovedKeeps(old(store.slab), store.slab, key.index);
      if eos {
        ghost var slab := store.slab;
        var _ := MoveFromPendingComplete();
        MovedKeeps(slab, store.slab, key.index);
        MovedTwice(old(store.slab)[key.index], slab[key.index], store.slab[key.index]);
      }
    }

    method Find(id: nat) returns (r: Option<Key>)
      requires Valid({})
      ensures r == match FindId(store.ids, id)
                   case None => None
                   case Some(p) => Some(Key(store.ids[p].1, id))
      ensures r.Some? ==> Resolves(store.slab, r.value)
    {
      hide Tracked, QueueOk, Counted, Held, AbandonedIn, Ledger, Counts.Accurate, AllOk;
      r := store.FindMut(id);
    }

    /** Counts a stream that the peer has just opened. */
    method CountOpened(key: Key)
      requires Valid({}) && Resolves(store.slab, key) && counts.CanIncNumRecvStreams()
      requires !store.slab[key.index].isCounted && !IsLocalInit(counts.isServer, key.streamId)
      requires !store.slab[key.index].state.IsScheduledReset()
      modifies counts`numRecv, store`slab
      ensures Valid({}) && store.slab == old(store.slab)[key.index := old(store.slab)[key.index].(isCounted := true)]
      ensures counts.numRecv == old(counts.numRecv) + 1
    {
      hide Tracked, QueueOk, Counted, Held, AbandonedIn, IdsOk, Assigned, StreamOk, Ready;
      ghost var slab := store.slab;
      assert forall v :: QueueOf(v).which == v && QueueOf(v).Ok(store);
      counts.IncNumRecvStreams(store, key);
      ghost var s := store.slab[key.index];
      TrackedSet(slab, hollow, counts.isServer, nextSend, nextRecv, key.index, s);
      CountOk(counts.isServer, slab[key.index]);
      AssignedChange(slab, key.index, s);
      IdsBody(store.ids, slab, key.index, s);
      forall w
        ensures QueueOf(w).Ok(store)
      {
        BodyQueue(w, QueueOf(w).items, slab, store.links, key.index, s);
      }
    }

    // ===== settings =====

    /** The peer changes the initial window of its streams, and with it the window of every open stream. */
    method ApplyRemoteSettings(val: nat) returns (ok: bool)
      requires Valid({}) && val <= MAX_WINDOW
      modifies this, Parts()
      ensures Valid({}) && granted == old(granted) && sent == old(sent) && peak == old(peak)
      ensures initWindow == val && hollow == old(hollow) && nextSend == old(nextSend) && nextRecv == old(nextRecv)
      ensures ok ==> clean == old(clean)
      ensures ok ==> store.ids == old(store.ids)
      ensures ok ==> WindowsMoved(old(store.ids), old(store.slab), store.slab, val - old(initWindow))
      ensures ok && val < old(initWindow) ==>
                GivenBack(old(store.ids), old(store.slab), old(flow), store.slab, flow, old(initWindow) - val)
      ensures ok && val >= old(initWindow) && old(flow) >= 0 ==> flow >= 0
      ensures val > old(initWindow) ==> ok == MayGrow(old(store.ids), old(store.slab), val - old(initWindow))
      ensures ok && val > old(initWindow) ==>
                && Led(old(store.ids), old(store.slab))
                && (store.slab, flow) == Grown(old(store.ids), old(store.slab), old(flow), val - old(initWindow))
      ensures val == old(initWindow) ==> ok && store.slab == old(store.slab) && flow == old(flow)
    {
      hide Tracked, QueueOk, Counted, Held, AbandonedIn, Counts.Accurate, StreamOk, Ready, AllOk, Assigned,
           WindowsMoved, GivenBack, Grown, Led, MayGrow;
      var was := initWindow;
      initWindow := val;
      if val < was {
        ok := ShrinkWindows(was - val);
      } else if val > was {
        ok := GrowWindows(val - was);
      } else {
        MovedNone(store.ids, store.slab);
        ok := true;
      }
    }

    /** Shares that no longer fit a stream's window go back to the connection. */
    method ShrinkWindows(dec: nat) returns (ok: bool)
      requires Valid({}) && dec <= MAX_WINDOW
      modifies this, Parts()
      ensures Valid({}) && Kept()
      ensures clean == old(clean) && store.ids == old(store.ids)
      ensures ok ==> WindowsMoved(old(store.ids), old(store.slab), store.slab, 0 - dec)
      ensures ok ==> GivenBack(old(store.ids), old(store.slab), old(flow), store.slab, flow, dec)
    {
      hide Tracked, Wired, Counts.Accurate, AllOk, Assigned, WindowsMoved, FedAll, Handed, GivenBack, Reclaimed, Wrap;
      ghost var before, flow0 := store.slab, flow;
      var total := LowerWindows(dec);
      if total.None? {
        return false;
      }
      ghost var slab := store.slab;
      WrapAtMost(Reclaimed(store.ids, before, dec));
      if total.value > 0 {
        var credited := RecvConnectionWindowUpdate(total.value, false, {});
        if credited {
          FedWindows(store.ids, before, slab, store.slab, 0 - dec);
        }
      } else {
        HandedSame(slab, flow);
      }
      AllGivenBack(store.ids, before, flow0, slab, store.slab, flow, dec);
      return true;
    }

    /** Lowers every stream's window, and adds up, in 32 bits, what that takes from their shares. */
    method LowerWindows(dec: nat) returns (total: Option<nat>)
      requires Valid({}) && dec <= MAX_WINDOW
      modifies `flow, `sent, store`slab
      ensures Valid({}) && IdsOk(store.ids, old(store.slab)) && sent == old(sent) && flow == old(flow)
      ensures total.Some? ==>
                var back := Reclaimed(store.ids, old(store.slab), dec);
                && total.value == Wrap(back) && Assigned(store.slab) + back == old(Assigned(store.slab))
                && WindowsMoved(store.ids, old(store.slab), store.slab, 0 - dec)
    {
      hide Tracked, QueueOk, Counted, Held, AbandonedIn, Counts.Accurate, StreamOk, Ready, AllOk, Assigned,
           MovedSoFar, WindowsMoved, Reclaimed, Excess, IdsOk, Ledger, Wrap;
      ghost var before := store.slab;
      MovedStart(store.ids, before, 0 - dec);
      ReclaimedStart(store.ids, before, dec);
      WrapSum(0, 0);
      var sum: nat := 0;
      for i := 0 to |store.ids|
        invariant Valid({}) && sent == old(sent) && flow == old(flow)
        invariant IdsOk(store.ids, before) && sum == Wrap(Reclaimed(store.ids[..i], before, dec))
        invariant Assigned(store.slab) + Reclaimed(store.ids[..i], before, dec) == Assigned(before)
        invariant MovedSoFar(store.ids, before, store.slab, 0 - dec, i)
      {
        var key := Key(store.ids[i].1, store.ids[i].0);
        IdsLead(store.ids, store.slab, i);
        MovedNext(store.ids, before, store.slab, 0 - dec, i);
        ReclaimedNext(store.ids, before, dec, i);
        var extra := ShrinkWindow(key, dec);
        if extra.None? {
          return None;
        }
        WrapSum(Reclaimed(store.ids[..i], before, dec), extra.value);
        sum := Wrap(sum + extra.value);
      }
      MovedAll(store.ids, before, store.slab, 0 - dec);
      assert store.ids[..|store.ids|] == store.ids;
      return Some(sum);
    }

    /** Lowers one stream's window, and takes from its share what the window no longer covers. */
    method ShrinkWindow(key: Key, dec: nat) returns (extra: Option<nat>)
      requires Valid({}) && Resolves(store.slab, key) && dec <= MAX_WINDOW
      modifies `flow, `sent, store`slab
      ensures Valid({}) && flow == old(flow) && sent == old(sent)
      ensures extra.Some? ==> Assigned(store.slab) + extra.value == old(Assigned(store.slab))
      ensures key.index in store.slab && store.slab == old(store.slab)[key.index := store.slab[key.index]]
      ensures extra.Some? ==> store.slab[key.index].sendFlow == MovedWindow(old(store.slab)[key.index], 0 - dec)
      ensures extra.Some? ==> extra.value == Excess(old(store.slab)[key.index], dec)
      ensures extra.Some? && store.slab[key.index].connWindow > 0 && !store.slab[key.index].state.IsSendClosed() ==>
                store.slab[key.index].connWindow <= store.slab[key.index].sendFlow
    {
      hide Tracked, Wired, Ledger, Counted, Held, AbandonedIn, Counts.Accurate, StreamOk, Ready, AllOk, Assigned;
      var s := store.slab[key.index];
      SameEntry(store.slab, key.index);
      if s.state.IsSendClosed() {
        return Some(0);
      }
      var window := DecreaseBy(s.sendFlow, dec);
      if window.None? {
        return None;
      }
      WindowOk(store.slab, counts.isServer, key.index, window.value);
      LedgerRange();
      var t := s.(sendFlow := window.value);
      Commit(key, t, flow, 0, {});
      var current := AsSize(window.value);
      if t.connWindow <= current {
        return Some(0);
      }
      var over := t.connWindow - current;
      ShareBounded(key, {});
      ShrinkOk(store.slab, counts.isServer, key.index, current);
      DoubleUpdate(old(store.slab), key.index, t, t.(connWindow := current));
      Commit(key, t.(connWindow := t.connWindow - over), flow, 0, {});
      return Some(over);
    }

    /** The streams get the new part of their windows, and their shares of it, in the order of the store. */
    method GrowWindows(inc: nat) returns (ok: bool)
      requires Valid({}) && inc <= MAX_WINDOW
      modifies this, Parts()
      ensures Valid({}) && Kept()
      ensures ok == MayGrow(old(store.ids), old(store.slab), inc)
      ensures ok ==> clean == old(clean) && store.ids == old(store.ids)
      ensures ok ==> WindowsMoved(old(store.ids), old(store.slab), store.slab, inc)
      ensures ok ==> Led(old(store.ids), old(store.slab))
                     && (store.slab, flow) == Grown(old(store.ids), old(store.slab), old(flow), inc)
      ensures ok && old(flow) >= 0 ==> flow >= 0
    {
      hide Tracked, QueueOk, Counted, Held, AbandonedIn, Ledger, Counts.Accurate, StreamOk, Ready, AllOk, Assigned,
           MovedSoFar, WindowsMoved, TryAssign, Grown, Led;
      ghost var before := store.slab;
      MovedStart(store.ids, before, inc);
      GrownStart(store.ids, before, flow, inc);
      var i := 0;
      var len := |store.ids|;
      while i < len
        invariant i <= len == |store.ids|
        invariant Valid({}) && Kept()
        invariant clean == old(clean) && store.ids == old(store.ids)
        invariant MovedSoFar(store.ids, before, store.slab, inc, i) && MayGrow(store.ids[..i], before, inc)
        invariant Led(store.ids[..i], before)
                  && (store.slab, flow) == Grown(store.ids[..i], before, old(flow), inc)
        invariant old(flow) >= 0 ==> flow >= 0
      {
        var key := Key(store.ids[i].1, store.ids[i].0);
        MovedNext(store.ids, before, store.slab, inc, i);
        GrownNext(store.ids, before, old(flow), inc, i);
        AssignWindow(store.slab[key.index].(sendFlow := store.slab[key.index].sendFlow + inc), flow);
        var fine := RecvStreamWindowUpdate(key, inc);
        if !fine {
          return false;
        }
        i := i + 1;
      }
      MovedAll(store.ids, before, store.slab, inc);
      assert store.ids[..i] == store.ids;
      return true;
    }

    /** The peer changes how many streams we may open; no word of it means no limit but the machine's. */
    method LimitStreams(max: Option<nat>)
      requires Valid({})
      modifies counts`maxSend
      ensures Valid({}) && counts.maxSend == max.GetOr(UNLIMITED)
    {
      hide Tracked, QueueOk, IdsOk, Counted, Held, AbandonedIn, AllOk, Ledger;
      assert forall v :: QueueOf(v).which == v && QueueOf(v).Ok(store);
      counts.ApplyRemoteSettings(max, store.slab);
    }

    /** From here on exactly the streams that are hollow now are known to be. */
    ghost method Tighten()
      requires Valid({})
      modifies `hollow
      ensures Valid({}) && hollow == Hollow(store.slab)
    {
      hide QueueOk, IdsOk, Counted, Held, AbandonedIn, AllOk, Counts.Accurate, Busy, Issued;
      hollow := Hollow(store.slab);
    }

    lemma NoMoreHollow()
      requires Valid({})
      ensures Hollow(store.slab) <= hollow
    {
      hide Busy, Issued;
    }

    // ===== sending =====

    /** Opens the stream that has waited longest, if the peer's limit allows it. */
    method PopPendingOpen() returns (r: Option<Key>)
      requires Valid({})
      modifies counts`numSend, store`slab, store`links, pendingOpen`indices, pendingOpen`items
      ensures r.None? <==> !old(counts.CanIncNumSendStreams()) || old(pendingOpen.items) == []
      ensures r.None? ==> Valid({}) && store.slab == old(store.slab) && counts.numSend == old(counts.numSend)
      ensures r.Some? ==>
                var k := r.value.index;
                && Valid({k}) && Resolves(store.slab, r.value) && k in old(store.slab)
                && r.value == old(pendingOpen.items)[0] && pendingOpen.items == old(pendingOpen.items)[1..]
                && !old(store.slab)[k].isCounted && counts.numSend == old(counts.numSend) + 1 <= counts.maxSend
                && store.slab == old(store.slab)[k := store.slab[k]]
                && store.slab[k] == Flag(old(store.slab), k, Which.Open, false)[k].(isCounted := true)
                && !store.slab[k].state.Idle? && !store.slab[k].state.ReservedRemote?
    {
      hide Tracked, QueueOk, Counted, Held, AbandonedIn, IdsOk, Assigned, StreamOk, Ready;
      if counts.CanIncNumSendStreams() {
        ghost var before := store.slab;
        assert QueueOf(Which.Open) == pendingOpen;
        r := Pop(Which.Open, {});
        if r.Some? {
          WaitingLocal(counts.isServer, before, r.value);
          ghost var slab := store.slab;
          assert forall v :: QueueOf(v).which == v && QueueOf(v).Ok(store);
          counts.IncNumSendStreams(store, r.value);
          ghost var s := store.slab[r.value.index];
          AssignedChange(slab, r.value.index, s);
          TrackedSet(slab, hollow, counts.isServer, nextSend, nextRecv, r.value.index, s);
          IdsBody(store.ids, slab, r.value.index, s);
          forall w
            ensures QueueOf(w).Ok(store)
          {
            BodyQueue(w, QueueOf(w).items, slab, store.links, r.value.index, s);
          }
        }
        return;
      }
      return None;
    }

    /** A stream that is opened goes to the front of the send queue. */
    method PollOpen() returns (r: Option<Key>)
      requires Valid({})
      modifies `hollow, counts`numSend, store`slab, store`links
      modifies pendingOpen`indices, pendingOpen`items, pendingSend`indices, pendingSend`items
      ensures Valid({})
      ensures r.None? <==> !old(counts.CanIncNumSendStreams()) || old(pendingOpen.items) == []
      ensures r.None? ==> store.slab == old(store.slab) && hollow == old(hollow)
      ensures r.Some? ==>
                && r.value == old(pendingOpen.items)[0] && r.value.index in old(store.slab)
                && Resolves(store.slab, r.value) && counts.numSend == old(counts.numSend) + 1 <= counts.maxSend
                && store.slab == old(store.slab)[r.value.index := Opened(old(store.slab)[r.value.index])]
                && hollow == old(hollow) + (if Busy(store.slab[r.value.index]) then {} else {r.value.index})
                && pendingSend.items == if Send in old(store.slab)[r.value.index].queued
                                        then old(pendingSend.items) else [r.value] + old(pendingSend.items)
    {
      hide Tracked, Wired, Counted, Held, AbandonedIn, Ledger, Counts.Accurate, StreamOk, AllOk;
      QueuesApart();
      ghost var slab := store.slab;
      r := PopPendingOpen();
      if r.Some? {
        OpenedIs(slab, r.value.index, store.slab[r.value.index]);
        PushFront(r.value, {r.value.index});
        Done(r.value.index, {r.value.index});
      }
    }

    /** Sends as much of a stream's DATA frame as the windows and the frame limit allow. */
    method PopDataFrame(key: Key, maxFrame: nat) returns (frame: Option<Frame>)
      requires Valid({key.index}) && Resolves(store.slab, key)
      requires var s := store.slab[key.index];
               s.frames != [] && s.frames[0].Data? && !WillClear(s.state) && Send !in s.queued
      modifies `flow, `sent, store`slab, store`links, pendingCapacity`indices, pendingCapacity`items
      ensures Valid({key.index}) && Resolves(store.slab, key)
      ensures var s := old(store.slab)[key.index];
              var rest := s.(frames := s.frames[1..]);
              && CanSendClose(s.state) && s.remaining == Some(|s.frames[0].payload|)
              && var p := PopData(rest, old(flow), maxFrame, s.frames[0].payload, s.frames[0].eos);
                 && frame == p.frame && flow == p.flow && store.slab == old(store.slab)[key.index := p.stream]
                 && sent == old(sent) + Length(frame)
      ensures Send !in store.slab[key.index].queued
    {
      hide Tracked, Wired, Counted, Held, AbandonedIn, Ledger, Counts.Accurate, StreamOk, Ready, Assigned, Share,
           EndBody, SendData, Taken;
      var s := store.slab[key.index];
      var data := s.frames[0];
      var rest := s.(frames := s.frames[1..]);
      LedgerRange();
      DataOk(store.slab, counts.isServer, key.index, flow, maxFrame);
      assert s.frames == [data] + rest.frames;
      SameEntry(store.slab, key.index);
      if data.payload == [] {
        var p := EndBody(rest.(remaining := None), data.payload, data.eos, flow);
        Commit(key, p.stream, p.flow, 0, {key.index});
        return p.frame;
      }
      if AsSize(s.sendFlow) == 0 {
        return None;
      }
      var n := 0;
      if s.connWindow == 0 {
        n := Share(flow, s.sendFlow, |data.payload|);
        if n == 0 {
          Push(Capacity, key, {key.index});
          return None;
        }
      }
      var p := SendData(rest.(connWindow := rest.connWindow + n), flow - n, maxFrame, data.payload, data.eos);
      Commit(key, p.stream, p.flow, Length(p.frame), {key.index});
      return p.frame;
    }

    lemma NoneIdle()
      requires Valid({})
      ensures forall k :: k in store.slab ==> !store.slab[k].state.Idle? && !store.slab[k].state.ReservedRemote?
    {
    }

    /** Takes headers, trailers or a reset off a stream. */
    method PopOtherFrame(key: Key) returns (frame: Frame)
      requires Valid({key.index}) && Resolves(store.slab, key)
      requires var s := store.slab[key.index];
               s.frames != [] && !s.frames[0].Data? && !WillClear(s.state) && Send !in s.queued
      modifies `flow, `sent, store`slab, store`links, pendingSend`indices, pendingSend`items, pendingCapacity`indices,
               pendingCapacity`items
      ensures Valid({key.index}) && Resolves(store.slab, key) && sent == old(sent)
      ensures var s := old(store.slab)[key.index];
              var rest := s.(frames := s.frames[1..]);
              var assign := s.frames[0].Headers? && s.remaining.Some?;
              var (t, flow') := if assign then TryAssign(rest, old(flow)) else (rest, old(flow));
              && frame == s.frames[0] && flow == flow'
              && (s.frames[0].Headers? && s.isSendingTrailer ==> CanSendClose(t.state))
              && store.slab == old(store.slab)[key.index :=
                   if s.frames[0].Headers? && s.isSendingTrailer then t.(state := SendClose(t.state)) else t]
      ensures pendingSend.items == old(pendingSend.items)
                                   + if Send in store.slab[key.index].queued then [key] else []
    {
      hide Tracked, Wired, Counted, Held, AbandonedIn, Ledger, Counts.Accurate, StreamOk, AllOk, Assigned, BodyOk,
           TryAssign, WillClear, Ready;
      LedgerRange();
      ghost var slab, flow0 := store.slab, flow;
      var s := store.slab[key.index];
      HeadersOk(slab, counts.isServer, key.index, flow);
      frame := s.frames[0];
      var t := s.(frames := s.frames[1..]);
      Commit(key, t, flow, 0, {key.index});
      if frame.Headers? {
        if t.remaining.Some? {
          AssignResets(t, flow);
          TryAssignCapacity(key, {key.index});
          LedgerRange();
        }
        if t.isSendingTrailer {
          OneOk(key.index, {key.index});
          var u := store.slab[key.index];
          Commit(key, u.(state := SendClose(u.state)), flow, 0, {key.index});
        }
      }
    }

    lemma OneOk(k: nat, except: set<nat>)
      requires Valid(except) && k in store.slab
      ensures StreamOk(counts.isServer, store.slab[k])
    {
    }

    /** Sends the reset that has been left to be sent. */
    method PopReset(key: Key) returns (frame: Option<Frame>)
      requires Valid({key.index}) && Resolves(store.slab, key)
      requires store.slab[key.index].frames == [] && store.slab[key.index].state.IsScheduledReset()
      modifies `flow, `sent, store`slab
      ensures Valid({key.index}) && sent == old(sent) && flow == old(flow)
      ensures var s := old(store.slab)[key.index];
              && frame == Some(RstStream(s.state.cause.reason))
              && store.slab == old(store.slab)[key.index :=
                                 s.(state := Closed(Failed(ResetError(s.state.cause.reason, Library))))]
    {
      hide Tracked, Wired, Counted, Held, AbandonedIn, Ledger, Counts.Accurate, StreamOk, AllOk, Assigned, BodyOk,
           WillClear, Ready;
      LedgerRange();
      ResetSentOk(store.slab, counts.isServer, key.index);
      var s := store.slab[key.index];
      frame := Some(RstStream(s.state.cause.reason));
      Commit(key, s.(state := Closed(Failed(ResetError(s.state.cause.reason, Library)))), flow, 0, {key.index});
    }

    /** Takes the first frame of a stream, after throwing away what will not be sent. */
    method PopFirst(key: Key, maxFrame: nat) returns (frame: Option<Frame>)
      requires Valid({key.index}) && Resolves(store.slab, key) && Send !in store.slab[key.index].queued
      modifies `flow, `sent, store`slab, store`links, pendingSend`indices, pendingSend`items, pendingCapacity`indices,
               pendingCapacity`items
      ensures Valid({key.index}) && Resolves(store.slab, key) && sent == old(sent) + Length(frame)
      ensures frame.None? ==> unchanged(pendingSend)
      ensures BodyOk(old(store.slab)[key.index])
      ensures var p := PopHead(old(store.slab)[key.index], old(flow), maxFrame);
              frame == p.frame && flow == p.flow && store.slab == old(store.slab)[key.index := p.stream]
      ensures pendingSend.items == old(pendingSend.items)
                                   + if Send in store.slab[key.index].queued then [key] else []
    {
      hide Tracked, Wired, Counted, Held, AbandonedIn, Ledger, Counts.Accurate, StreamOk, AllOk, Assigned, BodyOk,
           PopData, TryAssign, WillClear, Ready;
      ghost var k, slab := key.index, store.slab;
      QueuesApart();
      LedgerRange();
      ClearedOk(slab, counts.isServer, k);
      SameEntry(slab, k);
      if WillClear(store.slab[key.index].state) {
        Commit(key, store.slab[key.index].(frames := [], remaining := None), flow, 0, {k});
      }
      var s := store.slab[key.index];
      assert s == Cleared(slab[k]) && store.slab == slab[k := s];
      if s.frames == [] {
        if !s.state.IsScheduledReset() {
          return None;
        }
        frame := PopReset(key);
      } else if s.frames[0].Data? {
        frame := PopDataFrame(key, maxFrame);
        QueuesApart();
      } else {
        var other := PopOtherFrame(key);
        frame := Some(other);
      }
    }

    /**
     Takes the first frame of a stream just taken off the send queue, and puts the stream back if it has more. One
     that has none should be closed: `bare` says where the source's assertion that it is fails.
     */
    method PopStream(key: Key, maxFrame: nat) returns (frame: Option<Frame>, ghost bare: bool)
      requires Valid({key.index}) && Resolves(store.slab, key) && Send !in store.slab[key.index].queued
      requires !store.slab[key.index].state.Idle? && !store.slab[key.index].state.ReservedRemote?
      modifies `flow, `sent, counts, store, pendingSend`indices, pendingSend`items, pendingCapacity`indices,
               pendingCapacity`items
      ensures Valid({}) && Beside(key.index, old(store.slab), store.slab)
      ensures frame.None? ==> flow == old(flow) && sent == old(sent) && unchanged(pendingSend)
                              && OnlyAt(key.index, old(store.slab), store.slab)
      ensures var s := old(store.slab)[key.index];
              && BodyOk(s) && frame == PopHead(s, old(flow), maxFrame).frame
              && (bare <==> s.frames == [] && !s.state.Closed?) && (bare ==> frame.None?)
              && (frame.Some? ==> flow == PopHead(s, old(flow), maxFrame).flow)
      ensures frame.Some? ==> sent == old(sent) + Length(frame)
                              && Sent(old(store.slab)[key.index], old(flow), maxFrame, frame.value,
                                 Lookup(store.slab, key.index))
      ensures key.index in store.slab ==> Busy(store.slab[key.index])
      ensures pendingSend.items == old(pendingSend.items)
                                   + if SendsOn(Lookup(store.slab, key.index)) then [key] else []
    {
      hide Tracked, Wired, Counted, Held, AbandonedIn, Ledger, Counts.Accurate, StreamOk, AllOk, Assigned, BodyOk,
           PopHead, Settle, Sent, OnlyAt, Beside, Busy;
      ghost var k, slab, flow0 := key.index, store.slab, flow;
      var wasReset := ResetExpire in store.slab[key.index].queued;
      frame := PopFirst(key, maxFrame);
      ghost var p := PopHead(slab[k], flow0, maxFrame);
      PopFlags(slab[k], flow0, maxFrame);
      BareNow(slab[k], flow0, maxFrame);
      BesideSet(slab, k, p.stream);
      if frame.None? {
        NotSent(slab, k, flow0, maxFrame);
        Done(k, {k});
        bare := store.slab[key.index].frames == [] && !store.slab[key.index].state.Closed?;
        if store.slab[key.index].frames == [] {
          NoneExcepted(k);
          SettledSends(store.slab, k);
          After(key, wasReset, {});
        }
        return;
      }
      bare := false;
      var t := store.slab[key.index];
      if t.frames != [] || t.state.IsScheduledReset() {
        Push(Send, key, {k});
      }
      SentNow(slab, k, flow0, maxFrame);
      assert store.slab == slab[k := Requeued(p.stream)];
      BesideSet(slab, k, Requeued(p.stream));
      RequeuedReady(slab[k], flow0, maxFrame);
      Done(k, {k});
      NoneExcepted(k);
      SettledSends(store.slab, k);
      After(key, wasReset, {});
    }

    /**
     Takes the next frame to be sent, if any stream has one it may send: takes streams off the send queue, `n` in all,
     until one of them has. `bare` are the streams among them at which the source's assertion fails.
     */
    method PopFrame(maxFrame: nat) returns (r: Option<(Key, Frame)>, ghost n: nat, ghost bare: set<nat>)
      requires Valid({})
      modifies this, Parts()
      ensures Valid({}) && granted == old(granted) && peak == old(peak) && clean == old(clean)
      ensures initWindow == old(initWindow) && hollow == old(hollow)
      ensures nextSend == old(nextSend) && nextRecv == old(nextRecv)
      ensures bare == old(Hollow(store.slab)) - Hollow(store.slab) && Hollow(store.slab) <= old(Hollow(store.slab))
      ensures Tried(old(pendingSend.items), n, old(store.slab), old(flow), maxFrame)
      ensures r.None? ==> sent == old(sent) && flow == old(flow) && n == |old(pendingSend.items)|
                          && pendingSend.items == []
      ensures r.Some? ==>
                var k := r.value.0.index;
                && n < |old(pendingSend.items)| && r.value.0 == old(pendingSend.items)[n]
                && k in old(store.slab) && old(store.slab)[k].id == r.value.0.streamId
                && Send in old(store.slab)[k].queued
                && sent == old(sent) + Length(Some(r.value.1))
                && Sent(old(store.slab)[k], old(flow), maxFrame, r.value.1, Lookup(store.slab, k))
                && flow == PopHead(Unqueued(old(store.slab)[k]), old(flow), maxFrame).flow
                && pendingSend.items == old(pendingSend.items)[n + 1..]
                                        + if SendsOn(Lookup(store.slab, k)) then [r.value.0] else []
      ensures Others(old(pendingSend.items), if r.Some? then n + 1 else n, old(store.slab), store.slab)
    {
      hide Tracked, Wired, Counted, Held, AbandonedIn, Ledger, Counts.Accurate, StreamOk, Ready, AllOk, Assigned,
           Settle, Sent, OnlyAt, Beside, Others, Tried, PopHead, Busy, Hollow, BodyOk, Members;
      ghost var items, before, flow0 := pendingSend.items, store.slab, flow;
      n, bare := 0, {};
      SendStart(flow, maxFrame);
      assert items[0..] == items;
      while true
        invariant Valid({}) && granted == old(granted) && peak == old(peak) && clean == old(clean)
        invariant initWindow == old(initWindow) && hollow == old(hollow)
        invariant nextSend == old(nextSend) && nextRecv == old(nextRecv)
        invariant sent == old(sent) && flow == flow0
        invariant n <= |items| && pendingSend.items == items[n..]
        invariant Members(Send, items, before) && Others(items, n, before, store.slab)
        invariant Tried(items, n, before, flow0, maxFrame)
        invariant bare == Hollow(before) - Hollow(store.slab) && Hollow(store.slab) <= Hollow(before)
        decreases |pendingSend.items|
      {
        ghost var slab := store.slab;
        NoneIdle();
        var popped := Pop(Send, {});
        if popped.None? {
          return None, n, bare;
        }
        var key := popped.value;
        SendNext(items, before, slab, n);
        assert {} + {key.index} == {key.index};
        var frame;
        ghost var isBare;
        frame, isBare := PopStream(key, maxFrame);
        HollowStep(slab, key.index, store.slab);
        OthersNext(items, before, slab, store.slab, n);
        if frame.Some? {
          assert Hollow(store.slab) == Hollow(slab);
          SentBefore(slab[key.index], flow0, maxFrame, frame.value, Lookup(store.slab, key.index));
          return Some((key, frame.value)), n, bare;
        }
        TriedNext(items, n, before, flow0, maxFrame);
        bare := bare + if isBare then {key.index} else {};
        n := n + 1;
      }
    }

    lemma SendStart(flow: int, maxFrame: nat)
      requires Wired()
      ensures var items := pendingSend.items;
              && Members(Send, items, store.slab) && Others(items, 0, store.slab, store.slab)
              && Tried(items, 0, store.slab, flow, maxFrame)
    {
      hide PopHead, BodyOk;
      assert QueueOf(Send).which == Send && QueueOf(Send).Ok(store);
    }

    /** A frame for a stream that is not known is answered with a reset, which opens the stream only to close it. */
    method ResetUnknown(id: nat, reason: nat) returns (key: Key)
      requires Valid({}) && FindId(store.ids, id).None? && id > 0
      modifies this, Parts()
      ensures Valid({}) && granted == old(granted) && sent == old(sent) && peak == old(peak)
      ensures hollow == old(hollow) && initWindow == old(initWindow)
      ensures nextSend == if IsLocalInit(counts.isServer, id) then Bumped(old(nextSend), id) else old(nextSend)
      ensures nextRecv == if IsLocalInit(counts.isServer, id) then old(nextRecv) else Bumped(old(nextRecv), id)
      ensures key.index !in old(store.slab) && key.streamId == id && Resolves(store.slab, key)
      ensures var s := store.slab[key.index];
              && s.state == Closed(Failed(ResetError(reason, Library))) && s.frames == [RstStream(reason)]
              && Send in s.queued && !s.isCounted
    {
      hide Tracked, Wired, Counted, Held, AbandonedIn, AllOk, Ledger, Counts.Accurate, Settle, StreamOk, Ready, FindId;
      UseId(id);
      NewOk(counts.isServer, id, 0);
      key := Insert(id, NewStream(id, 0));
      ReplaceQueue(key, Closed(Failed(ResetError(reason, Library))), reason, {key.index});
      EnqueueResetExpiration(key, {});
      NoneExcepted(key.index);
      Queued(key.index);
      FlushedStays(store.slab, key.index);
      After(key, false, {});
    }

    lemma Queued(k: nat)
      requires Valid({}) && k in store.slab
      ensures ResetQueued(store.slab[k])
    {
    }

    /** Held streams whose time is up are let go, oldest first, until the first whose time is not up. */
    method ClearExpiredResetStreams(expired: Stream -> bool) returns (ghost n: nat)
      requires Valid({})
      modifies this, Parts()
      ensures Valid({}) && Kept()
      ensures clean == old(clean)
      ensures var items := old(pendingResetExpired.items);
              && n <= |items| && pendingResetExpired.items == items[n..]
              && (forall i :: 0 <= i < |items| ==> items[i].index in old(store.slab))
              && (forall i :: 0 <= i < n ==> expired(old(store.slab)[items[i].index]))
              && (n < |items| ==> !expired(old(store.slab)[items[n].index]))
    {
      hide Tracked, Wired, Counted, Held, AbandonedIn, AllOk, Ledger, Counts.Accurate, Settle, StreamOk, Ready,
           Untouched;
      ghost var items, before := pendingResetExpired.items, store.slab;
      n := 0;
      ExpireStart();
      assert items[0..] == items;
      while true
        invariant Valid({}) && Kept()
        invariant clean == old(clean)
        invariant n <= |items| && pendingResetExpired.items == items[n..] && Untouched(items, before, store.slab, n)
        invariant forall i :: 0 <= i < |items| ==> items[i].index in before
        invariant forall i :: 0 <= i < n ==> expired(before[items[i].index])
        decreases |pendingResetExpired.items|
      {
        ghost var slab := store.slab;
        var popped := PopIf(ResetExpire, expired);
        ExpireNext(items, before, slab, n);
        if popped.None? {
          return;
        }
        Queued(popped.value.index);
        After(popped.value, true, {});
        n := n + 1;
      }
    }

    lemma ExpireStart()
      requires Wired()
      ensures Untouched(pendingResetExpired.items, store.slab, store.slab, 0)
      ensures forall i :: 0 <= i < |pendingResetExpired.items| ==> pendingResetExpired.items[i].index in store.slab
    {
      assert QueueOf(ResetExpire).which == ResetExpire && QueueOf(ResetExpire).Ok(store);
    }
  }

  /** The streams from position `n` on are as they were. */
  ghost predicate Untouched(items: seq<Key>, before: Slab, slab: Slab, n: nat) {
    && NoRepeats(items)
    && forall i :: n <= i < |items| ==>
         items[i].index in before && items[i].index in slab && slab[items[i].index] == before[items[i].index]
  }

  lemma ExpireNext(items: seq<Key>, before: Slab, slab: Slab, n: nat)
    requires Untouched(items, before, slab, n)
    ensures n < |items| ==>
              var k := items[n].index;
              && k in slab && k in before && slab[k] == before[k] && items[n..][1..] == items[n + 1..]
              && Untouched(items, before, Settle(Flag(slab, k, ResetExpire, false), k), n + 1)
  {
    assert n < |items| ==> forall i :: n < i < |items| ==> items[i].index != items[n].index;
  }

  // ===== sending =====

  function Lookup(slab: Slab, k: nat): Option<Stream> {
    if k in slab then Some(slab[k]) else None
  }

  /** The stream is still there, and waits for its next turn to send. */
  predicate SendsOn(s: Option<Stream>) {
    s.Some? && Send in s.value.queued
  }

  lemma SettledSends(slab: Slab, k: nat)
    requires k in slab
    ensures SendsOn(Lookup(Settle(slab, k), k)) <==> Send in slab[k].queued
  {
  }

  /** Nothing but stream `k` has changed, and that is not queued to be sent. */
  ghost predicate OnlyAt(k: nat, slab: Slab, slab': Slab) {
    && (forall j :: j != k ==> Lookup(slab', j) == Lookup(slab, j))
    && (k in slab' ==> Send !in slab'[k].queued)
  }

  /** No other stream has changed. */
  ghost predicate Beside(k: nat, slab: Slab, slab': Slab) {
    forall j :: j != k ==> Lookup(slab', j) == Lookup(slab, j)
  }

  /** No stream but the first `n` has changed. */
  ghost predicate Others(items: seq<Key>, n: nat, before: Slab, slab: Slab) {
    && n <= |items|
    && forall k :: (forall i :: 0 <= i < n ==> items[i].index != k) ==> Lookup(slab, k) == Lookup(before, k)
  }

  function Unqueued(s: Stream): Stream {
    s.(queued := s.queued - {Send})
  }

  /** The first `n` streams have nothing that they may send. */
  ghost predicate Tried(items: seq<Key>, n: nat, slab: Slab, flow: int, maxFrame: nat) {
    n <= |items|
    && forall i :: 0 <= i < n ==>
         && items[i].index in slab && BodyOk(Unqueued(slab[items[i].index]))
         && PopHead(Unqueued(slab[items[i].index]), flow, maxFrame).frame.None?
  }

  lemma TriedNext(items: seq<Key>, n: nat, slab: Slab, flow: int, maxFrame: nat)
    requires Tried(items, n, slab, flow, maxFrame) && n < |items| && items[n].index in slab
    requires BodyOk(Unqueued(slab[items[n].index]))
    requires PopHead(Unqueued(slab[items[n].index]), flow, maxFrame).frame.None?
    ensures Tried(items, n + 1, slab, flow, maxFrame)
  {
    hide PopHead, BodyOk;
  }

  /** The next stream on the send queue is as it was. */
  lemma SendNext(items: seq<Key>, before: Slab, slab: Slab, n: nat)
    requires Members(Send, items, before) && Others(items, n, before, slab)
    ensures n < |items| ==>
              var k := items[n].index;
              && k in before && k in slab && slab[k] == before[k] && before[k].id == items[n].streamId
              && Send in before[k].queued && items[n..][1..] == items[n + 1..]
              && Flag(slab, k, Send, false)[k] == Unqueued(before[k])
  {
    if n < |items| {
      var k := items[n].index;
      assert forall i :: 0 <= i < n ==> items[i].index != k;
      assert Lookup(slab, k) == Lookup(before, k);
    }
  }

  lemma OthersNext(items: seq<Key>, before: Slab, slab: Slab, slab': Slab, n: nat)
    requires Others(items, n, before, slab) && n < |items| && items[n].index in slab
    requires Beside(items[n].index, Flag(slab, items[n].index, Send, false), slab')
    ensures Others(items, n + 1, before, slab')
  {
    forall k | forall i :: 0 <= i < n + 1 ==> items[i].index != k
      ensures Lookup(slab', k) == Lookup(before, k)
    {
      assert items[n].index != k;
      assert Lookup(slab', k) == Lookup(Flag(slab, items[n].index, Send, false), k) == Lookup(slab, k);
    }
  }

  /** A stream taken off the send queue is hollow no more, and no other one becomes so. */
  lemma HollowStep(slab: Slab, k: nat, slab': Slab)
    requires k in slab && Send in slab[k].queued
    requires Beside(k, Flag(slab, k, Send, false), slab') && (k in slab' ==> Busy(slab'[k]))
    ensures Hollow(slab') == Hollow(slab) - {k}
    ensures k in Hollow(slab) <==> slab[k].frames == [] && !slab[k].state.Closed?
  {
    forall j | j != k
      ensures j in Hollow(slab') <==> j in Hollow(slab)
    {
      assert Lookup(slab', j) == Lookup(Flag(slab, k, Send, false), j) == Lookup(slab, j);
    }
  }

  lemma BesideSet(slab: Slab, k: nat, s: Stream)
    requires k in slab
    ensures Beside(k, slab, slab[k := s]) && Beside(k, slab, Settle(slab[k := s], k))
    ensures Busy(s) && k in Settle(slab[k := s], k) ==> Busy(Settle(slab[k := s], k)[k])
  {
  }

  /** A stream without frames that is open has none to give, and one that has been taken is not put back empty. */
  lemma BareNow(s: Stream, flow: int, maxFrame: nat)
    requires BodyOk(s) && Send !in s.queued
    ensures var p := PopHead(s, flow, maxFrame);
            && (p.frame.None? ==>
                  && (p.stream.frames == [] && !p.stream.state.Closed? <==> s.frames == [] && !s.state.Closed?)
                  && Busy(p.stream))
            && (p.frame.Some? ==> (s.frames != [] || s.state.Closed?) && Busy(Requeued(p.stream)))
  {
    hide Share, DataLength, Shaped, SendData, EndBody;
    ClearedKeeps(s);
    var c := Cleared(s);
    if c.frames != [] {
      if c.frames[0].Data? {
        BodyFirst(c);
      } else {
        HeadersKeep(c, flow);
        if c.remaining.Some? {
          BodyFrames(c.(frames := c.frames[1..]));
        }
      }
    }
  }

  lemma BodyFrames(s: Stream)
    requires BodyOk(s) && s.remaining.Some?
    ensures s.frames != []
  {
  }

  /** A stream with more to send goes back to the send queue. */
  function Requeued(s: Stream): Stream {
    if s.frames != [] || s.state.IsScheduledReset() then s.(queued := s.queued + {Send}) else s
  }

  /** `frame` is what stream `s` sends next, and `after` is what is left of the stream. */
  ghost predicate Sent(s: Stream, flow: int, maxFrame: nat, frame: Frame, after: Option<Stream>) {
    var s := s.(queued := s.queued - {Send});
    && BodyOk(s)
    && var p := PopHead(s, flow, maxFrame);
       var t := Settled(Requeued(p.stream));
       p.frame == Some(frame) && after == if t.IsReleased() then None else Some(t)
  }

  lemma ClearedOk(slab: Slab, isServer: bool, k: nat)
    requires k in slab && AllOk(slab, isServer, {k})
    ensures BodyOk(slab[k]) && StreamOk(isServer, Cleared(slab[k]))
    ensures Cleared(slab[k]).frames != [] ==> !WillClear(Cleared(slab[k]).state)
  {
    hide BodyOk, WillClear;
    ClearedKeeps(slab[k]);
  }

  lemma ResetSentOk(slab: Slab, isServer: bool, k: nat)
    requires k in slab && AllOk(slab, isServer, {k}) && slab[k].frames == [] && slab[k].state.IsScheduledReset()
    ensures StreamOk(isServer, slab[k].(state := Closed(Failed(ResetError(slab[k].state.cause.reason, Library)))))
  {
    hide BodyOk;
    ResetKeeps(slab[k]);
  }

  lemma HeadersOk(slab: Slab, isServer: bool, k: nat, flow: int)
    requires k in slab && AllOk(slab, isServer, {k}) && slab[k].frames != [] && !slab[k].frames[0].Data?
    requires !WillClear(slab[k].state)
    ensures var s := slab[k];
            var rest := s.(frames := s.frames[1..]);
            var t := if s.remaining.Some? then TryAssign(rest, flow).0 else rest;
            && StreamOk(isServer, rest)
            && (s.frames[0].Headers? && s.isSendingTrailer ==>
                  && CanSendClose(t.state)
                  && (StreamOk(isServer, t) ==> StreamOk(isServer, t.(state := SendClose(t.state)))))
  {
    hide BodyOk, TryAssign, Share, WillClear;
    HeadersKeep(slab[k], flow);
    AssignResets(slab[k].(frames := slab[k].frames[1..]), flow);
    SendCloseOk(slab[k].state);
  }

  lemma SendCloseOk(s: State)
    ensures CanSendClose(s) ==> !SendClose(s).IsSendAwaiting()
  {
  }

  lemma PopDataSame(s: Stream, flow: int, maxFrame: nat, payload: Bytes, eos: bool)
    requires s.state.IsSendStreaming() && s.remaining == Some(|payload|)
    requires IsI32(flow) && IsI32(s.sendFlow) && s.connWindow < U32
    ensures var p := PopData(s, flow, maxFrame, payload, eos);
            && p.stream.id == s.id && p.stream.isCounted == s.isCounted
            && (p.frame.Some? ==> p.stream.queued == s.queued)
            && (Which.Open in p.stream.queued <==> Which.Open in s.queued)
            && IsI32(p.flow) && IsI32(p.stream.sendFlow) && p.stream.connWindow < U32
            && !p.stream.state.IsSendAwaiting()
  {
    hide SendData, EndBody, Share;
    PopDataSpends(s, flow, maxFrame, payload, eos);
  }

  lemma DataOk(slab: Slab, isServer: bool, k: nat, flow: int, maxFrame: nat)
    requires k in slab && AllOk(slab, isServer, {k}) && IsI32(flow)
    requires slab[k].frames != [] && slab[k].frames[0].Data? && !WillClear(slab[k].state)
    ensures var s := slab[k];
            var rest := s.(frames := s.frames[1..]);
            var data := s.frames[0];
            && CanSendClose(s.state) && s.remaining == Some(|data.payload|)
            && var p := PopData(rest, flow, maxFrame, data.payload, data.eos);
               && StreamOk(isServer, p.stream) && Spends(rest, flow, p) && IsI32(p.flow)
               && p.stream.id == s.id && p.stream.isCounted == s.isCounted
               && (p.frame.Some? ==> p.stream.queued == s.queued)
  {
    hide BodyOk, Taken, WillClear, Share, PopData, Spends;
    TakeBody(slab[k]);
    PopDataSame(slab[k].(frames := slab[k].frames[1..]), flow, maxFrame, slab[k].frames[0].payload,
      slab[k].frames[0].eos);
    BodyFirst(slab[k]);
    var rest := slab[k].(frames := slab[k].frames[1..]);
    PopDataKeeps(rest, flow, maxFrame, slab[k].frames[0].payload, slab[k].frames[0].eos);
    PopDataSpends(rest, flow, maxFrame, slab[k].frames[0].payload, slab[k].frames[0].eos);
  }

  lemma Unscheduled(s: Stream)
    requires !s.state.IsScheduledReset()
    ensures ResetQueued(s)
  {
  }

  lemma SettleOnlyAt(slab: Slab, k: nat, s: Stream)
    requires k in slab && Send !in s.queued
    ensures OnlyAt(k, slab, Settle(slab[k := s], k))
  {
  }

  lemma ParkedReady(s: Stream, flow: int, maxFrame: nat)
    requires BodyOk(s) && s.frames != [] && s.frames[0].Data? && !WillClear(s.state)
    requires CanSendClose(s.state) && s.remaining == Some(|s.frames[0].payload|)
    ensures var p := PopData(s.(frames := s.frames[1..]), flow, maxFrame, s.frames[0].payload, s.frames[0].eos);
            p.frame.None? ==> Ready(p.stream) && (Send in p.stream.queued ==> Send in s.queued) && p.flow == flow
  {
    hide SendData, EndBody, Shaped, Share;
    BodyFirst(s);
  }

  lemma PopFlags(s: Stream, flow: int, maxFrame: nat)
    requires BodyOk(s)
    ensures ResetExpire in PopHead(s, flow, maxFrame).stream.queued <==> ResetExpire in s.queued
  {
    hide Shaped, EndBody, SendData, Share, WillClear;
  }

  /** A stream that sends nothing has nothing, or waits for capacity. */
  lemma NotSent(slab: Slab, k: nat, flow: int, maxFrame: nat)
    requires k in slab && BodyOk(slab[k]) && PopHead(slab[k], flow, maxFrame).frame.None? && Send !in slab[k].queued
    requires !slab[k].state.Idle? && !slab[k].state.ReservedRemote?
    ensures var p := PopHead(slab[k], flow, maxFrame);
            && p.flow == flow && Ready(p.stream) && OnlyAt(k, slab, slab[k := p.stream])
            && OnlyAt(k, slab, Settle(slab[k := p.stream], k))
  {
    hide PopData, WillClear, BodyOk, Settle;
    ClearedKeeps(slab[k]);
    var s := Cleared(slab[k]);
    if s.frames == [] {
      Unscheduled(s);
    } else {
      BodyFirst(s);
      ParkedReady(s, flow, maxFrame);
    }
    SettleOnlyAt(slab, k, PopHead(slab[k], flow, maxFrame).stream);
  }

  /** What `Sent` says, from what has been done to the stream. */
  lemma SentNow(slab: Slab, k: nat, flow: int, maxFrame: nat)
    requires k in slab && BodyOk(slab[k]) && Send !in slab[k].queued
    ensures var p := PopHead(slab[k], flow, maxFrame);
            var slab' := slab[k := p.stream];
            && (p.stream.frames != [] || p.stream.state.IsScheduledReset() ==>
               Flag(slab', k, Send, true) == slab[k := Requeued(p.stream)])
            && (p.frame.Some? ==>
                  Sent(slab[k], flow, maxFrame, p.frame.value, Lookup(Settle(slab[k := Requeued(p.stream)], k), k)))
  {
    hide BodyOk, PopHead;
    assert slab[k].queued - {Send} == slab[k].queued;
    assert slab[k].(queued := slab[k].queued - {Send}) == slab[k];
  }

  lemma SentBefore(s: Stream, flow: int, maxFrame: nat, frame: Frame, after: Option<Stream>)
    requires Sent(s.(queued := s.queued - {Send}), flow, maxFrame, frame, after)
    ensures Sent(s, flow, maxFrame, frame, after)
  {
    hide BodyOk, PopHead;
    assert s.queued - {Send} - {Send} == s.queued - {Send};
  }

  lemma RequeuedReady(s: Stream, flow: int, maxFrame: nat)
    requires BodyOk(s) && !s.state.Idle? && !s.state.ReservedRemote?
    ensures Ready(Requeued(PopHead(s, flow, maxFrame).stream))
  {
    hide Shaped, EndBody, SendData, TryAssign, Share, WillClear;
    var c := Cleared(s);
    if c.frames != [] && c.frames[0].Headers? {
      AssignResets(c.(frames := c.frames[1..]), flow);
    }
  }

  // ===== settings =====

  /** The window of a stream after the initial window has changed by `d`. */
  function MovedWindow(s: Stream, d: int): int {
    if s.state.IsSendClosed() then s.sendFlow else s.sendFlow + d
  }

  /** Section 6.9.2 of RFC 7540: every open stream's window has moved by the difference. */
  ghost predicate WindowsMoved(ids: Ids, before: Slab, slab: Slab, d: int) {
    forall x :: x in ids ==> x.1 in before && x.1 in slab && slab[x.1].sendFlow == MovedWindow(before[x.1], d)
  }

  /** What of its share a stream cannot keep once its window is `dec` lower. */
  ghost function Excess(s: Stream, dec: nat): nat {
    if s.state.IsSendClosed() || s.connWindow <= AsSize(s.sendFlow - dec) then 0
    else s.connWindow - AsSize(s.sendFlow - dec)
  }

  /** What lowering the windows of these streams by `dec` takes from their shares. */
  ghost function Reclaimed(ids: Ids, slab: Slab, dec: nat): nat
    requires forall i :: 0 <= i < |ids| ==> ids[i].1 in slab
  {
    if ids == [] then 0
    else Reclaimed(ids[..|ids| - 1], slab, dec) + Excess(slab[ids[|ids| - 1].1], dec)
  }

  lemma ReclaimedStart(ids: Ids, slab: Slab, dec: nat)
    requires IdsOk(ids, slab)
    ensures Reclaimed(ids[..0], slab, dec) == 0
  {
  }

  lemma ReclaimedNext(ids: Ids, slab: Slab, dec: nat, i: nat)
    requires IdsOk(ids, slab) && i < |ids|
    ensures Reclaimed(ids[..i + 1], slab, dec) == Reclaimed(ids[..i], slab, dec) + Excess(slab[ids[i].1], dec)
  {
    assert ids[..i + 1][..i] == ids[..i];
  }

  lemma IdsLead(ids: Ids, slab: Slab, i: nat)
    requires IdsOk(ids, slab) && i < |ids|
    ensures Resolves(slab, Key(ids[i].1, ids[i].0))
  {
  }

  lemma WrapSum(a: nat, b: nat)
    ensures Wrap(Wrap(a) + b) == Wrap(a + b)
    ensures Wrap(0) == 0
  {
  }

  lemma WrapAtMost(v: nat)
    ensures Wrap(v) <= v && Wrap(v) < U32 && (v < U32 ==> Wrap(v) == v)
  {
  }

  /**
   What the shares have lost is credited to the connection's window, in 32 bits. A window that was not negative is
   not negative afterwards exactly if the credit is at most half the range, or goes all the way round; and nothing
   gets lost if window and credit together are no more than a window can hold.
   */
  ghost predicate GivenBack(ids: Ids, before: Slab, flow: int, slab: Slab, flow': int, dec: nat) {
    && IdsOk(ids, before)
    && var back := Reclaimed(ids, before, dec);
    && (flow >= 0 ==> (flow' >= 0 <==> Wrap(back) <= MAX_WINDOW || flow + Wrap(back) >= U32))
    && (AsSize(flow) + back <= MAX_WINDOW && AsSize(flow) + Assigned(before) < U32 ==>
          flow' + Assigned(slab) == flow + Assigned(before))
  }

  lemma AllGivenBack(ids: Ids, before: Slab, flow: int, mid: Slab, slab: Slab, flow': int, dec: nat)
    requires IdsOk(ids, before) && Assigned(mid) + Reclaimed(ids, before, dec) == Assigned(before)
    requires IsI32(flow)
    requires var total := Wrap(Reclaimed(ids, before, dec));
             if total == 0 then flow' == flow && slab == mid
             else match IncreaseBy(flow, total)
                  case None => flow' == flow && slab == mid
                  case Some(credited) => Handed(mid, credited, slab, flow')
    ensures GivenBack(ids, before, flow, slab, flow', dec)
  {
    hide Assigned, Reclaimed, Wrap;
    var back := Reclaimed(ids, before, dec);
    WrapAtMost(back);
    if flow >= 0 {
      CreditSign(flow, Wrap(back));
    }
  }

  /**
   Two streams are given all that a window can hold, one after the other, from grants that are all accepted; then
   the peer lowers the initial window to nothing, and the connection's window is negative.
   */
  lemma WindowOverdrawn(slab: Slab, ids: Ids)
    requires slab.Keys == {0, 1} && ids == [(slab[0].id, 0), (slab[1].id, 1)] && IdsOk(ids, slab)
    requires forall k :: k in slab ==>
               && slab[k].state.IsSendStreaming() && slab[k].remaining == Some(MAX_WINDOW)
               && slab[k].sendFlow == MAX_WINDOW && slab[k].connWindow == 0
    ensures IncreaseBy(DEFAULT_WINDOW, MAX_WINDOW - DEFAULT_WINDOW) == Some(MAX_WINDOW)
    ensures var (a, flow) := TryAssign(slab[0], MAX_WINDOW);
            && flow == 0 && IncreaseBy(flow, MAX_WINDOW) == Some(MAX_WINDOW)
            && var (b, flow') := TryAssign(slab[1], MAX_WINDOW);
            && flow' == 0
            && var shared := slab[0 := a][1 := b];
            && IdsOk(ids, shared)
            && Wrap(Reclaimed(ids, shared, MAX_WINDOW)) == Reclaimed(ids, shared, MAX_WINDOW) == 2 * MAX_WINDOW
            && IncreaseBy(flow', 2 * MAX_WINDOW) == Some(-2)
  {
    var shared := slab[0 := TryAssign(slab[0], MAX_WINDOW).0][1 := TryAssign(slab[1], MAX_WINDOW).0];
    assert Excess(shared[0], MAX_WINDOW) == Excess(shared[1], MAX_WINDOW) == MAX_WINDOW;
    ReclaimedStart(ids, shared, MAX_WINDOW);
    ReclaimedNext(ids, shared, MAX_WINDOW, 0);
    ReclaimedNext(ids, shared, MAX_WINDOW, 1);
    assert ids[..2] == ids;
  }

  /** The windows of the first `i` streams have moved, and the other streams are as they were. */
  ghost predicate MovedSoFar(ids: Ids, before: Slab, slab: Slab, d: int, i: nat) {
    && IdsOk(ids, before)
    && (forall j :: 0 <= j < i && j < |ids| ==>
       ids[j].1 in slab && slab[ids[j].1].sendFlow == MovedWindow(before[ids[j].1], d))
    && (forall j :: i <= j < |ids| ==> ids[j].1 in slab && slab[ids[j].1] == before[ids[j].1])
  }

  /** Moving the window of the next stream. */
  lemma MovedNext(ids: Ids, before: Slab, slab: Slab, d: int, i: nat)
    requires MovedSoFar(ids, before, slab, d, i) && i < |ids|
    ensures ids[i].1 in slab && slab[ids[i].1] == before[ids[i].1]
    ensures forall t: Stream :: t.sendFlow == MovedWindow(slab[ids[i].1], d) ==>
              MovedSoFar(ids, before, slab[ids[i].1 := t], d, i + 1)
    ensures slab[ids[i].1].state.IsSendClosed() ==> MovedSoFar(ids, before, slab, d, i + 1)
  {
    assert forall j :: 0 <= j < |ids| && j != i ==> ids[j].1 != ids[i].1;
  }

  lemma DoubleUpdate(slab: Slab, k: nat, t: Stream, u: Stream)
    ensures slab[k := t][k := u] == slab[k := u]
  {
  }

  /** Every id leads to a stream. */
  ghost predicate Led(ids: Ids, slab: Slab) {
    forall x :: x in ids ==> x.1 in slab
  }

  /** No open stream's window overflows by growing so much. */
  ghost predicate MayGrow(ids: Ids, slab: Slab, inc: nat)
    requires inc <= MAX_WINDOW
  {
    forall x :: x in ids && x.1 in slab && !slab[x.1].state.IsSendClosed() ==>
      IncreaseBy(slab[x.1].sendFlow, inc).Some?
  }

  /** The streams and the connection's window after these windows have grown, the first first. */
  ghost function Grown(ids: Ids, slab: Slab, flow: int, inc: nat): (r: (Slab, int))
    requires Led(ids, slab)
    ensures r.0.Keys == slab.Keys
  {
    if ids == [] then (slab, flow)
    else
      var n := |ids| - 1;
      var (m, f) := Grown(ids[..n], slab, flow, inc);
      GrowNow(m, ids[n].1, f, inc)
  }

  ghost function GrowNow(slab: Slab, k: nat, flow: int, inc: nat): (Slab, int)
    requires k in slab
  {
    var s := slab[k];
    if s.state.IsSendClosed() then (slab, flow)
    else (slab[k := TryAssign(s.(sendFlow := s.sendFlow + inc), flow).0],
          TryAssign(s.(sendFlow := s.sendFlow + inc), flow).1)
  }

  lemma GrownStart(ids: Ids, slab: Slab, flow: int, inc: nat)
    requires inc <= MAX_WINDOW
    ensures Led(ids[..0], slab) && Grown(ids[..0], slab, flow, inc) == (slab, flow) && MayGrow(ids[..0], slab, inc)
  {
  }

  lemma GrownNext(ids: Ids, slab: Slab, flow: int, inc: nat, i: nat)
    requires inc <= MAX_WINDOW && i < |ids| && Led(ids[..i], slab) && ids[i].1 in slab
    ensures Led(ids[..i + 1], slab)
    ensures var (m, f) := Grown(ids[..i], slab, flow, inc);
            Grown(ids[..i + 1], slab, flow, inc) == GrowNow(m, ids[i].1, f, inc)
    ensures MayGrow(ids, slab, inc) ==> MayGrow(ids[..i + 1], slab, inc)
    ensures MayGrow(ids[..i + 1], slab, inc) <==>
            MayGrow(ids[..i], slab, inc)
            && (slab[ids[i].1].state.IsSendClosed() || IncreaseBy(slab[ids[i].1].sendFlow, inc).Some?)
  {
    hide TryAssign, GrowNow;
    assert ids[..i + 1][..i] == ids[..i];
    assert forall x :: x in ids[..i + 1] <==> x in ids[..i] || x == ids[i];
  }

  lemma MovedAll(ids: Ids, before: Slab, slab: Slab, d: int)
    requires MovedSoFar(ids, before, slab, d, |ids|)
    ensures WindowsMoved(ids, before, slab, d)
  {
  }

  lemma MovedNone(ids: Ids, slab: Slab)
    requires IdsOk(ids, slab)
    ensures WindowsMoved(ids, slab, slab, 0)
  {
  }

  lemma MovedStart(ids: Ids, slab: Slab, d: int)
    requires IdsOk(ids, slab)
    ensures MovedSoFar(ids, slab, slab, d, 0)
  {
  }

  lemma FedWindows(ids: Ids, before: Slab, slab: Slab, slab': Slab, d: int)
    requires WindowsMoved(ids, before, slab, d) && FedAll(slab, slab')
    ensures WindowsMoved(ids, before, slab', d)
  {
    forall x | x in ids
      ensures x.1 in slab' && slab'[x.1].sendFlow == slab[x.1].sendFlow
    {
      assert Fed(slab[x.1], slab'[x.1]);
    }
  }

  lemma AssignWindow(s: Stream, flow: int)
    ensures TryAssign(s, flow).0.sendFlow == s.sendFlow
    ensures flow >= 0 ==> TryAssign(s, flow).1 >= 0
  {
  }

  /** A stream that is opened is counted, and waits to send. */
  function Opened(s: Stream): Stream {
    s.(queued := s.queued - {Which.Open} + {Send}, isCounted := true)
  }

  lemma OpenedIs(slab: Slab, k: nat, s: Stream)
    requires k in slab && s == Flag(slab, k, Which.Open, false)[k].(isCounted := true)
    ensures Flag(slab[k := s], k, Send, true) == slab[k := Opened(slab[k])]
  {
  }

  lemma WaitingLocal(isServer: bool, slab: Slab, key: Key)
    requires AllOk(slab, isServer, {}) && Resolves(slab, key) && Which.Open in slab[key.index].queued
    ensures IsLocalInit(isServer, key.streamId) && !slab[key.index].isCounted
    ensures !slab[key.index].state.Idle? && !slab[key.index].state.ReservedRemote?
    ensures var s := Flag(slab, key.index, Which.Open, false)[key.index]; StreamOk(isServer, s.(isCounted := true))
  {
    hide BodyOk;
    var s := Flag(slab, key.index, Which.Open, false)[key.index];
    BodyQueued(slab[key.index], s.queued, s.connWindow);
    BodyCount(s, true);
  }

  lemma ShrinkOk(slab: Slab, isServer: bool, k: nat, connWindow: nat)
    requires k in slab && AllOk(slab, isServer, {}) && connWindow < U32
    ensures var s := slab[k].(connWindow := connWindow); StreamOk(isServer, s) && Ready(s)
  {
    hide BodyOk;
    BodyQueued(slab[k], slab[k].queued, connWindow);
  }

  /** How the headers of a message turn out. */
  datatype HeadersOutcome = Accepted | Malformed(reason: nat) | Oversize

  /**
   How the last of a message turns out: content that is found wrong before the peer's half is closed, or trailers and
   data that are found wrong after.
   */
  datatype EndOutcome = Fine | MalformedBefore(reason: nat) | MalformedAfter(reason: nat)

  /** What the end of the peer's half leaves of a stream. */
  function Ended(s: Stream, outcome: EndOutcome): Stream
    requires outcome.MalformedBefore? || RecvClose(s.state).Some?
  {
    match outcome
    case Fine => s.(state := RecvClose(s.state).value)
    case MalformedBefore(reason) => AfterReset(s, reason, Library)
    case MalformedAfter(reason) => AfterReset(s.(state := RecvClose(s.state).value), reason, Library)
  }

  /** Headers for a stream that we have reset, or that is past them, are none of its business. */
  predicate Ignores(s: Stream) {
    s.state.IsLocalError() || !s.state.IsRecvHeaders()
  }

  /** What a message that turns out so leaves of the stream whose receive half it has opened. */
  ghost predicate Digested(s: Stream, t: Stream, refused: bool, outcome: HeadersOutcome) {
    && t.isCounted == s.isCounted && (ResetExpire in s.queued ==> ResetExpire in t.queued)
    && match outcome
       case Accepted => t.state == s.state && t.frames == s.frames
       case Malformed(reason) =>
         t.state == AfterReset(s, reason, Library).state && t.frames == AfterReset(s, reason, Library).frames
       case Oversize =>
         if refused then t.state.Closed? && t.frames == [Headers(true)]
         else
           && t.state == AfterReset(s, PROTOCOL_ERROR, Library).state
           && t.frames == AfterReset(s, PROTOCOL_ERROR, Library).frames
  }

  /** What is left of a stream whose headers have arrived, save that it may not be counted any more. */
  ghost predicate Arrived(s: Stream, t: Stream, isServer: bool, eos: bool, informational: bool, outcome: HeadersOutcome)
    requires s.state.IsRecvHeaders()
  {
    var (state, initial) := RecvOpen(s.state, eos, informational).value;
    Digested(s.(state := state, isCounted := t.isCounted), t, isServer && initial, outcome)
  }

  lemma SettledDigested(slab: Slab, k: nat, s: Stream, isServer: bool, eos: bool, informational: bool,
                        outcome: HeadersOutcome)
    requires k in slab && s.state.IsRecvHeaders()
    requires var (state, initial) := RecvOpen(s.state, eos, informational).value;
             Digested(s.(state := state, isCounted := initial || s.isCounted), slab[k], isServer && initial, outcome)
    ensures ArrivedAt(s, Settle(slab, k), k, isServer, eos, informational, outcome)
    ensures ResetExpire in s.queued ==> ResetExpire in slab[k].queued
    ensures s.state.Idle? ==> !slab[k].IsClosed() && Settle(slab, k) == slab && slab[k].isCounted
  {
    SettledState(slab, k);
    FlushedStays(slab, k);
    OpenSettles(slab, k);
  }

  lemma OpenSettles(slab: Slab, k: nat)
    requires k in slab
    ensures !slab[k].IsClosed() ==> Settle(slab, k) == slab
  {
    SameEntry(slab, k);
  }

  lemma ResetFlags(s: Stream, reason: nat, initiator: Initiator)
    ensures ResetExpire in AfterReset(s, reason, initiator).queued <==> ResetExpire in s.queued
    ensures AfterReset(s, reason, initiator).isCounted == s.isCounted
    ensures AfterReset(s, reason, initiator).state.IsReset()
  {
  }

  /** The stream is as its headers leave it, if it is still there. */
  ghost predicate ArrivedAt(s: Stream, slab: Slab, k: nat, isServer: bool, eos: bool, informational: bool,
                            outcome: HeadersOutcome)
    requires s.state.IsRecvHeaders()
  {
    k in slab ==> Arrived(s, slab[k], isServer, eos, informational, outcome)
  }

  lemma RecvOpens(slab: Slab, isServer: bool, k: nat, unopened: set<nat>, eos: bool, informational: bool)
    requires k in slab && AllOk(slab, isServer, unopened) && slab[k].state.IsRecvHeaders()
    requires k in unopened ==> slab[k].state.Idle?
    ensures var opening := RecvOpen(slab[k].state, eos, informational);
            && opening.Some?
            && (opening.value.1 ==>
                  && k in unopened && !opening.value.0.IsScheduledReset()
                  && SendOpen(opening.value.0, true).Some? && !SendOpen(opening.value.0, true).value.IsSendStreaming())
            && StreamOk(isServer, slab[k].(state := opening.value.0)) && Ready(slab[k].(state := opening.value.0))
  {
  }

  lemma CountOk(isServer: bool, s: Stream)
    requires StreamOk(isServer, s) && Ready(s) && !IsLocalInit(isServer, s.id) && !s.state.IsScheduledReset()
    ensures StreamOk(isServer, s.(isCounted := true)) && Ready(s.(isCounted := true))
  {
    BodyCount(s, true);
    hide BodyOk;
  }

  // ===== opening =====

  /** A stream that carries a request and waits to be opened. */
  function Requested(id: nat, initWindow: nat, body: Option<Bytes>, trailers: bool): Stream {
    var eos := body.None? && !trailers;
    NewStream(id, initWindow).(
      state := SendOpen(Idle, eos).value, refCount := 1, frames := Message(body, trailers),
      remaining := if body.Some? then Some(|body.value|) else None, queued := {Which.Open})
  }

  lemma RequestedIs(id: nat, initWindow: nat, body: Option<Bytes>, trailers: bool, t: Stream)
    requires HeadersQueued(NewStream(id, initWindow), t, body.None? && !trailers)
    requires t.queued == {} + {Which.Open}
    ensures Requested(id, initWindow, body, trailers)
            == t.(frames := Message(body, trailers), refCount := 1,
                  remaining := if body.Some? then Some(|body.value|) else None)
    ensures t.refCount == 0
  {
  }

  /** A stream whose send half has been opened and whose headers are its first frame. */
  ghost predicate HeadersQueued(s: Stream, t: Stream, eos: bool) {
    && SendOpen(s.state, eos) == Some(t.state) && t.frames == [Headers(eos)] && t.remaining.None?
    && t == s.(state := t.state, frames := t.frames, queued := t.queued) && !t.isSendingTrailer
    && forall w :: w != Send && w != Which.Open ==> (w in t.queued <==> w in s.queued)
  }

  lemma BodyMayFollow(s: Stream, t: Stream, body: Option<Bytes>, trailers: bool)
    requires HeadersQueued(s, t, body.None? && !trailers)
    ensures t.frames == [Headers(body.None? && !trailers)] && t.remaining.None? && !t.isSendingTrailer
    ensures body.Some? || trailers ==> t.state.IsSendStreaming()
    ensures !WillClear(t.state) && !t.state.IsScheduledReset()
    ensures ResetExpire in t.queued <==> ResetExpire in s.queued
  {
  }

  lemma NewOk(isServer: bool, id: nat, initWindow: nat)
    requires id > 0 && initWindow <= MAX_WINDOW
    ensures StreamOk(isServer, NewStream(id, initWindow))
  {
  }

  lemma OpenOk(slab: Slab, isServer: bool, k: nat, except: set<nat>, state: State, eos: bool)
    requires k in slab && AllOk(slab, isServer, except) && SendOpen(slab[k].state, eos) == Some(state)
    ensures var s := slab[k];
            var t := s.(state := state);
            && StreamOk(isServer, t) && Ready(t)
            && s.frames == [] && s.remaining.None? && !s.isSendingTrailer && !state.IsSendAwaiting()
            && (IsLocalInit(isServer, s.id) ==> StreamOk(isServer, t.(queued := t.queued + {Which.Open})))
  {
  }

  lemma FirstFrame(isServer: bool, s: Stream, eos: bool)
    requires StreamOk(isServer, s) && Ready(s)
    requires s.frames == [] && s.remaining.None? && !s.isSendingTrailer && !s.state.IsSendAwaiting()
    ensures [] + [Headers(eos)] == [Headers(eos)]
    ensures var t := s.(frames := s.frames + [Headers(eos)]); StreamOk(isServer, t) && Ready(t)
  {
  }

  lemma MessageOk(isServer: bool, s: Stream, body: Option<Bytes>, trailers: bool)
    requires StreamOk(isServer, s) && Ready(s) && !s.isSendingTrailer
    requires body.Some? || trailers ==> s.state.IsSendStreaming()
    requires s.frames != []
    ensures var t := s.(frames := Message(body, trailers),
                        remaining := if body.Some? then Some(|body.value|) else None);
            StreamOk(isServer, t) && Ready(t)
  {
  }

  lemma SendingOk(isServer: bool, s: Stream)
    requires StreamOk(isServer, s) && EndsLast(s.frames) && !WillClear(s.state) && !s.state.IsScheduledReset()
    ensures Sending(s)
  {
  }

  lemma SendingHandle(s: Stream, refCount: nat)
    requires Sending(s)
    ensures Sending(s.(refCount := refCount))
  {
    BodyHandle(s, refCount);
    hide BodyOk;
  }

  /** A stream with something left to send is not done with. */
  lemma FlushedStays(slab: Slab, k: nat)
    requires k in slab
    ensures slab[k].frames != [] ==> Settle(slab, k) == slab
  {
    SameEntry(slab, k);
  }

  // ===== receiving =====

  /** A stream that at most moved between the queues for complete messages and for accepting. */
  ghost predicate MovedOne(s: Stream, t: Stream) {
    && t == s.(queued := t.queued)
    && forall w :: w != Complete && w != Accept ==> (w in s.queued <==> w in t.queued)
  }

  ghost predicate Moved(slab: Slab, slab': Slab) {
    slab'.Keys == slab.Keys && forall k :: k in slab ==> MovedOne(slab[k], slab'[k])
  }

  /** The message of the stream is complete, or will never be. */
  predicate Finished(s: Stream) {
    s.state.IsRecvEndStream() || s.state.IsRemoteReset()
  }

  /** The first `n` streams are finished, and the next one is not. */
  ghost predicate FinishedRun(items: seq<Key>, slab: Slab, n: nat) {
    && n <= |items|
    && (forall i :: 0 <= i < |items| ==> items[i].index in slab)
    && (forall i :: 0 <= i < n ==> Finished(slab[items[i].index]))
    && (n < |items| ==> !Finished(slab[items[n].index]))
  }

  /** The streams to be accepted, in order. */
  ghost function Acceptable(keys: seq<Key>, slab: Slab): seq<Key>
    requires forall i :: 0 <= i < |keys| ==> keys[i].index in slab
  {
    if keys == [] then []
    else
      var last := keys[|keys| - 1];
      Acceptable(keys[..|keys| - 1], slab)
      + if slab[last.index].state.IsRemoteReset() || Accept in slab[last.index].queued then [] else [last]
  }

  /** The streams from position `n` on are as they were. */
  ghost predicate Unmoved(items: seq<Key>, before: Slab, slab: Slab, n: nat) {
    && NoRepeats(items)
    && (forall i :: 0 <= i < |items| ==> items[i].index in before && items[i].index in slab)
    && forall i :: n <= i < |items| ==> slab[items[i].index] == before[items[i].index]
  }

  lemma MoveStart(items: seq<Key>, slab: Slab)
    requires Members(Complete, items, slab)
    ensures Unmoved(items, slab, slab, 0) && Acceptable([], slab) == []
  {
  }

  lemma MoveNext(items: seq<Key>, before: Slab, slab: Slab, n: nat)
    requires Unmoved(items, before, slab, n) && n < |items|
    ensures var k := items[n].index;
            && slab[k] == before[k]
            && Unmoved(items, before, Flag(slab, k, Complete, false), n + 1)
            && Unmoved(items, before, Flag(Flag(slab, k, Complete, false), k, Accept, true), n + 1)
    ensures Acceptable(items[..n + 1], before) == Acceptable(items[..n], before)
              + if before[items[n].index].state.IsRemoteReset() || Accept in before[items[n].index].queued
                then [] else [items[n]]
    ensures items[n..][1..] == items[n + 1..]
  {
    assert items[..n + 1][..n] == items[..n];
    assert forall i :: n < i < |items| ==> items[i].index != items[n].index;
  }

  lemma MovedKeeps(slab: Slab, slab': Slab, k: nat)
    requires Moved(slab, slab') && k in slab
    ensures k in slab' && slab'[k].id == slab[k].id && slab'[k].state == slab[k].state
    ensures ResetExpire in slab'[k].queued <==> ResetExpire in slab[k].queued
    ensures MovedOne(slab[k], slab'[k])
  {
    assert MovedOne(slab[k], slab'[k]);
  }

  lemma MovedFrames(slab: Slab, slab': Slab, k: nat)
    requires Moved(slab, slab') && k in slab
    ensures slab'[k].frames == slab[k].frames
  {
    assert MovedOne(slab[k], slab'[k]);
  }

  lemma MovedTwice(s: Stream, t: Stream, u: Stream)
    requires MovedOne(s, t) && MovedOne(t, u)
    ensures MovedOne(s, u)
  {
  }

  lemma MovedSame(slab: Slab)
    ensures Moved(slab, slab)
  {
  }

  lemma MovedFlag(before: Slab, slab: Slab, k: nat, w: Which, on: bool)
    requires Moved(before, slab) && k in slab && (w == Complete || w == Accept)
    ensures Moved(before, Flag(slab, k, w, on))
  {
    forall j | j in before
      ensures MovedOne(before[j], Flag(slab, k, w, on)[j])
    {
      assert MovedOne(before[j], slab[j]);
    }
  }

  lemma ReceivedOk(isServer: bool, s: Stream, state: State)
    requires StreamOk(isServer, s) && Ready(s) && (RecvClose(s.state) == Some(state))
    ensures StreamOk(isServer, s.(state := state)) && Ready(s.(state := state))
  {
  }

  lemma RemoteResetOk(isServer: bool, s: Stream, state: State)
    requires StreamOk(isServer, s) && Ready(s)
    requires exists reason :: state == StreamState.RecvReset(s.state, reason, Send in s.queued)
    ensures state.Closed? && StreamOk(isServer, s.(state := state)) && Ready(s.(state := state))
  {
  }

  lemma ClearOk(isServer: bool, s: Stream)
    requires StreamOk(isServer, s) && Ready(s) && s.state.Closed?
    ensures var t := s.(frames := [], remaining := None); StreamOk(isServer, t) && Ready(t)
  {
  }

  /** Stream `k` is closed with nothing left to send, or gone. */
  ghost predicate ClosedAt(slab: Slab, k: nat) {
    k in slab ==> slab[k].IsClosed()
  }

  /** The other streams are still there, and at most got a larger share or moved between two queues. */
  ghost predicate OthersFed(slab: Slab, slab': Slab, k: nat) {
    && slab'.Keys <= slab.Keys
    && forall j :: j in slab && j != k ==> j in slab' && Fed(slab[j], slab'[j])
  }

  lemma FailedKeeps(before: Slab, slab: Slab, slab': Slab, k: nat)
    requires k in slab && slab[k].IsClosed() && FedAll(slab, slab') && slab.Keys == before.Keys
    requires forall j :: j in before && j != k ==> j in slab && slab[j] == before[j]
    ensures k in slab' && ClosedAt(Settle(slab', k), k) && OthersFed(before, Settle(slab', k), k)
  {
    assert Fed(slab[k], slab'[k]);
    forall j | j in before && j != k
      ensures j in slab' && Fed(before[j], slab'[j])
    {
      assert Fed(slab[j], slab'[j]);
    }
  }

  /**
   The streams above `last` among the first `i`, and those whose ids have been forgotten, are closed; the streams up
   to `last` go on.
   */
  ghost predicate FailedSoFar(all: Ids, ids: Ids, before: Slab, slab: Slab, i: nat, last: nat) {
    && (forall j :: 0 <= j < i && j < |ids| && ids[j].0 > last ==> ClosedAt(slab, ids[j].1))
    && (forall x :: x in all && x !in ids ==> x.0 > last && ClosedAt(slab, x.1))
    && (forall k :: k in before && before[k].id <= last ==> k in slab && Fed(before[k], slab[k]))
  }

  lemma FailedStart(ids: Ids, slab: Slab, last: nat)
    ensures FailedSoFar(ids, ids, slab, slab, 0, last)
  {
  }

  /** A stream up to `last` is passed over. */
  lemma PassedStep(all: Ids, ids: Ids, before: Slab, slab: Slab, i: nat, last: nat)
    requires FailedSoFar(all, ids, before, slab, i, last) && i < |ids| && ids[i].0 <= last
    ensures FailedSoFar(all, ids, before, slab, i + 1, last)
  {
  }

  /** A stream above `last` is ended, and perhaps forgotten. */
  lemma FailedStep(all: Ids, ids: Ids, ids': Ids, before: Slab, slab: Slab, slab': Slab, i: nat, last: nat)
    requires IdsOk(ids, slab) && i < |ids| && ids[i].0 > last && FailedSoFar(all, ids, before, slab, i, last)
    requires OthersFed(slab, slab', ids[i].1) && ClosedAt(slab', ids[i].1)
    requires ids' == ids || ids' == Unlinked(ids, ids[i].0)
    ensures ids' == ids || |ids'| == |ids| - 1
    ensures FailedSoFar(all, ids', before, slab', if ids' == ids then i + 1 else i, last)
  {
    hide Unlinked, IdsOk, FindId, Fed, ClosedAt, OthersFed;
    UnlinkedKeeps(ids, ids[i].0, slab);
    UnlinkedAt(ids, slab, i);
    UniqueId(ids, slab, i);
    forall k | ClosedAt(slab, k)
      ensures ClosedAt(slab', k)
    {
      ClosedStays(slab, slab', ids[i].1, k);
    }
    forall k | k in before && before[k].id <= last
      ensures k in slab' && Fed(before[k], slab'[k])
    {
      FedOn(before, slab, slab', ids, i, k);
    }
  }

  lemma ClosedStays(slab: Slab, slab': Slab, j: nat, k: nat)
    requires OthersFed(slab, slab', j) && ClosedAt(slab', j) && ClosedAt(slab, k)
    ensures ClosedAt(slab', k)
  {
  }

  lemma FedOn(before: Slab, slab: Slab, slab': Slab, ids: Ids, i: nat, k: nat)
    requires IdsOk(ids, slab) && i < |ids| && OthersFed(slab, slab', ids[i].1)
    requires k in before && k in slab && before[k].id < ids[i].0 && Fed(before[k], slab[k])
    ensures k in slab' && Fed(before[k], slab'[k])
  {
  }

  lemma FailedEnd(all: Ids, ids: Ids, before: Slab, slab: Slab, last: nat)
    requires FailedSoFar(all, ids, before, slab, |ids|, last)
    ensures forall x :: x in all && x.0 > last ==> ClosedAt(slab, x.1)
    ensures forall x :: x in all && x.0 <= last ==> x in ids
    ensures forall k :: k in before && before[k].id <= last ==> k in slab && Fed(before[k], slab[k])
  {
    hide ClosedAt, Fed;
  }

  /** Forgetting the id at `i` leaves the ids before it in place. */
  lemma UnlinkedAt(ids: Ids, slab: Slab, i: nat)
    requires IdsOk(ids, slab) && i < |ids|
    ensures var r := Unlinked(ids, ids[i].0);
            |r| == |ids| - 1 && forall j :: 0 <= j < i ==> r[j] == ids[j]
  {
    var p := FindId(ids, ids[i].0);
    assert p == Some(i);
  }

  lemma FailOk(isServer: bool, s: Stream, e: ProtoError)
    requires StreamOk(isServer, s) && Ready(s)
    ensures var t := s.(state := StreamState.HandleError(s.state, e), frames := [], remaining := None);
            StreamOk(isServer, t) && Ready(t) && t.state.Closed?
  {
  }

  lemma HandleOk(isServer: bool, s: Stream, refCount: nat)
    ensures StreamOk(isServer, s.(refCount := refCount)) == StreamOk(isServer, s)
    ensures Ready(s.(refCount := refCount)) == Ready(s)
  {
    BodyHandle(s, refCount);
    hide BodyOk;
  }

  lemma BodyHandle(s: Stream, refCount: nat)
    ensures BodyOk(s.(refCount := refCount)) == BodyOk(s)
  {
  }

  lemma ScheduleOk(slab: Slab, isServer: bool, k: nat, reason: nat)
    requires k in slab && AllOk(slab, isServer, {}) && !slab[k].state.Closed?
    requires reason == CANCEL || !slab[k].state.IsSendStreaming()
    ensures StreamOk(isServer, slab[k].(state := Closed(ScheduledReset(reason))))
  {
  }

  /** A new send window keeps the stream in order. */
  lemma WindowOk(slab: Slab, isServer: bool, k: nat, window: int)
    requires k in slab && AllOk(slab, isServer, {}) && IsI32(window)
    ensures var s := slab[k].(sendFlow := window); StreamOk(isServer, s) && Ready(s)
  {
    hide BodyOk;
    BodyWindow(slab[k], window);
  }

  lemma BodyWindow(s: Stream, window: int)
    ensures BodyOk(s.(sendFlow := window)) == BodyOk(s)
  {
  }

  /** A reset stream is in order once what it had queued is gone. */
  lemma ResetOk(slab: Slab, isServer: bool, k: nat, state: State, reason: nat, except: set<nat>)
    requires k in slab && AllOk(slab, isServer, except) && state.Closed? && state.cause.Failed?
    ensures var t := slab[k].(state := state);
            && (slab[k].frames == [] ==> StreamOk(isServer, t) && Ready(t))
            && (var u := t.(frames := [], remaining := None); StreamOk(isServer, u) && Ready(u))
            && (var v := t.(frames := [] + [RstStream(reason)], remaining := None); StreamOk(isServer, v) && Ready(v))
  {
    assert slab[k].frames == [] ==> slab[k].remaining.None?;
  }

  /** A stream after it has been reset: what it had queued makes way for the reset, unless it had ended already. */
  function AfterReset(s: Stream, reason: nat, initiator: Initiator): Stream {
    if s.state.IsReset() then s
    else
      var t := s.(state := Closed(Failed(ResetError(reason, initiator))));
      if s.state.Closed? && s.frames == [] then t
      else
        t.(frames := [RstStream(reason)], remaining := None,
           queued := if Which.Open in s.queued then s.queued else s.queued + {Send})
  }

  /** A stream whose reset is left to be sent once its turn to send comes. */
  function Scheduled(s: Stream, reason: nat): Stream {
    if s.state.Closed? then s
    else
      s.(state := Closed(ScheduledReset(reason)),
         queued := if Which.Open in s.queued then s.queued else s.queued + {Send})
  }

  lemma ScheduledFed(before: Slab, k: nat, reason: nat, fed: Slab, slab: Slab)
    requires k in before && !before[k].state.Closed?
    requires FedAll(before[k := before[k].(state := Closed(ScheduledReset(reason)))], fed)
    requires k in fed && slab == if Which.Open in fed[k].queued then fed else Flag(fed, k, Send, true)
    ensures FedAll(before[k := Scheduled(before[k], reason)], slab)
  {
    var mid := before[k := before[k].(state := Closed(ScheduledReset(reason)))];
    assert Fed(mid[k], fed[k]);
    forall j | j in before
      ensures Fed(before[k := Scheduled(before[k], reason)][j], slab[j])
    {
      assert Fed(mid[j], fed[j]);
    }
  }

  // ===== feeding =====

  /** A stream that at most got a larger share, or moved between the queues for sending and for capacity. */
  ghost predicate Fed(s: Stream, t: Stream) {
    && t == s.(connWindow := t.connWindow, queued := t.queued)
    && (Send in s.queued ==> Send in t.queued)
    && forall w :: w != Send && w != Capacity ==> (w in s.queued <==> w in t.queued)
  }

  ghost predicate FedAll(slab: Slab, slab': Slab) {
    slab'.Keys == slab.Keys && forall k :: k in slab ==> Fed(slab[k], slab'[k])
  }

  lemma FedKeeps(slab: Slab, slab': Slab, k: nat)
    requires FedAll(slab, slab') && k in slab
    ensures slab'.Keys == slab.Keys && forall j :: j in slab ==> slab'[j].id == slab[j].id
    ensures slab'[k].state == slab[k].state && slab'[k].refCount == slab[k].refCount
    ensures ResetExpire in slab'[k].queued <==> ResetExpire in slab[k].queued
    ensures Which.Open in slab'[k].queued <==> Which.Open in slab[k].queued
  {
    assert forall j :: j in slab ==> Fed(slab[j], slab'[j]);
  }

  lemma FedStream(slab: Slab, slab': Slab, k: nat)
    requires FedAll(slab, slab') && k in slab
    ensures k in slab' && Fed(slab[k], slab'[k])
  {
  }

  lemma FedSame(slab: Slab)
    ensures FedAll(slab, slab)
  {
  }

  lemma FedTrans(before: Slab, slab: Slab, slab': Slab)
    requires FedAll(before, slab) && FedAll(slab, slab')
    ensures FedAll(before, slab')
  {
    forall k | k in before
      ensures Fed(before[k], slab'[k])
    {
      assert Fed(before[k], slab[k]) && Fed(slab[k], slab'[k]);
    }
  }

  lemma FedFlag(before: Slab, slab: Slab, k: nat, w: Which, on: bool)
    requires FedAll(before, slab) && k in slab && (w == Capacity || (w == Send && on))
    ensures FedAll(before, Flag(slab, k, w, on))
  {
    forall j | j in before
      ensures Fed(before[j], Flag(slab, k, w, on)[j])
    {
      assert Fed(before[j], slab[j]);
    }
  }

  lemma FedAssign(before: Slab, slab: Slab, k: nat, flow: int)
    requires FedAll(before, slab) && k in slab
    ensures FedAll(before, slab[k := TryAssign(slab[k], flow).0])
  {
    hide Share;
    forall j | j in before
      ensures Fed(before[j], slab[k := TryAssign(slab[k], flow).0][j])
    {
      assert Fed(before[j], slab[j]);
    }
  }

  /**
   What the connection's window loses the streams' shares gain, unless the two together do not fit into 32 bits; a
   window with anything in it is not overdrawn, and any other is left alone.
   */
  ghost predicate Handed(slab: Slab, flow: int, slab': Slab, flow': int) {
    && flow' + Assigned(slab') <= flow + Assigned(slab)
    && (AsSize(flow) + Assigned(slab) < U32 ==> flow' + Assigned(slab') == flow + Assigned(slab))
    && flow' <= flow && (if flow < 0 then flow' == flow else flow' >= 0)
  }

  lemma HandedSame(slab: Slab, flow: int)
    ensures Handed(slab, flow, slab, flow)
  {
    hide Assigned;
  }

  lemma HandedTrans(slab: Slab, flow: int, slab': Slab, flow': int, slab'': Slab, flow'': int)
    requires Handed(slab, flow, slab', flow') && Handed(slab', flow', slab'', flow'')
    ensures Handed(slab, flow, slab'', flow'')
  {
    hide Assigned;
  }

  lemma HandedFlag(slab: Slab, k: nat, w: Which, on: bool, flow: int)
    requires k in slab
    ensures Handed(slab, flow, Flag(slab, k, w, on), flow)
  {
    hide Assigned;
    AssignedChange(slab, k, Flag(slab, k, w, on)[k]);
  }

  lemma HandedAssign(before: Slab, slab: Slab, k: nat, flow: int)
    requires k in slab && Handed(before, flow, slab, flow)
    ensures var (s, flow') := TryAssign(slab[k], flow); Handed(before, flow, slab[k := s], flow')
  {
    hide Assigned, Share;
    AssignedChange(slab, k, TryAssign(slab[k], flow).0);
    AssignedSplit(slab, k);
  }

  /**
   Whatever share it holds already, a stream is given as much as it has left to send, as far as the windows allow: two
   calls in a row give it twice that. What it does not send is lost when it is removed.
   */
  lemma ShareTwice(s: Stream, flow: int, rem: nat)
    requires s.remaining == Some(rem) && s.connWindow + 2 * rem < U32
    requires 0 < rem <= s.sendFlow && 2 * rem < flow <= MAX_WINDOW
    ensures var (t, flow') := TryAssign(s, flow);
            var (u, flow'') := TryAssign(t, flow');
            u.connWindow == s.connWindow + 2 * rem && flow'' == flow - 2 * rem
  {
    ShareOnce(s, flow, rem);
    hide TryAssign;
    ShareOnce(TryAssign(s, flow).0, flow - rem, rem);
  }

  lemma ShareOnce(s: Stream, flow: int, rem: nat)
    requires s.remaining == Some(rem) && s.connWindow + rem < U32
    requires 0 < rem <= s.sendFlow && rem < flow <= MAX_WINDOW
    ensures TryAssign(s, flow) == (s.(queued := s.queued + {Send}, connWindow := s.connWindow + rem), flow - rem)
  {
  }

  /** Assigning capacity does not change what the stream is. */
  lemma AssignResets(s: Stream, flow: int)
    ensures var t := TryAssign(s, flow).0;
            && t.id == s.id && t.state == s.state && t.frames == s.frames && t.remaining == s.remaining
            && t.isCounted == s.isCounted
            && (ResetExpire in t.queued <==> ResetExpire in s.queued)
    ensures flow > 0 ==> (Capacity in TryAssign(s, flow).0.queued <==> Capacity in s.queued)
  {
    hide Share;
  }

  /** Cleaning up changes of a stream that stays at most whether it is counted. */
  lemma SettledState(slab: Slab, k: nat)
    requires k in slab
    ensures k in Settle(slab, k) ==>
              var t := Settle(slab, k)[k]; t == slab[k].(isCounted := t.isCounted)
  {
  }

  /** Cleaning up after an action that left the stream open does nothing. */
  lemma OpenStays(slab: Slab, k: nat)
    requires k in slab && !slab[k].state.Closed?
    ensures Settle(slab, k) == slab && ResetQueued(slab[k])
  {
    SameEntry(slab, k);
  }

  /** A stream with body left has a frame that carries it. */
  lemma RemainingFrames(slab: Slab, isServer: bool, k: nat, except: set<nat>)
    requires k in slab && AllOk(slab, isServer, except) && slab[k].remaining.Some?
    ensures slab[k].frames != []
  {
  }

  lemma ShareOk(slab: Slab, isServer: bool, k: nat, except: set<nat>, n: nat, flow: int)
    requires k in slab && AllOk(slab, isServer, except) && slab[k].remaining.Some?
    requires n == Share(flow, slab[k].sendFlow, slab[k].remaining.value)
    ensures var s := Flag(slab, k, Send, true)[k];
            var t := s.(connWindow := Wrap(s.connWindow + n));
            && StreamOk(isServer, t) && (k !in except ==> Ready(t)) && t.connWindow <= s.connWindow + n
            && (n == 0 ==> t == s)
            && Flag(slab, k, Send, true)[k := t] == slab[k := s.(connWindow := t.connWindow)]
            && n <= AsSize(flow)
  {
    hide BodyOk, Share;
    var s := Flag(slab, k, Send, true)[k];
    BodyQueued(slab[k], s.queued, Wrap(s.connWindow + n));
  }

  lemma SettledBusy(slab: Slab, k: nat)
    requires k in slab
    ensures Settled(slab[k]).id == slab[k].id && Busy(Settled(slab[k])) == Busy(slab[k])
    ensures Settle(slab, k) == slab - {k} || Settle(slab, k) == slab[k := Settled(slab[k])]
  {
  }

  /** Settling a stream loses its share exactly if it is removed, and keeps every stream in order. */
  lemma SettleOk(slab: Slab, isServer: bool, k: nat, except: set<nat>)
    requires k in slab && AllOk(slab, isServer, except)
    ensures Assigned(Settle(slab, k)) == Assigned(slab) - if k in Settle(slab, k) then 0 else slab[k].connWindow
    ensures AllOk(Settle(slab, k), isServer, except)
  {
    hide Assigned, BodyOk;
    AssignedChange(slab, k, Settled(slab[k]));
    AssignedSplit(slab, k);
    BodyCount(slab[k], false);
  }

  lemma BodyCount(s: Stream, counted: bool)
    ensures BodyOk(s.(isCounted := counted)) == BodyOk(s)
  {
  }
}
