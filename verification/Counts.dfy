/** Accounting for concurrent streams, section 5.1.2 of RFC 7540. */
module Counting {
  import opened Errors
  import opened StreamStore

  /** The largest number a machine word holds. */
  const UNLIMITED := 0xFFFF_FFFF_FFFF_FFFF

  /** Servers open streams with even ids, clients with odd ones. */
  predicate IsLocalInit(isServer: bool, id: nat) {
    isServer == (id % 2 == 0)
  }

  /** The streams that are counted against the limit on one side's streams. */
  ghost function Counted(slab: Slab, isServer: bool, local: bool): set<nat> {
    set k | k in slab && slab[k].isCounted && IsLocalInit(isServer, slab[k].id) == local
  }

  /** The streams held for some time after a local reset. */
  ghost function Held(slab: Slab): set<nat> {
    set k | k in slab && ResetExpire in slab[k].queued
  }

  /** The peer has reset the stream before the application has accepted it. */
  predicate Abandoned(s: Stream) {
    Accept in s.queued && s.state.IsRemoteReset()
  }

  ghost function AbandonedIn(slab: Slab): set<nat> {
    set k | k in slab && Abandoned(slab[k])
  }

  /** What a transition leaves of a stream: a closed one is no longer counted, unless its reset is still to be sent. */
  function Settled(s: Stream): Stream {
    if s.IsClosed() && !s.state.IsScheduledReset() then s.(isCounted := false) else s
  }

  function Settle(slab: Slab, k: nat): Slab
    requires k in slab
  {
    if Settled(slab[k]).IsReleased() then slab - {k} else slab[k := Settled(slab[k])]
  }

  /** The id of a closed stream is forgotten, unless the stream is held after a reset. */
  predicate Forgotten(s: Stream) {
    s.IsClosed() && ResetExpire !in s.queued
  }

  /** A counted stream whose reset is still to be sent is queued to be sent. */
  predicate ResetQueued(s: Stream) {
    s.state.IsScheduledReset() && s.isCounted ==> Send in s.queued
  }

  // ===== how single changes count =====

  lemma CountChange(slab: Slab, isServer: bool, local: bool, k: nat, s: Stream)
    requires k in slab && s.id == slab[k].id
    ensures var before, after := Counted(slab, isServer, local), Counted(slab[k := s], isServer, local);
            if IsLocalInit(isServer, s.id) != local || s.isCounted == slab[k].isCounted then after == before
            else if s.isCounted then k !in before && after == before + {k} && |after| == |before| + 1
            else k in before && after == before - {k} && |after| == |before| - 1
  {
    CountedBut(slab, isServer, local, k, s);
    hide Counted;
    var before, after := Counted(slab, isServer, local), Counted(slab[k := s], isServer, local);
    if (k in before) == (k in after) {
      assert after == before;
    } else if k in after {
      assert after == before + {k};
    } else {
      assert after == before - {k};
    }
  }

  /** Which of the other streams are counted does not depend on stream `k`. */
  lemma CountedBut(slab: Slab, isServer: bool, local: bool, k: nat, s: Stream)
    requires k in slab
    ensures var before, after := Counted(slab, isServer, local), Counted(slab[k := s], isServer, local);
            && (forall j :: j != k ==> (j in after <==> j in before))
            && (k in before <==> slab[k].isCounted && IsLocalInit(isServer, slab[k].id) == local)
            && (k in after <==> s.isCounted && IsLocalInit(isServer, s.id) == local)
  {
  }

  lemma CountRemove(slab: Slab, isServer: bool, local: bool, k: nat)
    requires k in slab && !slab[k].isCounted
    ensures Counted(slab - {k}, isServer, local) == Counted(slab, isServer, local)
  {
  }

  lemma CountInsert(slab: Slab, isServer: bool, local: bool, k: nat, s: Stream)
    requires k !in slab && !s.isCounted && s.queued == {}
    ensures Counted(slab[k := s], isServer, local) == Counted(slab, isServer, local)
    ensures Held(slab[k := s]) == Held(slab) && AbandonedIn(slab[k := s]) == AbandonedIn(slab)
  {
  }

  lemma HeldChange(slab: Slab, k: nat, s: Stream)
    requires k in slab
    ensures var before, after := Held(slab), Held(slab[k := s]);
            if (ResetExpire in s.queued) == (ResetExpire in slab[k].queued) then after == before
            else if ResetExpire in s.queued then after == before + {k} && |after| == |before| + 1
            else after == before - {k} && |after| == |before| - 1
  {
    var before, after := Held(slab), Held(slab[k := s]);
    if (ResetExpire in s.queued) == (ResetExpire in slab[k].queued) {
      assert after == before;
    } else if ResetExpire in s.queued {
      assert k !in before && after == before + {k};
    } else {
      assert k in before && after == before - {k};
    }
  }

  lemma HeldRemove(slab: Slab, k: nat)
    requires k in slab && slab[k].queued == {}
    ensures Held(slab - {k}) == Held(slab) && AbandonedIn(slab - {k}) == AbandonedIn(slab)
  {
  }

  lemma AbandonedChange(slab: Slab, k: nat, s: Stream)
    requires k in slab
    ensures var before, after := AbandonedIn(slab), AbandonedIn(slab[k := s]);
            if Abandoned(s) == Abandoned(slab[k]) then after == before
            else if Abandoned(s) then after == before + {k} && |after| == |before| + 1
            else after == before - {k} && |after| == |before| - 1
  {
    var before, after := AbandonedIn(slab), AbandonedIn(slab[k := s]);
    if Abandoned(s) == Abandoned(slab[k]) {
      assert after == before;
    } else if Abandoned(s) {
      assert k !in before && after == before + {k};
    } else {
      assert k in before && after == before - {k};
    }
  }

  class Counts {
    const isServer: bool
    var maxSend: nat
    var numSend: nat
    const maxRecv: nat
    var numRecv: nat
    const maxLocalReset: nat
    var numLocalReset: nat
    const maxRemoteReset: nat
    var numRemoteReset: nat

    constructor (isServer: bool, maxSend: nat, maxRecv: nat, maxLocalReset: nat, maxRemoteReset: nat)
      ensures this.isServer == isServer && this.maxSend == maxSend && numSend == 0 && Accurate(map[])
    {
      this.isServer, this.maxSend, this.maxRecv := isServer, maxSend, maxRecv;
      this.maxLocalReset, this.maxRemoteReset := maxLocalReset, maxRemoteReset;
      numSend, numRecv, numLocalReset, numRemoteReset := 0, 0, 0, 0;
    }

    /**
     The counters equal the numbers of counted streams, and every held stream and every one that the peer has reset
     before it was accepted have been counted as reset.
     */
    ghost predicate Accurate(slab: Slab)
      reads this
    {
      && numSend == |Counted(slab, isServer, true)| && numRecv == |Counted(slab, isServer, false)|
      && numLocalReset >= |Held(slab)| && numRemoteReset >= |AbandonedIn(slab)|
    }

    function CanIncNumRecvStreams(): bool
      reads this
    {
      maxRecv > numRecv
    }

    function CanIncNumSendStreams(): bool
      reads this
    {
      maxSend > numSend
    }

    function CanIncNumResetStreams(): bool
      reads this
    {
      maxLocalReset > numLocalReset
    }

    function CanIncNumRemoteResetStreams(): bool
      reads this
    {
      maxRemoteReset > numRemoteReset
    }

    /** The peer's limit on the streams we open. */
    method ApplyRemoteSettings(max: Option<nat>, ghost slab: Slab)
      requires Accurate(slab)
      modifies `maxSend
      ensures Accurate(slab) && maxSend == max.GetOr(UNLIMITED)
    {
      maxSend := max.GetOr(UNLIMITED);
    }

    method IncNumRemoteResetStreams(ghost slab: Slab)
      requires CanIncNumRemoteResetStreams() && Accurate(slab)
      modifies `numRemoteReset
      ensures Accurate(slab) && numRemoteReset > |AbandonedIn(slab)| && numRemoteReset == old(numRemoteReset) + 1
    {
      numRemoteReset := numRemoteReset + 1;
    }

    /** Once an abandoned stream has been accepted, the counter is not zero. */
    method DecNumRemoteResetStreams(ghost slab: Slab)
      requires Accurate(slab) && numRemoteReset > |AbandonedIn(slab)|
      modifies `numRemoteReset
      ensures Accurate(slab) && numRemoteReset == old(numRemoteReset) - 1
    {
      assert numRemoteReset > 0;
      numRemoteReset := numRemoteReset - 1;
    }

    method IncNumResetStreams(ghost slab: Slab)
      requires CanIncNumResetStreams() && Accurate(slab)
      modifies `numLocalReset
      ensures Accurate(slab) && numLocalReset > |Held(slab)|
    {
      numLocalReset := numLocalReset + 1;
    }

    method IncNumRecvStreams(store: Store, key: Key)
      requires Resolves(store.slab, key) && CanIncNumRecvStreams() && !store.slab[key.index].isCounted
      requires Accurate(store.slab) && !IsLocalInit(isServer, key.streamId)
      modifies `numRecv, store`slab
      ensures Accurate(store.slab) && numRecv == old(numRecv) + 1
      ensures store.slab == old(store.slab)[key.index := old(store.slab)[key.index].(isCounted := true)]
    {
      hide Counted, Held, AbandonedIn;
      ghost var s := store.slab[key.index].(isCounted := true);
      CountChange(store.slab, isServer, true, key.index, s);
      CountChange(store.slab, isServer, false, key.index, s);
      HeldChange(store.slab, key.index, s);
      AbandonedChange(store.slab, key.index, s);
      numRecv := numRecv + 1;
      store.slab := store.slab[key.index := store.slab[key.index].(isCounted := true)];
    }

    method IncNumSendStreams(store: Store, key: Key)
      requires Resolves(store.slab, key) && CanIncNumSendStreams() && !store.slab[key.index].isCounted
      requires Accurate(store.slab) && IsLocalInit(isServer, key.streamId)
      modifies `numSend, store`slab
      ensures Accurate(store.slab) && numSend == old(numSend) + 1
      ensures store.slab == old(store.slab)[key.index := old(store.slab)[key.index].(isCounted := true)]
    {
      hide Counted, Held, AbandonedIn;
      ghost var s := store.slab[key.index].(isCounted := true);
      CountChange(store.slab, isServer, true, key.index, s);
      CountChange(store.slab, isServer, false, key.index, s);
      HeldChange(store.slab, key.index, s);
      AbandonedChange(store.slab, key.index, s);
      numSend := numSend + 1;
      store.slab := store.slab[key.index := store.slab[key.index].(isCounted := true)];
    }

    /** The counter of a counted stream is never zero. */
    method DecNumStreams(store: Store, key: Key)
      requires Resolves(store.slab, key) && store.slab[key.index].isCounted && Accurate(store.slab)
      modifies `numSend, `numRecv, store`slab
      ensures Accurate(store.slab)
      ensures store.slab == old(store.slab)[key.index := old(store.slab)[key.index].(isCounted := false)]
    {
      hide Counted, Held, AbandonedIn;
      ghost var s := store.slab[key.index].(isCounted := false);
      CountChange(store.slab, isServer, true, key.index, s);
      CountChange(store.slab, isServer, false, key.index, s);
      HeldChange(store.slab, key.index, s);
      AbandonedChange(store.slab, key.index, s);
      if IsLocalInit(isServer, store.slab[key.index].id) {
        assert numSend > 0;
        numSend := numSend - 1;
      } else {
        assert numRecv > 0;
        numRecv := numRecv - 1;
      }
      store.slab := store.slab[key.index := store.slab[key.index].(isCounted := false)];
    }

    /** Cleans up after an action on a stream: forgets, discounts and removes it as far as it is done with. */
    method TransitionAfter(store: Store, key: Key, isResetCounted: bool)
      requires IdsOk(store.ids, store.slab) && Resolves(store.slab, key) && Accurate(store.slab)
      requires ResetQueued(store.slab[key.index])
      requires isResetCounted && ResetExpire !in store.slab[key.index].queued ==> numLocalReset > |Held(store.slab)|
      modifies `numSend, `numRecv, `numLocalReset, store`slab, store`ids
      ensures IdsOk(store.ids, store.slab) && Accurate(store.slab)
      ensures store.slab == Settle(old(store.slab), key.index)
      ensures !old(store.slab)[key.index].IsClosed() ==> unchanged(this)
      ensures key.index !in store.slab ==> !Settled(old(store.slab)[key.index]).isCounted
      ensures store.ids == if Forgotten(old(store.slab)[key.index])
              then Unlinked(old(store.ids), key.streamId) else old(store.ids)
    {
      hide Counted, Held, AbandonedIn, IdsOk, FindId, Unlinked;
      ghost var s := store.slab[key.index];
      if store.slab[key.index].IsClosed() {
        if ResetExpire !in store.slab[key.index].queued {
          store.Unlink(key);
          if isResetCounted {
            assert numLocalReset > 0;
            numLocalReset := numLocalReset - 1;
          }
        }
        if !store.slab[key.index].state.IsScheduledReset() && store.slab[key.index].isCounted {
          DecNumStreams(store, key);
          IdsBody(store.ids, old(store.slab), key.index, store.slab[key.index]);
        }
      }
      SameEntry(old(store.slab), key.index);
      assert store.slab == old(store.slab)[key.index := Settled(s)];
      if store.slab[key.index].IsReleased() {
        CountRemove(store.slab, isServer, true, key.index);
        CountRemove(store.slab, isServer, false, key.index);
        HeldRemove(store.slab, key.index);
        RemoveUpdated(old(store.slab), key.index, Settled(s));
        var _ := store.Remove(key);
      }
    }
  }

  lemma SameEntry(slab: Slab, k: nat)
    requires k in slab
    ensures slab[k := slab[k]] == slab
  {
  }

  lemma RemoveUpdated(slab: Slab, k: nat, s: Stream)
    ensures slab[k := s] - {k} == slab - {k}
  {
  }

  /** The id map does not depend on anything but ids. */
  lemma IdsBody(ids: Ids, slab: Slab, k: nat, s: Stream)
    requires k in slab && s.id == slab[k].id
    ensures IdsOk(ids, slab) <==> IdsOk(ids, slab[k := s])
  {
  }
}
