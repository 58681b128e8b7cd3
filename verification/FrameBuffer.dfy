/** Many frame deques threaded through the slots of one shared slab. */
module FrameBuffer {
  import opened Errors

  datatype Slot<T> = Slot(value: T, next: Option<nat>)

  datatype Indices = Indices(head: nat, tail: nat)

  type Slab<T> = map<nat, Slot<T>>

  lemma {:induction false} VacantKey(keys: set<nat>)
    ensures exists key: nat :: key !in keys
  {
    var bound := Above(keys);
    assert bound !in keys;
  }

  lemma {:induction false} Above(keys: set<nat>) returns (bound: nat)
    ensures forall k :: k in keys ==> k < bound
  {
    bound := 0;
    if k :| k in keys {
      var rest := Above(keys - {k});
      assert forall j :: j in keys ==> j == k || j in keys - {k};
      bound := if rest <= k then k + 1 else rest;
    }
  }

  // ===== chains =====

  ghost predicate NoRepeats(keys: seq<nat>) {
    forall i, j :: 0 <= i < j < |keys| ==> keys[i] != keys[j]
  }

  /** The slots at `keys` link to each other in order, and the last one to none. */
  ghost predicate Chain<T>(slab: Slab<T>, keys: seq<nat>) {
    && NoRepeats(keys)
    && (forall k :: k in keys ==> k in slab)
    && forall i :: 0 <= i < |keys| ==> Linked(slab, keys, i)
  }

  ghost predicate Linked<T>(slab: Slab<T>, keys: seq<nat>, i: nat)
    requires i < |keys| && keys[i] in slab
  {
    slab[keys[i]].next == if i + 1 < |keys| then Some(keys[i + 1]) else None
  }

  ghost function Values<T>(slab: Slab<T>, keys: seq<nat>): (r: seq<T>)
    requires forall k :: k in keys ==> k in slab
    ensures |r| == |keys|
  {
    seq(|keys|, i requires 0 <= i < |keys| => slab[keys[i]].value)
  }

  lemma ChainKeys<T>(slab: Slab<T>, keys: seq<nat>)
    requires Chain(slab, keys)
    ensures forall k :: k in keys ==> k in slab
  {
  }

  /** A chain none of whose slots changes stays as it is. */
  lemma ChainFrame<T>(slab: Slab<T>, slab': Slab<T>, keys: seq<nat>)
    requires Chain(slab, keys) && forall k :: k in keys ==> k in slab' && slab'[k] == slab[k]
    ensures Chain(slab', keys) && Values(slab', keys) == Values(slab, keys)
  {
    forall i | 0 <= i < |keys|
      ensures Linked(slab', keys, i)
    {
      assert keys[i] in keys && Linked(slab, keys, i);
    }
  }

  /** Linking the tail to a new slot. */
  lemma ChainBack<T>(slab: Slab<T>, keys: seq<nat>, key: nat, v: T)
    requires Chain(slab, keys) && key !in slab
    ensures var added := slab[key := Slot(v, None)];
            var slab' := if keys == [] then added
                         else added[keys[|keys| - 1] := added[keys[|keys| - 1]].(next := Some(key))];
            Chain(slab', keys + [key]) && Values(slab', keys + [key]) == Values(slab, keys) + [v]
  {
    var added := slab[key := Slot(v, None)];
    var slab' := if keys == [] then added
                 else added[keys[|keys| - 1] := added[keys[|keys| - 1]].(next := Some(key))];
    assert forall i :: 0 <= i < |keys| ==> keys[i] in keys;
    forall i | 0 <= i < |keys| + 1
      ensures Linked(slab', keys + [key], i)
    {
      assert i < |keys| ==> Linked(slab, keys, i);
    }
  }

  /** Linking a new slot to the head. */
  lemma ChainFront<T>(slab: Slab<T>, keys: seq<nat>, key: nat, v: T)
    requires Chain(slab, keys) && key !in slab
    ensures var slab' := slab[key := Slot(v, if keys == [] then None else Some(keys[0]))];
            Chain(slab', [key] + keys) && Values(slab', [key] + keys) == [v] + Values(slab, keys)
  {
    var slab' := slab[key := Slot(v, if keys == [] then None else Some(keys[0]))];
    assert forall i :: 0 <= i < |keys| ==> keys[i] in keys;
    forall i | 0 <= i < |keys| + 1
      ensures Linked(slab', [key] + keys, i)
    {
      assert i > 0 ==> Linked(slab, keys, i - 1);
    }
  }

  /** Removing the head. */
  lemma ChainPop<T>(slab: Slab<T>, keys: seq<nat>)
    requires Chain(slab, keys) && keys != []
    ensures var slab' := slab - {keys[0]};
            && Chain(slab', keys[1..])
            && Values(slab, keys) == [slab[keys[0]].value] + Values(slab', keys[1..])
  {
    var rest := keys[1..];
    assert forall i :: 0 <= i < |rest| ==> rest[i] == keys[i + 1] && rest[i] in keys;
    forall i | 0 <= i < |rest|
      ensures Linked(slab - {keys[0]}, rest, i)
    {
      assert Linked(slab, keys, i + 1);
    }
  }

  /** The head links to the second slot, and is the tail exactly when there is none. */
  lemma ChainHead<T>(slab: Slab<T>, keys: seq<nat>)
    requires Chain(slab, keys) && keys != []
    ensures keys[0] in slab && slab[keys[0]].next == if |keys| > 1 then Some(keys[1]) else None
    ensures keys[0] == keys[|keys| - 1] <==> |keys| == 1
    ensures forall k :: k in keys <==> k == keys[0] || k in keys[1..]
    ensures keys[0] !in keys[1..]
  {
    assert Linked(slab, keys, 0);
  }

  // ===== many chains in one slab =====

  ghost predicate Apart(a: seq<nat>, b: seq<nat>) {
    forall k :: k in a ==> k !in b
  }

  /** Each list of keys is a chain, no slot is in two of them, and every slot is in one. */
  ghost predicate Partition<T>(slab: Slab<T>, lists: seq<seq<nat>>) {
    && (forall i :: 0 <= i < |lists| ==> Chain(slab, lists[i]))
    && (forall i, j :: 0 <= i < j < |lists| ==> Apart(lists[i], lists[j]))
    && (forall k :: k in slab ==> Covered(lists, k))
  }

  ghost predicate Covered(lists: seq<seq<nat>>, k: nat) {
    exists i :: 0 <= i < |lists| && k in lists[i]
  }

  /** The values along each list. */
  ghost function AllValues<T>(slab: Slab<T>, lists: seq<seq<nat>>): (r: seq<seq<T>>)
    requires Partition(slab, lists)
    ensures |r| == |lists| && forall i :: 0 <= i < |r| ==> |r[i]| == |lists[i]|
  {
    PartitionKeys(slab, lists);
    seq(|lists|, i requires 0 <= i < |lists| => Values(slab, lists[i]))
  }

  lemma PartitionKeys<T>(slab: Slab<T>, lists: seq<seq<nat>>)
    requires Partition(slab, lists)
    ensures forall i :: 0 <= i < |lists| ==> Chain(slab, lists[i]) && forall k :: k in lists[i] ==> k in slab
  {
    forall i | 0 <= i < |lists|
      ensures forall k :: k in lists[i] ==> k in slab
    {
      ChainKeys(slab, lists[i]);
    }
  }

  lemma ApartFrom<T>(lists: seq<seq<nat>>, slab: Slab<T>, me: nat, i: nat)
    requires Partition(slab, lists) && me < |lists| && i < |lists| && i != me
    ensures Apart(lists[me], lists[i]) && Apart(lists[i], lists[me])
  {
    if me < i {
      assert Apart(lists[me], lists[i]);
    } else {
      assert Apart(lists[i], lists[me]);
    }
  }

  /** Changing one chain, and no slot of another, leaves the others as they were. */
  lemma ReplaceChain<T>(slab: Slab<T>, slab': Slab<T>, lists: seq<seq<nat>>, me: nat, keys: seq<nat>)
    requires Partition(slab, lists) && me < |lists| && Chain(slab', keys)
    requires forall k :: k in slab && k !in lists[me] ==> k in slab' && slab'[k] == slab[k]
    requires forall k :: k in keys ==> k in lists[me] || k !in slab
    requires forall k :: k in slab' ==> k in keys || (k in slab && k !in lists[me])
    ensures Partition(slab', lists[me := keys])
    ensures |Values(slab, lists[me])| == |lists[me]| && Values(slab, lists[me]) == AllValues(slab, lists)[me]
    ensures AllValues(slab', lists[me := keys]) == AllValues(slab, lists)[me := Values(slab', keys)]
  {
    hide Chain;
    var lists' := lists[me := keys];
    PartitionKeys(slab, lists);
    forall i | 0 <= i < |lists| && i != me
      ensures Apart(lists[i], keys) && Apart(keys, lists[i])
      ensures forall k :: k in lists[i] ==> k in slab' && slab'[k] == slab[k]
    {
      ApartFrom(lists, slab, me, i);
    }
    forall i | 0 <= i < |lists| && i != me
      ensures Chain(slab', lists[i]) && Values(slab', lists[i]) == Values(slab, lists[i])
    {
      ChainFrame(slab, slab', lists[i]);
    }
    forall k | k in slab'
      ensures Covered(lists', k)
    {
      if k in keys {
        assert k in lists'[me];
      } else {
        var i :| 0 <= i < |lists| && k in lists[i];
        assert k in lists'[i];
      }
    }
  }

  lemma NewChain<T>(slab: Slab<T>, lists: seq<seq<nat>>)
    requires Partition(slab, lists)
    ensures Partition(slab, lists + [[]]) && AllValues(slab, lists + [[]]) == AllValues(slab, lists) + [[]]
  {
    hide Values;
    var lists' := lists + [[]];
    PartitionKeys(slab, lists);
    forall k | k in slab
      ensures Covered(lists', k)
    {
      var i :| 0 <= i < |lists| && k in lists[i];
      assert k in lists'[i];
    }
    forall i | 0 <= i < |lists'|
      ensures Chain(slab, lists'[i])
    {
      assert i < |lists| ==> lists'[i] == lists[i];
    }
  }

  ghost function TotalLength(lists: seq<seq<nat>>): nat {
    if lists == [] then 0 else |lists[0]| + TotalLength(lists[1..])
  }

  ghost function Elements(keys: seq<nat>): set<nat> {
    set k | k in keys
  }

  ghost function KeySet(lists: seq<seq<nat>>): set<nat> {
    if lists == [] then {} else Elements(lists[0]) + KeySet(lists[1..])
  }

  lemma TailApart(keys: seq<nat>)
    requires NoRepeats(keys) && keys != []
    ensures NoRepeats(keys[1..]) && keys[0] !in keys[1..]
    ensures forall k :: k in keys <==> k == keys[0] || k in keys[1..]
  {
    assert forall i :: 0 <= i < |keys| - 1 ==> keys[1..][i] == keys[i + 1];
  }

  lemma UnionSize(a: set<nat>, b: set<nat>)
    requires forall k :: k in a ==> k !in b
    ensures |a + b| == |a| + |b|
  {
    assert a * b == {};
  }

  lemma {:induction false} SetOfKeys(keys: seq<nat>)
    requires NoRepeats(keys)
    ensures |Elements(keys)| == |keys|
  {
    if keys == [] {
      assert Elements(keys) == {};
    } else {
      TailApart(keys);
      SetOfKeys(keys[1..]);
      assert Elements(keys) == {keys[0]} + Elements(keys[1..]);
      UnionSize({keys[0]}, Elements(keys[1..]));
    }
  }

  /** What the first list covers and what the others cover are disjoint. */
  lemma CoveredSplit(lists: seq<seq<nat>>, k: nat)
    requires lists != [] && forall i, j :: 0 <= i < j < |lists| ==> Apart(lists[i], lists[j])
    ensures Covered(lists, k) <==> k in lists[0] || Covered(lists[1..], k)
    ensures !(k in lists[0] && Covered(lists[1..], k))
  {
    assert forall i :: 0 <= i < |lists| - 1 ==> lists[1..][i] == lists[i + 1];
  }

  lemma {:induction false} CountKeys(lists: seq<seq<nat>>)
    requires forall i :: 0 <= i < |lists| ==> NoRepeats(lists[i])
    requires forall i, j :: 0 <= i < j < |lists| ==> Apart(lists[i], lists[j])
    ensures |KeySet(lists)| == TotalLength(lists)
    ensures forall k :: k in KeySet(lists) <==> Covered(lists, k)
  {
    hide NoRepeats, Apart, Covered;
    if lists == [] {
      NothingCovered();
    } else {
      var first, rest := Elements(lists[0]), lists[1..];
      CountKeys(rest);
      SetOfKeys(lists[0]);
      forall k: nat
        ensures Covered(lists, k) <==> k in lists[0] || Covered(rest, k)
        ensures !(k in lists[0] && Covered(rest, k))
      {
        CoveredSplit(lists, k);
      }
      assert forall k :: k in first ==> k !in KeySet(rest);
      UnionSize(first, KeySet(rest));
    }
  }

  lemma NothingCovered()
    ensures forall k :: !Covered([], k)
  {
  }

  /** The slab holds exactly the frames of all the deques. */
  lemma Occupancy<T>(slab: Slab<T>, lists: seq<seq<nat>>)
    requires Partition(slab, lists)
    ensures |slab| == TotalLength(lists)
  {
    CountKeys(lists);
    forall k | Covered(lists, k)
      ensures k in slab
    {
      var i :| 0 <= i < |lists| && k in lists[i];
      ChainKeys(slab, lists[i]);
    }
    assert slab.Keys == KeySet(lists);
    assert |slab| == |slab.Keys|;
  }

  // ===== the buffer and its deques =====

  /** `indices` holds the ends of the list. */
  ghost predicate Ends(indices: Option<Indices>, keys: seq<nat>) {
    if keys == [] then indices.None? else indices == Some(Indices(keys[0], keys[|keys| - 1]))
  }

  class Buffer<T(!new)> {
    var slab: Slab<T>
    /** The deques made so far, and the slots of each in order. */
    ghost var deques: seq<Deque>
    ghost var lists: seq<seq<nat>>

    ghost predicate Valid()
      reads this, deques
    {
      && |lists| == |deques| && Partition(slab, lists)
      && forall i :: 0 <= i < |deques| ==> deques[i].id == i && Ends(deques[i].indices, lists[i])
    }

    /** The frames of every deque. */
    ghost function Contents(): seq<seq<T>>
      requires Partition(slab, lists)
      reads this
    {
      AllValues(slab, lists)
    }

    constructor ()
      ensures Valid() && Contents() == []
    {
      slab, deques, lists := map[], [], [];
    }

    method IsEmpty() returns (b: bool)
      requires Valid()
      ensures b <==> TotalLength(lists) == 0
    {
      Occupancy(slab, lists);
      b := slab == map[];
    }

    /** Stores a slot at some vacant key. */
    method Insert(slot: Slot<T>) returns (key: nat)
      modifies `slab
      ensures key !in old(slab) && slab == old(slab)[key := slot]
    {
      VacantKey(slab.Keys);
      key :| key !in slab;
      slab := slab[key := slot];
    }

    method Remove(key: nat) returns (slot: Slot<T>)
      requires key in slab
      modifies `slab
      ensures slot == old(slab)[key] && slab == old(slab) - {key}
    {
      slot := slab[key];
      slab := slab - {key};
    }
  }

  class Deque {
    var indices: Option<Indices>
    /** The position of the deque among those of its buffer. */
    ghost const id: nat

    constructor <T(!new)>(ghost buf: Buffer<T>)
      requires buf.Valid()
      modifies buf
      ensures buf.Valid() && In(buf) && buf.Contents() == old(buf.Contents()) + [[]]
    {
      indices := None;
      id := |buf.lists|;
      new;
      NewChain(buf.slab, buf.lists);
      buf.deques := buf.deques + [this];
      buf.lists := buf.lists + [[]];
    }

    ghost predicate In<T(!new)>(buf: Buffer<T>)
      reads buf
    {
      id < |buf.deques| && buf.deques[id] == this
    }

    method IsEmpty<T(!new)>(ghost buf: Buffer<T>) returns (b: bool)
      requires buf.Valid() && In(buf)
      ensures b <==> buf.Contents()[id] == []
    {
      b := indices.None?;
    }

    method PushBack<T(!new)>(buf: Buffer<T>, value: T)
      requires buf.Valid() && In(buf)
      modifies this, buf
      ensures buf.Valid() && In(buf)
      ensures buf.Contents() == old(buf.Contents())[id := old(buf.Contents())[id] + [value]]
    {
      hide Partition, AllValues, Chain, Values, Linked;
      ghost var slab, lists, keys := buf.slab, buf.lists, buf.lists[id];
      PartitionKeys(slab, lists);
      var key := buf.Insert(Slot(value, None));
      ChainBack(slab, keys, key, value);
      match indices {
        case Some(idxs) =>
          buf.slab := buf.slab[idxs.tail := buf.slab[idxs.tail].(next := Some(key))];
          indices := Some(idxs.(tail := key));
        case None =>
          indices := Some(Indices(key, key));
      }
      ReplaceChain(slab, buf.slab, lists, id, keys + [key]);
      buf.lists := lists[id := keys + [key]];
    }

    method PushFront<T(!new)>(buf: Buffer<T>, value: T)
      requires buf.Valid() && In(buf)
      modifies this, buf
      ensures buf.Valid() && In(buf)
      ensures buf.Contents() == old(buf.Contents())[id := [value] + old(buf.Contents())[id]]
    {
      hide Partition, AllValues, Chain, Values, Linked;
      ghost var slab, lists, keys := buf.slab, buf.lists, buf.lists[id];
      PartitionKeys(slab, lists);
      var key := buf.Insert(Slot(value, None));
      ChainFront(slab, keys, key, value);
      match indices {
        case Some(idxs) =>
          buf.slab := buf.slab[key := buf.slab[key].(next := Some(idxs.head))];
          assert buf.slab == slab[key := Slot(value, Some(idxs.head))];
          indices := Some(idxs.(head := key));
        case None =>
          indices := Some(Indices(key, key));
      }
      ReplaceChain(slab, buf.slab, lists, id, [key] + keys);
      buf.lists := lists[id := [key] + keys];
    }

    method PopFront<T(!new)>(buf: Buffer<T>) returns (r: Option<T>)
      requires buf.Valid() && In(buf)
      modifies this, buf
      ensures buf.Valid() && In(buf)
      ensures match r
              case None => old(buf.Contents())[id] == [] && buf.Contents() == old(buf.Contents())
              case Some(v) =>
                && old(buf.Contents())[id] != [] && v == old(buf.Contents())[id][0]
                && buf.Contents() == old(buf.Contents())[id := old(buf.Contents())[id][1..]]
    {
      hide Partition, AllValues, Chain, Values, Linked;
      ghost var slab, lists, keys := buf.slab, buf.lists, buf.lists[id];
      PartitionKeys(slab, lists);
      match indices
      case None =>
        return None;
      case Some(idxs) =>
        ChainPop(slab, keys);
        ChainHead(slab, keys);
        var slot := buf.Remove(idxs.head);
        if idxs.head == idxs.tail {
          indices := None;
        } else {
          indices := Some(idxs.(head := slot.next.value));
        }
        ReplaceChain(slab, buf.slab, lists, id, keys[1..]);
        assert Values(slab, keys)[1..] == Values(buf.slab, keys[1..]);
        buf.lists := lists[id := keys[1..]];
        return Some(slot.value);
    }
  }
}
