/** The store of streams, and the six intrusive queues threaded through its entries. */
module StreamStore {
  import opened Errors
  import opened StreamState
  import FrameBuffer

  type Bytes = seq<nat>

  /** A slab index guarded by the stream's id, as an index may be used again. */
  datatype Key = Key(index: nat, streamId: nat)

  datatype Frame = Headers(eos: bool) | Data(payload: Bytes, eos: bool) | RstStream(reason: nat)

  /** The six queues a stream can be in. */
  datatype Which = Accept | Complete | Send | Capacity | Open | ResetExpire

  /**
   A stream. `queued` holds the queues whose `is_pending_*` flag is set, and for ResetExpire whether `reset_at`
   is set; `frames` is its deque of frames to send.
   */
  datatype Stream = Stream(
    id: nat,
    state: State,
    refCount: nat,
    isCounted: bool,
    sendFlow: int,
    remaining: Option<nat>,
    connWindow: nat,
    frames: seq<Frame>,
    isSendingTrailer: bool,
    queued: set<Which>)
  {
    predicate IsClosed() {
      state.Closed? && frames == [] && remaining.None?
    }

    /** Nothing refers to the stream any more. */
    predicate IsReleased() {
      IsClosed() && refCount == 0 && queued == {}
    }
  }

  function NewStream(id: nat, initSendWindow: nat): Stream {
    Stream(id, Idle, 0, false, initSendWindow, None, 0, [], false, {})
  }

  type Slab = map<nat, Stream>
  /** The six `next_*` fields of the streams, kept beside the slab. */
  type Links = map<(nat, Which), Key>
  /** The index map from stream ids to slab indices, in its internal order. */
  type Ids = seq<(nat, nat)>

  predicate Resolves(slab: Slab, key: Key) {
    key.index in slab && slab[key.index].id == key.streamId
  }

  // ===== the id map =====

  ghost predicate IdsOk(ids: Ids, slab: Slab) {
    && (forall i, j :: 0 <= i < j < |ids| ==> ids[i].0 != ids[j].0)
    && (forall i :: 0 <= i < |ids| ==> Resolves(slab, Key(ids[i].1, ids[i].0)))
  }

  function FindId(ids: Ids, id: nat): (r: Option<nat>)
    ensures r.Some? ==> r.value < |ids| && ids[r.value].0 == id
    ensures r.None? ==> forall i :: 0 <= i < |ids| ==> ids[i].0 != id
  {
    if ids == [] then None
    else if ids[|ids| - 1].0 == id then Some(|ids| - 1)
    else FindId(ids[..|ids| - 1], id)
  }

  /** Removing an entry moves the last one into its place. */
  function SwapRemove(ids: Ids, p: nat): (r: Ids)
    requires p < |ids|
    ensures |r| == |ids| - 1
  {
    var last := |ids| - 1;
    if p == last then ids[..last] else ids[..last][p := ids[last]]
  }

  lemma SwapRemoveKeeps(ids: Ids, p: nat, slab: Slab)
    requires p < |ids| && IdsOk(ids, slab)
    ensures IdsOk(SwapRemove(ids, p), slab)
    ensures forall x :: x in SwapRemove(ids, p) <==> x in ids && x != ids[p]
    ensures FindId(SwapRemove(ids, p), ids[p].0) == None
  {
    var r, last := SwapRemove(ids, p), |ids| - 1;
    assert forall i :: 0 <= i < |r| ==> r[i] == if i == p then ids[last] else ids[i];
    assert forall x :: x in ids && x != ids[p] ==> x in r by {
      forall x | x in ids && x != ids[p]
        ensures x in r
      {
        var i :| 0 <= i < |ids| && ids[i] == x;
        assert r[if i == last then p else i] == x;
      }
    }
  }

  /** The map without an id. */
  function Unlinked(ids: Ids, id: nat): (r: Ids)
    ensures |ids| - 1 <= |r| <= |ids|
  {
    match FindId(ids, id)
    case None => ids
    case Some(p) => SwapRemove(ids, p)
  }

  lemma UnlinkedKeeps(ids: Ids, id: nat, slab: Slab)
    requires IdsOk(ids, slab)
    ensures IdsOk(Unlinked(ids, id), slab) && FindId(Unlinked(ids, id), id).None?
    ensures forall x :: x in Unlinked(ids, id) <==> x in ids && x.0 != id
  {
    var p := FindId(ids, id);
    if p.Some? {
      SwapRemoveKeeps(ids, p.value, slab);
      UniqueId(ids, slab, p.value);
    }
  }

  // ===== queues as lists =====

  ghost predicate NoRepeats(items: seq<Key>) {
    forall i, j :: 0 <= i < j < |items| ==> items[i].index != items[j].index
  }

  ghost predicate Listed(items: seq<Key>, k: nat) {
    exists i :: 0 <= i < |items| && items[i].index == k
  }

  /** The link of entry `i` leads to the next one, or is not set. */
  ghost predicate Linked(links: Links, w: Which, items: seq<Key>, i: nat)
    requires i < |items|
  {
    if i + 1 < |items| then (items[i].index, w) in links && links[(items[i].index, w)] == items[i + 1]
    else (items[i].index, w) !in links
  }

  /** The list names exactly the streams whose flag for `w` is set, once each. */
  ghost predicate Members(w: Which, items: seq<Key>, slab: Slab) {
    && NoRepeats(items)
    && (forall i :: 0 <= i < |items| ==> Resolves(slab, items[i]) && w in slab[items[i].index].queued)
    && (forall k :: k in slab && w in slab[k].queued ==> Listed(items, k))
  }

  /** The links follow the list, and only listed streams have one. */
  ghost predicate Threaded(w: Which, items: seq<Key>, links: Links) {
    && (forall i :: 0 <= i < |items| ==> Linked(links, w, items, i))
    && (forall k :: (k, w) in links ==> Listed(items, k))
  }

  /** Queue `w` is the given list of streams, in the order of the links. */
  ghost predicate QueueOk(w: Which, items: seq<Key>, slab: Slab, links: Links) {
    Members(w, items, slab) && Threaded(w, items, links)
  }

  /** A stream with its flag for `w` set or cleared. */
  function Flag(slab: Slab, k: nat, w: Which, on: bool): Slab
    requires k in slab
  {
    slab[k := slab[k].(queued := if on then slab[k].queued + {w} else slab[k].queued - {w})]
  }

  /** Links of other queues have not changed. */
  ghost predicate SameLinks(w: Which, links: Links, links': Links) {
    forall k, v: Which :: v != w ==>
      (((k, v) in links <==> (k, v) in links') && ((k, v) in links ==> links'[(k, v)] == links[(k, v)]))
  }

  /** Work on one queue leaves the others as they were. */
  lemma OtherQueue(w: Which, v: Which, items: seq<Key>, slab: Slab, links: Links, links': Links, k: nat, on: bool)
    requires v != w && QueueOk(v, items, slab, links) && SameLinks(w, links, links') && k in slab
    ensures QueueOk(v, items, Flag(slab, k, w, on), links')
  {
    var slab' := Flag(slab, k, w, on);
    assert forall j :: j in slab ==> (v in slab'[j].queued <==> v in slab[j].queued) && slab'[j].id == slab[j].id;
    forall i | 0 <= i < |items|
      ensures Linked(links', v, items, i)
    {
      assert Linked(links, v, items, i);
    }
  }

  lemma NotListed(w: Which, items: seq<Key>, slab: Slab, k: nat)
    requires Members(w, items, slab) && k in slab && w !in slab[k].queued
    ensures !Listed(items, k)
  {
  }

  lemma MembersBack(w: Which, items: seq<Key>, slab: Slab, key: Key)
    requires Members(w, items, slab) && Resolves(slab, key) && w !in slab[key.index].queued
    ensures Members(w, items + [key], Flag(slab, key.index, w, true))
  {
    NotListed(w, items, slab, key.index);
    ListedSnoc(items, key);
  }

  lemma MembersFront(w: Which, items: seq<Key>, slab: Slab, key: Key)
    requires Members(w, items, slab) && Resolves(slab, key) && w !in slab[key.index].queued
    ensures Members(w, [key] + items, Flag(slab, key.index, w, true))
  {
    NotListed(w, items, slab, key.index);
    ListedSnoc(items, key);
  }

  lemma PushBackOk(w: Which, items: seq<Key>, slab: Slab, links: Links, key: Key)
    requires QueueOk(w, items, slab, links) && Resolves(slab, key) && w !in slab[key.index].queued
    ensures var links' := if items == [] then links else links[(items[|items| - 1].index, w) := key];
            QueueOk(w, items + [key], Flag(slab, key.index, w, true), links') && SameLinks(w, links, links')
  {
    hide Members, Flag;
    NotListed(w, items, slab, key.index);
    MembersBack(w, items, slab, key);
    MembersDistinct(w, items, slab);
    ThreadedBack(w, items, links, key);
  }

  lemma MembersDistinct(w: Which, items: seq<Key>, slab: Slab)
    requires Members(w, items, slab)
    ensures NoRepeats(items)
  {
  }

  lemma ThreadedBack(w: Which, items: seq<Key>, links: Links, key: Key)
    requires Threaded(w, items, links) && NoRepeats(items) && !Listed(items, key.index)
    ensures var links' := if items == [] then links else links[(items[|items| - 1].index, w) := key];
            Threaded(w, items + [key], links') && SameLinks(w, links, links')
  {
    var links' := if items == [] then links else links[(items[|items| - 1].index, w) := key];
    var items' := items + [key];
    forall i | 0 <= i < |items'|
      ensures Linked(links', w, items', i)
    {
      assert i < |items| ==> Linked(links, w, items, i);
    }
    ListedSnoc(items, key);
    assert items != [] ==> Listed(items, items[|items| - 1].index);
  }

  lemma ListedSnoc(items: seq<Key>, key: Key)
    ensures forall k :: Listed(items + [key], k) <==> k == key.index || Listed(items, k)
    ensures forall k :: Listed([key] + items, k) <==> k == key.index || Listed(items, k)
  {
    forall k
      ensures Listed(items + [key], k) <==> k == key.index || Listed(items, k)
      ensures Listed([key] + items, k) <==> k == key.index || Listed(items, k)
    {
      assert (items + [key])[|items|] == key && ([key] + items)[0] == key;
      assert forall i :: 0 <= i < |items| ==> (items + [key])[i] == items[i] == ([key] + items)[i + 1];
    }
  }

  lemma PushFrontOk(w: Which, items: seq<Key>, slab: Slab, links: Links, key: Key)
    requires QueueOk(w, items, slab, links) && Resolves(slab, key) && w !in slab[key.index].queued
    ensures var links' := if items == [] then links else links[(key.index, w) := items[0]];
            QueueOk(w, [key] + items, Flag(slab, key.index, w, true), links') && SameLinks(w, links, links')
  {
    hide Members, Flag;
    NotListed(w, items, slab, key.index);
    MembersFront(w, items, slab, key);
    ThreadedFront(w, items, links, key);
  }

  lemma ThreadedFront(w: Which, items: seq<Key>, links: Links, key: Key)
    requires Threaded(w, items, links) && !Listed(items, key.index)
    ensures var links' := if items == [] then links else links[(key.index, w) := items[0]];
            Threaded(w, [key] + items, links') && SameLinks(w, links, links')
  {
    var links' := if items == [] then links else links[(key.index, w) := items[0]];
    var items' := [key] + items;
    forall i | 0 <= i < |items'|
      ensures Linked(links', w, items', i)
    {
      if i > 0 {
        assert Linked(links, w, items, i - 1);
        assert Listed(items, items[i - 1].index);
      }
    }
    ListedSnoc(items, key);
  }

  lemma PopOk(w: Which, items: seq<Key>, slab: Slab, links: Links)
    requires QueueOk(w, items, slab, links) && items != []
    ensures var k := items[0].index;
            && Resolves(slab, items[0]) && w in slab[k].queued && Linked(links, w, items, 0)
            && (items[0] == items[|items| - 1] <==> |items| == 1)
            && QueueOk(w, items[1..], Flag(slab, k, w, false), links - {(k, w)})
            && SameLinks(w, links, links - {(k, w)})
  {
    MembersPop(w, items, slab);
    MembersDistinct(w, items, slab);
    hide Members, Flag;
    ThreadedPop(w, items, links);
  }

  lemma MembersPop(w: Which, items: seq<Key>, slab: Slab)
    requires Members(w, items, slab) && items != []
    ensures Resolves(slab, items[0]) && w in slab[items[0].index].queued
    ensures Members(w, items[1..], Flag(slab, items[0].index, w, false))
    ensures !Listed(items[1..], items[0].index)
  {
    var key, rest := items[0], items[1..];
    assert [key] + rest == items;
    ListedSnoc(rest, key);
    assert !Listed(rest, key.index);
  }

  lemma ThreadedPop(w: Which, items: seq<Key>, links: Links)
    requires Threaded(w, items, links) && NoRepeats(items) && items != []
    ensures var k := items[0].index;
            && Linked(links, w, items, 0)
            && Threaded(w, items[1..], links - {(k, w)}) && SameLinks(w, links, links - {(k, w)})
  {
    var key, rest := items[0], items[1..];
    assert [key] + rest == items;
    ListedSnoc(rest, key);
    forall i | 0 <= i < |rest|
      ensures Linked(links - {(key.index, w)}, w, rest, i)
    {
      assert Linked(links, w, items, i + 1);
    }
  }

  // ===== the store =====

  class Store {
    var slab: Slab
    var links: Links
    var ids: Ids

    constructor ()
      ensures slab == map[] && links == map[] && ids == []
    {
      slab, links, ids := map[], map[], [];
    }

    /** Stores a new stream at some vacant index and maps its id to it. */
    method Insert(id: nat, val: Stream) returns (key: Key)
      requires val.id == id && FindId(ids, id).None? && IdsOk(ids, slab)
      modifies `slab, `ids
      ensures key.streamId == id && key.index !in old(slab)
      ensures slab == old(slab)[key.index := val] && ids == old(ids) + [(id, key.index)] && IdsOk(ids, slab)
    {
      FrameBuffer.VacantKey(slab.Keys);
      var index: nat :| index !in slab;
      slab := slab[index := val];
      ids := ids + [(id, index)];
      key := Key(index, id);
    }

    method FindMut(id: nat) returns (r: Option<Key>)
      requires IdsOk(ids, slab)
      ensures r.Some? <==> exists i :: 0 <= i < |ids| && ids[i].0 == id
      ensures r == match FindId(ids, id) case None => None case Some(p) => Some(Key(ids[p].1, id))
      ensures r.Some? ==> Resolves(slab, r.value) && r.value.streamId == id && (id, r.value.index) in ids
    {
      var p := FindId(ids, id);
      if p.None? {
        return None;
      }
      return Some(Key(ids[p.value].1, id));
    }

    /** Forgets the stream's id; the stream itself stays. */
    method Unlink(key: Key)
      requires IdsOk(ids, slab)
      modifies `ids
      ensures IdsOk(ids, slab) && FindId(ids, key.streamId).None? && ids == Unlinked(old(ids), key.streamId)
      ensures forall x :: x in ids <==> x in old(ids) && x.0 != key.streamId
    {
      UnlinkedKeeps(ids, key.streamId, slab);
      var p := FindId(ids, key.streamId);
      if p.Some? {
        ids := SwapRemove(ids, p.value);
      }
    }

    /**
     Visits every stream. The closure is given by what matters of it: for which streams it fails, and for which
     it forgets the id of the stream it is visiting.
     */
    method TryForEach(fails: Key -> bool, unlinks: Key -> bool) returns (visited: seq<Key>, ok: bool)
      requires IdsOk(ids, slab)
      modifies `ids
      ensures IdsOk(ids, slab)
      ensures forall i, j :: 0 <= i < j < |visited| ==> visited[i] != visited[j]
      ensures forall key :: key in visited ==> (key.streamId, key.index) in old(ids)
      ensures ok ==> forall x :: x in old(ids) ==> Key(x.1, x.0) in visited
      ensures ok ==> forall x :: x in ids <==> x in old(ids) && !unlinks(Key(x.1, x.0))
      ensures !ok ==> visited != [] && fails(visited[|visited| - 1])
      ensures forall i :: 0 <= i < |visited| && (ok || i < |visited| - 1) ==> !fails(visited[i])
    {
      hide IdsOk, SwapRemove, FindId;
      var len := |ids|;
      var i := 0;
      visited := [];
      VisitStart(ids, unlinks);
      while i < len
        invariant i <= len == |ids| && IdsOk(ids, slab)
        invariant Visiting(old(ids), ids, i, visited, unlinks)
        invariant forall key :: key in visited ==> !fails(key)
        decreases len - i
      {
        VisitNext(slab, old(ids), ids, i, visited, unlinks);
        var key := Key(ids[i].1, ids[i].0);
        visited := visited + [key];
        if fails(key) {
          return visited, false;
        }
        if unlinks(key) {
          ids := SwapRemove(ids, i);
        }
        var newLen := |ids|;
        if newLen < len {
          len := len - 1;
        } else {
          i := i + 1;
        }
      }
      VisitEnd(old(ids), ids, visited, unlinks);
      return visited, true;
    }

    /** Removes a stream whose id has been forgotten. */
    method Remove(key: Key) returns (id: nat)
      requires IdsOk(ids, slab) && Resolves(slab, key) && FindId(ids, key.streamId).None?
      modifies `slab
      ensures id == key.streamId && slab == old(slab) - {key.index} && IdsOk(ids, slab)
    {
      id := slab[key.index].id;
      slab := slab - {key.index};
    }
  }

  /** Streams are visited once, and what is still ahead has not been visited. */
  ghost predicate Visiting(before: Ids, ids: Ids, i: nat, visited: seq<Key>, unlinks: Key -> bool) {
    && i <= |ids|
    && (forall a, b :: 0 <= a < b < |visited| ==> visited[a] != visited[b])
    && (forall key :: key in visited ==> (key.streamId, key.index) in before)
    && (forall j :: i <= j < |ids| ==> ids[j] in before && Key(ids[j].1, ids[j].0) !in visited)
    && (forall j :: 0 <= j < i ==>
       ids[j] in before && Key(ids[j].1, ids[j].0) in visited && !unlinks(Key(ids[j].1, ids[j].0)))
    && (forall x :: x in before && x !in ids ==> Key(x.1, x.0) in visited && unlinks(Key(x.1, x.0)))
  }

  lemma VisitStart(ids: Ids, unlinks: Key -> bool)
    ensures Visiting(ids, ids, 0, [], unlinks)
  {
  }

  /** Visiting the entry at `i` and stepping over it, or swapping the last entry into its place. */
  lemma VisitNext(slab: Slab, before: Ids, ids: Ids, i: nat, visited: seq<Key>, unlinks: Key -> bool)
    requires Visiting(before, ids, i, visited, unlinks) && i < |ids| && IdsOk(ids, slab)
    ensures var key := Key(ids[i].1, ids[i].0);
            && key !in visited && ids[i] in before && IdsOk(SwapRemove(ids, i), slab)
            && if unlinks(key) then Visiting(before, SwapRemove(ids, i), i, visited + [key], unlinks)
               else Visiting(before, ids, i + 1, visited + [key], unlinks)
  {
    hide Visiting, SwapRemove;
    SwapRemoveKeeps(ids, i, slab);
    VisitHere(before, ids, i, visited, unlinks);
    if unlinks(Key(ids[i].1, ids[i].0)) {
      VisitSwap(slab, before, ids, i, visited, unlinks);
    } else {
      VisitPass(slab, before, ids, i, visited, unlinks);
    }
  }

  lemma VisitHere(before: Ids, ids: Ids, i: nat, visited: seq<Key>, unlinks: Key -> bool)
    requires Visiting(before, ids, i, visited, unlinks) && i < |ids|
    ensures Key(ids[i].1, ids[i].0) !in visited && ids[i] in before
  {
  }

  lemma VisitPass(slab: Slab, before: Ids, ids: Ids, i: nat, visited: seq<Key>, unlinks: Key -> bool)
    requires Visiting(before, ids, i, visited, unlinks) && i < |ids| && IdsOk(ids, slab)
    requires !unlinks(Key(ids[i].1, ids[i].0))
    ensures Visiting(before, ids, i + 1, visited + [Key(ids[i].1, ids[i].0)], unlinks)
  {
  }

  lemma VisitSwap(slab: Slab, before: Ids, ids: Ids, i: nat, visited: seq<Key>, unlinks: Key -> bool)
    requires Visiting(before, ids, i, visited, unlinks) && i < |ids| && IdsOk(ids, slab)
    requires unlinks(Key(ids[i].1, ids[i].0))
    ensures Visiting(before, SwapRemove(ids, i), i, visited + [Key(ids[i].1, ids[i].0)], unlinks)
  {
    var key, ids' := Key(ids[i].1, ids[i].0), SwapRemove(ids, i);
    SwapRemoveKeeps(ids, i, slab);
    forall j | i <= j < |ids'|
      ensures ids'[j] in before && Key(ids'[j].1, ids'[j].0) !in visited + [key]
    {
      assert ids'[j] == ids[if j == i then |ids| - 1 else j];
    }
    assert forall j :: 0 <= j < i ==> ids'[j] == ids[j];
  }

  lemma VisitEnd(before: Ids, ids: Ids, visited: seq<Key>, unlinks: Key -> bool)
    requires Visiting(before, ids, |ids|, visited, unlinks)
    ensures forall x :: x in before ==> Key(x.1, x.0) in visited
    ensures forall x :: x in ids <==> x in before && !unlinks(Key(x.1, x.0))
  {
  }

  lemma UniqueId(ids: Ids, slab: Slab, p: nat)
    requires p < |ids| && IdsOk(ids, slab)
    ensures forall x :: x in ids && x.0 == ids[p].0 ==> x == ids[p]
  {
  }

  // ===== the intrusive queue =====

  datatype Indices = Indices(head: Key, tail: Key)

  class Queue {
    const which: Which
    var indices: Option<Indices>
    ghost var items: seq<Key>

    constructor (which: Which)
      ensures this.which == which && items == [] && Ends()
    {
      this.which := which;
      indices, items := None, [];
    }

    ghost predicate Ends()
      reads this
    {
      if items == [] then indices.None? else indices == Some(Indices(items[0], items[|items| - 1]))
    }

    ghost predicate Ok(store: Store)
      reads this, store
    {
      Ends() && QueueOk(which, items, store.slab, store.links)
    }

    /** Appends the stream unless it is in the queue already. */
    method Push(store: Store, key: Key) returns (added: bool)
      requires Ok(store) && Resolves(store.slab, key)
      modifies `indices, `items, store`slab, store`links
      ensures Ok(store) && added == (which !in old(store.slab)[key.index].queued)
      ensures items == if added then old(items) + [key] else old(items)
      ensures store.slab == Flag(old(store.slab), key.index, which, true)
      ensures SameLinks(which, old(store.links), store.links) && (!added ==> store.links == old(store.links))
    {
      hide QueueOk;
      if which in store.slab[key.index].queued {
        FlagAgain(store.slab, key.index, which);
        return false;
      }
      PushBackOk(which, items, store.slab, store.links, key);
      store.slab := Flag(store.slab, key.index, which, true);
      match indices {
        case Some(idxs) =>
          store.links := store.links[(idxs.tail.index, which) := key];
          indices := Some(idxs.(tail := key));
        case None =>
          indices := Some(Indices(key, key));
      }
      items := items + [key];
      return true;
    }

    /** Puts the stream at the head unless it is in the queue already. */
    method PushFront(store: Store, key: Key) returns (added: bool)
      requires Ok(store) && Resolves(store.slab, key)
      modifies `indices, `items, store`slab, store`links
      ensures Ok(store) && added == (which !in old(store.slab)[key.index].queued)
      ensures items == if added then [key] + old(items) else old(items)
      ensures store.slab == Flag(old(store.slab), key.index, which, true)
      ensures SameLinks(which, old(store.links), store.links) && (!added ==> store.links == old(store.links))
    {
      hide QueueOk;
      if which in store.slab[key.index].queued {
        FlagAgain(store.slab, key.index, which);
        return false;
      }
      PushFrontOk(which, items, store.slab, store.links, key);
      store.slab := Flag(store.slab, key.index, which, true);
      match indices {
        case Some(idxs) =>
          store.links := store.links[(key.index, which) := idxs.head];
          indices := Some(idxs.(head := key));
        case None =>
          indices := Some(Indices(key, key));
      }
      items := [key] + items;
      return true;
    }

    /** Takes the stream at the head. */
    method Pop(store: Store) returns (r: Option<Key>)
      requires Ok(store)
      modifies `indices, `items, store`slab, store`links
      ensures Ok(store) && r.Some? == (old(items) != [])
      ensures r.None? ==> unchanged(this) && unchanged(store)
      ensures r.Some? ==>
                && r.value == old(items)[0] && items == old(items)[1..]
                && Resolves(old(store.slab), r.value) && which in old(store.slab)[r.value.index].queued
                && store.slab == Flag(old(store.slab), r.value.index, which, false)
                && SameLinks(which, old(store.links), store.links)
    {
      hide QueueOk;
      match indices
      case None =>
        return None;
      case Some(idxs) =>
        PopOk(which, items, store.slab, store.links);
        var key := idxs.head;
        if idxs.head == idxs.tail {
          indices := None;
        } else {
          indices := Some(idxs.(head := store.links[(key.index, which)]));
        }
        store.links := store.links - {(key.index, which)};
        store.slab := Flag(store.slab, key.index, which, false);
        items := items[1..];
        return Some(key);
    }

    method IsEmpty() returns (b: bool)
      requires Ends()
      ensures b <==> items == []
    {
      b := indices.None?;
    }

    /** Takes the stream at the head if it satisfies `f`. */
    method PopIf(store: Store, f: Stream -> bool) returns (r: Option<Key>)
      requires Ok(store)
      modifies `indices, `items, store`slab, store`links
      ensures Ok(store) && r.Some? == (old(items) != [] && f(old(store.slab)[old(items)[0].index]))
      ensures r.None? ==> unchanged(this) && unchanged(store)
      ensures r.Some? ==>
                && r.value == old(items)[0] && items == old(items)[1..]
                && Resolves(old(store.slab), r.value) && which in old(store.slab)[r.value.index].queued
                && store.slab == Flag(old(store.slab), r.value.index, which, false)
                && SameLinks(which, old(store.links), store.links)
    {
      if indices.Some? {
        var head := indices.value.head;
        if f(store.slab[head.index]) {
          r := Pop(store);
          return;
        }
      }
      return None;
    }
  }

  lemma FlagAgain(slab: Slab, k: nat, w: Which)
    requires k in slab && w in slab[k].queued
    ensures Flag(slab, k, w, true) == slab
  {
    assert slab[k].queued + {w} == slab[k].queued;
  }
}
