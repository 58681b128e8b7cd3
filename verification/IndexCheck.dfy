/** The consistency check that `assert_valid_state` describes in a comment, proved of every reachable table. */
module IndexCheck {
  import opened Bits
  import opened Errors
  import opened Headers
  import opened RobinHood
  import opened NameIndex
  import opened EncoderTable

  /** The slot an index entry leads to. */
  function RealIdx(pos: Pos, inserted: nat): nat {
    WrapAdd(pos.index, inserted)
  }

  /** Every entry leads to a slot with its hash. */
  ghost predicate HashesMatch(indices: seq<Option<Pos>>, slots: seq<Slot>, inserted: nat) {
    forall p :: 0 <= p < |indices| && indices[p].Some? ==>
      var idx := RealIdx(indices[p].value, inserted);
      idx < |slots| && indices[p].value.hash == slots[idx].hash
  }

  ghost predicate NoDuplicates(indices: seq<Option<Pos>>) {
    forall p, q :: 0 <= p < q < |indices| && indices[p].Some? ==> indices[p] != indices[q]
  }

  /** Slot `i` has its entry at `p`. */
  ghost predicate IndexedAt(indices: seq<Option<Pos>>, inserted: nat, i: nat, p: nat) {
    p < |indices| && indices[p].Some? && RealIdx(indices[p].value, inserted) == i
  }

  /** Probing for `hash` is never cut short before `p`: no hole, and nobody richer on the way. */
  ghost predicate Accessible(indices: seq<Option<Pos>>, mask: nat, hash: nat, p: nat)
    requires p < |indices| && DesiredPos(mask, hash) < |indices|
  {
    var home := DesiredPos(mask, hash);
    forall q :: 0 <= q < |indices| && Dist(|indices|, home, q) <= Dist(|indices|, home, p) ==>
      indices[q].Some? && Dist(|indices|, home, q) <= ProbeDistance(mask, indices[q].value.hash, q)
  }

  /** Slot `j` links to slot `i`. */
  ghost predicate LinksTo(slots: seq<Slot>, inserted: nat, j: nat, i: nat) {
    j < |slots| && slots[j].next == Some(WrapSub(i, inserted))
  }

  /** Links lead from a slot to a newer one of the same name, so chains have no cycles. */
  ghost predicate LinksAscend(slots: seq<Slot>, inserted: nat) {
    forall j :: 0 <= j < |slots| && slots[j].next.Some? ==>
      var i := WrapAdd(slots[j].next.value, inserted);
      i < j && slots[i].header.name == slots[j].header.name
  }

  ghost predicate SlotReached(indices: seq<Option<Pos>>, slots: seq<Slot>, inserted: nat, mask: nat, i: nat)
    requires i < |slots|
  {
    if exists p :: IndexedAt(indices, inserted, i, p) then
      && DesiredPos(mask, slots[i].hash) < |indices|
      && forall p :: IndexedAt(indices, inserted, i, p) ==> Accessible(indices, mask, slots[i].hash, p)
    else
      exists j :: LinksTo(slots, inserted, j, i) && forall k :: LinksTo(slots, inserted, k, i) ==> k == j
  }

  /** Everything the comment asks for. */
  ghost predicate ValidState(indices: seq<Option<Pos>>, slots: seq<Slot>, inserted: nat, mask: nat) {
    && HashesMatch(indices, slots, inserted)
    && NoDuplicates(indices)
    && (forall i :: 0 <= i < |slots| ==> SlotReached(indices, slots, inserted, mask, i))
    && LinksAscend(slots, inserted)
  }

  /** The abstract index behind a table's fields. */
  ghost predicate Sound(indices: seq<Option<Pos>>, slots: seq<Slot>, mask: nat, total: nat, hash: HashFn, cs: Cells) {
    && Mirrors(indices, cs) && Ordered(cs)
    && (indices != [] ==> ValidMask(|indices|, mask))
    && |slots| <= MAX_U32 + 1 && SlotsOk(slots, total, hash)
    && Indexes(cs, Names(slots), total, hash)
  }

  /** The entry at `p` leads to the oldest slot of its name. */
  lemma EntryLeads(indices: seq<Option<Pos>>, slots: seq<Slot>, mask: nat, total: nat, hash: HashFn, cs: Cells, p: nat)
    returns (i: nat)
    requires Sound(indices, slots, mask, total, hash, cs) && p < |indices| && indices[p].Some?
    ensures cs[p].Some? && i == total - cs[p].value.ord == RealIdx(indices[p].value, total % WORD)
    ensures |cs| == |indices| && Oldest(Names(slots), i) && slots[i].hash == indices[p].value.hash == cs[p].value.hash
  {
    hide Abs, WrapAdd, ValidMask, Ordered, Newer;
    assert indices[p] == Concrete(cs[p]);
    CellSlot(cs, Names(slots), total, hash, p);
    i := total - cs[p].value.ord;
    RealIndex(total, cs[p].value.ord);
    assert SlotOk(slots[i], Names(slots), total, hash, i);
  }

  lemma CheckEntries(indices: seq<Option<Pos>>, slots: seq<Slot>, mask: nat, total: nat, hash: HashFn, cs: Cells)
    requires Sound(indices, slots, mask, total, hash, cs)
    ensures HashesMatch(indices, slots, total % WORD) && NoDuplicates(indices)
  {
    hide Sound, Indexes, Oldest, RealIdx;
    forall p | 0 <= p < |indices| && indices[p].Some?
      ensures var idx := RealIdx(indices[p].value, total % WORD);
              idx < |slots| && indices[p].value.hash == slots[idx].hash
    {
      var i := EntryLeads(indices, slots, mask, total, hash, cs, p);
      OldestRange(slots, i);
    }
    forall p, q | 0 <= p < q < |indices| && indices[p].Some?
      ensures indices[p] != indices[q]
    {
      if indices[p] == indices[q] {
        var i := EntryLeads(indices, slots, mask, total, hash, cs, p);
        var j := EntryLeads(indices, slots, mask, total, hash, cs, q);
        SameEntry(indices, slots, mask, total, hash, cs, p, q);
      }
    }
  }

  lemma OldestRange(slots: seq<Slot>, i: nat)
    requires Oldest(Names(slots), i)
    ensures i < |slots|
  {
  }

  lemma SameEntry(indices: seq<Option<Pos>>, slots: seq<Slot>, mask: nat, total: nat, hash: HashFn, cs: Cells, p: nat,
                  q: nat)
    requires Sound(indices, slots, mask, total, hash, cs) && p < |cs| && q < |cs| && cs[p].Some? && cs[q].Some?
    requires cs[p].value.ord == cs[q].value.ord
    ensures p == q
  {
  }

  /** The entry of a slot can be found. */
  lemma CheckAccess(indices: seq<Option<Pos>>, slots: seq<Slot>, mask: nat, total: nat, hash: HashFn, cs: Cells,
                    i: nat, p: nat)
    requires Sound(indices, slots, mask, total, hash, cs) && i < |slots| && IndexedAt(indices, total % WORD, i, p)
    ensures DesiredPos(mask, slots[i].hash) < |indices| && Accessible(indices, mask, slots[i].hash, p)
  {
    hide Home, DesiredPos, ProbeDistance, Indexes, SlotsOk, Names, RealIdx, PowerOfTwo, Oldest, Ordered;
    var _ := EntryLeads(indices, slots, mask, total, hash, cs, p);
    var h := slots[i].hash;
    DesiredIsHome(|indices|, h);
    forall q | 0 <= q < |indices| && Dist(|indices|, Home(|indices|, h), q) <= Dist(|indices|, Home(|indices|, h), p)
      ensures indices[q].Some?
      ensures Dist(|indices|, Home(|indices|, h), q) <= ProbeDistance(mask, indices[q].value.hash, q)
    {
      NoHole(cs, p, q);
      EntryAt(indices, cs, mask, q);
    }
  }

  /** The nearest older namesake of a slot that is not the oldest. */
  lemma {:induction false} NearestOlder(names: seq<Name>, i: nat, k: nat) returns (j: nat)
    requires i < k < |names| && names[k] == names[i]
    ensures i < j < |names| && Newer(names, names[j], j) == Some(i)
    decreases k
  {
    j := k;
    var n := Newer(names, names[k], k);
    if n != Some(i) {
      j := NearestOlder(names, i, n.value);
    }
  }

  lemma LinkOf(slots: seq<Slot>, total: nat, hash: HashFn, j: nat)
    requires SlotsOk(slots, total, hash) && j < |slots|
    ensures var names := Names(slots);
            && |slots| <= total && |names| == |slots| && names[j] == slots[j].header.name
            && slots[j].next == match Newer(names, names[j], j) case None => None case Some(i) => Some(Abs(total - i))
  {
    hide Abs, Newer, Unique;
    assert SlotOk(slots[j], Names(slots), total, hash, j);
  }

  lemma LinkTarget(slots: seq<Slot>, total: nat, hash: HashFn, j: nat, i: nat)
    requires |slots| <= MAX_U32 + 1 && SlotsOk(slots, total, hash) && i < |slots|
    ensures LinksTo(slots, total % WORD, j, i) <==>
              j < |slots| && Newer(Names(slots), Names(slots)[j], j) == Some(i)
  {
    hide Abs, WrapSub, Newer, SlotsOk, Names, Link;
    if j < |slots| {
      LinkOf(slots, total, hash, j);
      assert i <= total;
      AbsFromFront(total, i);
      var n := Newer(Names(slots), Names(slots)[j], j);
      if n.Some? {
        SameTarget(total, n.value, i, |slots|);
      }
    }
  }

  /** Positions of present slots are told apart by their wrapped numbers. */
  lemma SameTarget(total: nat, a: nat, b: nat, len: nat)
    requires a < len && b < len && len <= MAX_U32 + 1 && len <= total
    ensures Abs(total - a) == Abs(total - b) <==> a == b
  {
    if Abs(total - a) == Abs(total - b) {
      AbsUnique(total - a, total - b);
    }
  }

  lemma OldestHasEntry(indices: seq<Option<Pos>>, slots: seq<Slot>, mask: nat, total: nat, hash: HashFn, cs: Cells,
                       i: nat)
    requires Sound(indices, slots, mask, total, hash, cs) && Oldest(Names(slots), i)
    ensures exists p :: IndexedAt(indices, total % WORD, i, p)
  {
    hide Abs, WrapAdd, Ordered, ValidMask, Unique, SlotOk;
    var names := Names(slots);
    var c := Cell(total - i, hash(names[i]));
    assert Stands(c, names, total, hash);
    assert Some(c) in cs;
    var p :| 0 <= p < |cs| && cs[p] == Some(c);
    assert indices[p] == Concrete(cs[p]);
    RealIndex(total, total - i);
    assert IndexedAt(indices, total % WORD, i, p);
  }

  lemma CheckLink(indices: seq<Option<Pos>>, slots: seq<Slot>, mask: nat, total: nat, hash: HashFn, cs: Cells, i: nat)
    requires Sound(indices, slots, mask, total, hash, cs) && i < |slots|
    requires forall p :: !IndexedAt(indices, total % WORD, i, p)
    ensures exists j :: LinksTo(slots, total % WORD, j, i) && forall k :: LinksTo(slots, total % WORD, k, i) ==> k == j
  {
    hide IndexedAt, LinksTo, Ordered, ValidMask, SlotsOk, Indexes, Newer, Mirrors;
    var names := Names(slots);
    if Oldest(names, i) {
      OldestHasEntry(indices, slots, mask, total, hash, cs, i);
      assert false;
    }
    var k0 :| i < k0 < |names| && names[k0] == names[i];
    var j := NearestOlder(names, i, k0);
    LinkTarget(slots, total, hash, j, i);
    forall k | LinksTo(slots, total % WORD, k, i)
      ensures k == j
    {
      LinkTarget(slots, total, hash, k, i);
    }
  }

  lemma CheckChains(slots: seq<Slot>, total: nat, hash: HashFn)
    requires |slots| <= MAX_U32 + 1 && SlotsOk(slots, total, hash)
    ensures LinksAscend(slots, total % WORD)
  {
    hide Abs, WrapAdd, SlotsOk, Newer;
    forall j | 0 <= j < |slots| && slots[j].next.Some?
      ensures var i := WrapAdd(slots[j].next.value, total % WORD);
              i < j && slots[i].header.name == slots[j].header.name
    {
      LinkOf(slots, total, hash, j);
      var i := Newer(Names(slots), Names(slots)[j], j).value;
      RealIndex(total, total - i);
    }
  }

  lemma SoundIsValid(indices: seq<Option<Pos>>, slots: seq<Slot>, mask: nat, total: nat, hash: HashFn, cs: Cells)
    requires Sound(indices, slots, mask, total, hash, cs)
    ensures ValidState(indices, slots, total % WORD, mask)
  {
    hide Sound, Accessible, LinksTo, LinksAscend, HashesMatch, NoDuplicates, DesiredPos;
    CheckEntries(indices, slots, mask, total, hash, cs);
    SoundChains(indices, slots, mask, total, hash, cs);
    forall i | 0 <= i < |slots|
      ensures SlotReached(indices, slots, total % WORD, mask, i)
    {
      if p0 :| IndexedAt(indices, total % WORD, i, p0) {
        CheckAccess(indices, slots, mask, total, hash, cs, i, p0);
        forall p | IndexedAt(indices, total % WORD, i, p)
          ensures Accessible(indices, mask, slots[i].hash, p)
        {
          CheckAccess(indices, slots, mask, total, hash, cs, i, p);
        }
      } else {
        CheckLink(indices, slots, mask, total, hash, cs, i);
      }
    }
  }

  lemma SoundChains(indices: seq<Option<Pos>>, slots: seq<Slot>, mask: nat, total: nat, hash: HashFn, cs: Cells)
    requires Sound(indices, slots, mask, total, hash, cs)
    ensures LinksAscend(slots, total % WORD)
  {
    hide LinksAscend;
    CheckChains(slots, total, hash);
  }

  /** The check never fails: every table that the operations can reach satisfies it. */
  lemma CheckHolds(t: EncoderTable.Table)
    requires t.Valid()
    ensures ValidState(t.indices, t.slots, t.inserted, t.mask)
  {
    hide ValidState, Ordered, Mirrors, Indexes, SlotsOk, ValidMask;
    if t.indices != [] {
      SlotBound(|t.indices|, t.mask);
    }
    SoundIsValid(t.indices, t.slots, t.mask, t.total, t.hash, t.cells);
  }
}
