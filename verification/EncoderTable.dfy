/** The encoder's dynamic table: a Robin Hood hash index over the slots of a first-in first-out list. */
module EncoderTable {
  import opened Bits
  import opened Errors
  import opened Headers
  import opened DynamicTable
  import opened RobinHood
  import opened Rehash
  import opened NameIndex

  /** An index entry: the wrapped number of a slot, and the hash of its name. */
  datatype Pos = Pos(index: nat, hash: nat)

  datatype Slot = Slot(hash: nat, header: Header, next: Option<nat>)

  /** How the encoder may refer to a header. */
  datatype Index =
    | Indexed(idx: nat, header: Header)
    | NameOnly(idx: nat, header: Header)
    | Inserted(slot: nat)
    | InsertedValue(name: nat, slot: nat)
    | NotIndexed(header: Header)

  /** Sizes come from 32-bit settings. */
  const MAX_U32 := 0xFFFF_FFFF

  // ===== wrapping arithmetic =====

  function WrapAdd(a: nat, b: nat): nat {
    (a + b) % WORD
  }

  function WrapSub(a: nat, b: nat): nat {
    (a - b) % WORD
  }

  /** The stored number of the slot made by insertion `ord`: minus `ord`, wrapped. */
  function Abs(ord: nat): nat {
    (0 - ord) % WORD
  }

  /** Adding the wrapped insertion count to a stored number gives the slot's position. */
  lemma RealIndex(total: nat, ord: nat)
    requires 0 <= total - ord < WORD
    ensures WrapAdd(Abs(ord), total % WORD) == total - ord
  {
  }

  lemma AbsFromFront(total: nat, i: nat)
    requires i <= total
    ensures WrapSub(i, total % WORD) == Abs(total - i)
  {
  }

  lemma AbsNext(total: nat)
    ensures WrapSub(0, total % WORD + 1) == Abs(total + 1)
  {
  }

  lemma AbsUnique(a: nat, b: nat)
    requires Abs(a) == Abs(b) && -WORD < a - b < WORD
    ensures a == b
  {
    var q := (0 - a) / WORD - (0 - b) / WORD;
    assert b - a == q * WORD;
  }

  // ===== masks =====

  ghost predicate PowerOfTwo(n: nat) {
    exists k: nat :: 3 <= k <= 32 && n == Pow2(k)
  }

  function DesiredPos(mask: nat, hash: nat): nat {
    And(hash, mask)
  }

  function ProbeDistance(mask: nat, hash: nat, current: nat): nat {
    And(WrapSub(current, DesiredPos(mask, hash)), mask)
  }

  lemma DesiredIsHome(n: nat, hash: nat)
    requires PowerOfTwo(n)
    ensures DesiredPos(n - 1, hash) == Home(n, hash)
  {
    var k: nat :| 3 <= k <= 32 && n == Pow2(k);
    AndLowBits(hash, k);
  }

  lemma ProbeIsDist(n: nat, hash: nat, current: nat)
    requires PowerOfTwo(n) && current < n
    ensures ProbeDistance(n - 1, hash, current) == Dist(n, Home(n, hash), current)
  {
    hide And, Pow2, Home;
    var k: nat :| 3 <= k <= 32 && n == Pow2(k);
    DesiredIsHome(n, hash);
    var home := Home(n, hash);
    AndLowBits(WrapSub(current, home), k);
    Pow2Add(k, 64 - k);
    Pow2Values();
    ModMod(current - home, n, Pow2(64 - k));
    ModUnique(current - home, n, if current >= home then 0 else -1, Dist(n, home, current));
  }

  lemma PowerOfTwoSize(n: nat)
    requires PowerOfTwo(n)
    ensures 8 <= n <= 0x1_0000_0000
  {
    hide Pow2;
    var k: nat :| 3 <= k <= 32 && n == Pow2(k);
    Pow2Values();
    Pow2Mono(3, k);
    Pow2Mono(k, 32);
  }

  lemma PowerOfTwoDouble(n: nat)
    requires PowerOfTwo(n) && n < 0x1_0000_0000
    ensures PowerOfTwo(2 * n)
  {
    Pow2Values();
    var k: nat :| 3 <= k <= 32 && n == Pow2(k);
    assert k != 32;
    assert 2 * n == Pow2(k + 1);
  }

  function UsableCapacity(cap: nat): nat {
    cap - cap / 4
  }

  function ToRawCapacity(n: nat): nat {
    n + n / 3
  }

  function Max(a: nat, b: nat): nat {
    if a < b then b else a
  }

  /** The least power of two that is at least `n` and at least `2^k`. */
  function NextPowerOfTwo(n: nat, k: nat): (r: nat)
    requires k <= 32 && n <= 0x1_0000_0000
    ensures n <= r
    decreases 32 - k
  {
    Pow2Values();
    if n <= Pow2(k) then Pow2(k) else NextPowerOfTwo(n, k + 1)
  }

  lemma {:induction false} NextPowerIsPower(n: nat, k: nat)
    requires k <= 32 && n <= 0x1_0000_0000
    ensures exists j: nat :: k <= j <= 32 && NextPowerOfTwo(n, k) == Pow2(j)
    decreases 32 - k
  {
    Pow2Values();
    if n <= Pow2(k) {
      assert NextPowerOfTwo(n, k) == Pow2(k);
    } else {
      NextPowerIsPower(n, k + 1);
    }
  }

  // ===== the reference: linear search in a list =====

  function FindHeader(entries: seq<Header>, h: Header): (r: Option<nat>)
    ensures r.Some? ==> r.value < |entries| && entries[r.value] == h
    ensures r.None? ==> h !in entries
  {
    if entries == [] then None
    else if entries[0] == h then Some(0)
    else
      match FindHeader(entries[1..], h)
      case None => None
      case Some(i) => Some(i + 1)
  }

  /** The newest entry with the given name. */
  function FindName(entries: seq<Header>, name: Name): (r: Option<nat>)
    ensures r.Some? ==> r.value < |entries| && entries[r.value].name == name
                        && forall k :: 0 <= k < r.value ==> entries[k].name != name
    ensures r.None? ==> forall k :: 0 <= k < |entries| ==> entries[k].name != name
  {
    if entries == [] then None
    else if entries[0].name == name then Some(0)
    else
      match FindName(entries[1..], name)
      case None => None
      case Some(i) => Some(i + 1)
  }

  function NewIndex(staticIndex: Option<(nat, bool)>, h: Header): Index {
    match staticIndex
    case None => NotIndexed(h)
    case Some((n, true)) => Indexed(n, h)
    case Some((n, false)) => NameOnly(n, h)
  }

  function IndexDynamicSpec(t: Fifo, h: Header, staticIndex: Option<(nat, bool)>): (Index, Fifo) {
    match FindHeader(t.entries, h)
    case Some(i) => (Indexed(i + DYN_OFFSET, h), t)
    case None =>
      var index :=
        match (staticIndex, FindName(t.entries, h.name))
        case (Some((n, _)), _) => InsertedValue(n, 0)
        case (None, Some(i)) => InsertedValue(i + DYN_OFFSET, 0)
        case (None, None) => Inserted(0);
      (index, Insert(t, h))
  }

  /** What indexing a header does to the list, and how the header may then be referred to. */
  function IndexSpec(t: Fifo, h: Header): (Index, Fifo) {
    var staticIndex := IndexStatic(h);
    if h.SkipValueIndex() then (NewIndex(staticIndex, h), t)
    else if staticIndex.Some? && staticIndex.value.1 then (Indexed(staticIndex.value.0, h), t)
    else if h.Len() * 4 > t.maxSize * 3 then (NewIndex(staticIndex, h), t)
    else IndexDynamicSpec(t, h, staticIndex)
  }

  /** The header an index refers to. */
  function Resolved(t: Fifo, index: Index): Header
    requires match index
             case Inserted(i) => i < |t.entries|
             case InsertedValue(_, i) => i < |t.entries|
             case _ => true
  {
    match index
    case Indexed(_, h) => h
    case NameOnly(_, h) => h
    case Inserted(i) => t.entries[i]
    case InsertedValue(_, i) => t.entries[i]
    case NotIndexed(h) => h
  }

  // ===== the slots =====

  ghost function Entries(slots: seq<Slot>): (r: seq<Header>)
    ensures |r| == |slots| && forall i :: 0 <= i < |slots| ==> r[i] == slots[i].header
  {
    seq(|slots|, i requires 0 <= i < |slots| => slots[i].header)
  }

  ghost function Names(slots: seq<Slot>): (r: seq<Name>)
    ensures |r| == |slots| && forall i :: 0 <= i < |slots| ==> r[i] == slots[i].header.name
  {
    seq(|slots|, i requires 0 <= i < |slots| => slots[i].header.name)
  }

  /** The chain link of slot `i`: the next newer slot with the same name. */
  ghost function NextLink(names: seq<Name>, total: nat, i: nat): Option<nat>
    requires i < |names| <= total
  {
    match Newer(names, names[i], i)
    case None => None
    case Some(j) => Some(Abs(total - j))
  }

  ghost predicate SlotOk(s: Slot, names: seq<Name>, total: nat, hash: HashFn, i: nat)
    requires i < |names| <= total
  {
    s.hash == hash(s.header.name) && s.next == NextLink(names, total, i)
  }

  ghost predicate SlotsOk(slots: seq<Slot>, total: nat, hash: HashFn) {
    && |slots| <= total
    && (forall i :: 0 <= i < |slots| ==> SlotOk(slots[i], Names(slots), total, hash, i))
    && Unique(slots)
  }

  /** No header occupies two slots. */
  ghost predicate Unique(slots: seq<Slot>) {
    forall i, j :: 0 <= i < j < |slots| ==> slots[i].header != slots[j].header
  }

  lemma SlotsOkPop(slots: seq<Slot>, total: nat, hash: HashFn)
    requires SlotsOk(slots, total, hash) && slots != []
    ensures SlotsOk(slots[..|slots| - 1], total, hash)
    ensures Names(slots[..|slots| - 1]) == Names(slots)[..|slots| - 1]
    ensures Entries(slots[..|slots| - 1]) == Entries(slots)[..|slots| - 1]
  {
    hide Names, Entries, SlotOk;
    var slots' := slots[..|slots| - 1];
    PoppedEntries(slots);
    forall i | 0 <= i < |slots'|
      ensures SlotOk(slots'[i], Names(slots'), total, hash, i)
    {
      SlotOkPop(slots[i], Names(slots), total, hash, i, |slots'|);
    }
  }

  lemma SlotOkPop(s: Slot, names: seq<Name>, total: nat, hash: HashFn, i: nat, n: nat)
    requires i < n <= |names| <= total && SlotOk(s, names, total, hash, i)
    ensures SlotOk(s, names[..n], total, hash, i)
  {
    hide Newer, Abs;
    NewerPrefix(names, n, names[i], i);
  }

  lemma PoppedEntries(slots: seq<Slot>)
    requires slots != []
    ensures Names(slots[..|slots| - 1]) == Names(slots)[..|slots| - 1]
    ensures Entries(slots[..|slots| - 1]) == Entries(slots)[..|slots| - 1]
  {
  }

  lemma {:induction false} NewerPrefix(names: seq<Name>, n: nat, name: Name, i: nat)
    requires i <= n <= |names|
    ensures Newer(names[..n], name, i) == Newer(names, name, i)
  {
    if i > 0 {
      NewerPrefix(names, n, name, i - 1);
    }
  }

  lemma {:induction false} NewerPush(names: seq<Name>, first: Name, name: Name, i: nat)
    requires i <= |names|
    ensures Newer([first] + names, name, i + 1)
            == match Newer(names, name, i)
               case Some(j) => Some(j + 1)
               case None => if first == name then Some(0) else None
  {
    if i > 0 {
      NewerPush(names, first, name, i - 1);
    } else {
      assert Newer([first] + names, name, 0) == None;
    }
  }

  /** The slots after a new one is pushed and the newest older namesake, if still there, is linked to it. */
  ghost function Pushed(slots: seq<Slot>, added: Slot, total: nat, tail: Option<nat>): seq<Slot>
    requires tail.Some? ==> tail.value < |slots|
  {
    var s := [added] + slots;
    if tail.Some? then s[tail.value + 1 := s[tail.value + 1].(next := Some(Abs(total + 1)))] else s
  }

  lemma SlotsOkPush(slots: seq<Slot>, total: nat, hash: HashFn, h: Header, tail: Option<nat>)
    requires SlotsOk(slots, total, hash) && h !in Entries(slots)
    requires tail == FindName(Entries(slots), h.name)
    ensures var slots' := Pushed(slots, Slot(hash(h.name), h, None), total, tail);
            && SlotsOk(slots', total + 1, hash)
            && Entries(slots') == [h] + Entries(slots) && Names(slots') == [h.name] + Names(slots)
  {
    hide Newer, FindName, Names, Entries, SlotOk, Abs;
    var slots' := Pushed(slots, Slot(hash(h.name), h, None), total, tail);
    PushedEntries(slots, hash, h, total, tail);
    forall i | 0 <= i < |slots'|
      ensures SlotOk(slots'[i], Names(slots'), total + 1, hash, i)
    {
      if i == 0 {
        SlotOkFirst(Names(slots'), total + 1, hash, h);
      } else {
        SlotOkPush(slots[i - 1], Names(slots), total, hash, i - 1, h.name);
        if slots[i - 1].header.name == h.name {
          NewestOnly(slots, h.name, i - 1);
        }
      }
    }
  }

  lemma SlotOkFirst(names: seq<Name>, total: nat, hash: HashFn, h: Header)
    requires 0 < |names| <= total && names[0] == h.name
    ensures SlotOk(Slot(hash(h.name), h, None), names, total, hash, 0)
  {
  }

  /** A new slot becomes the next link of the slot that was the newest of its name, and of no other. */
  lemma SlotOkPush(s: Slot, names: seq<Name>, total: nat, hash: HashFn, i: nat, first: Name)
    requires i < |names| <= total && SlotOk(s, names, total, hash, i)
    ensures var s' := if names[i] == first && Newer(names, first, i).None? then s.(next := Some(Abs(total + 1))) else s;
            SlotOk(s', [first] + names, total + 1, hash, i + 1)
  {
    hide Newer, Abs, NextLink;
    NextPush(names, first, total, i);
  }

  lemma NextPush(names: seq<Name>, first: Name, total: nat, i: nat)
    requires i < |names| <= total
    ensures NextLink([first] + names, total + 1, i + 1)
            == if names[i] == first && Newer(names, first, i).None? then Some(Abs(total + 1))
               else NextLink(names, total, i)
  {
    hide Newer, Abs, Link, NextLink;
    var next := Newer(names, names[i], i);
    NewerPush(names, first, names[i], i);
    NextIsLink([first] + names, total + 1, i + 1);
    NextIsLink(names, total, i);
    LinkOn(next, total);
  }

  lemma NextIsLink(names: seq<Name>, total: nat, i: nat)
    requires i < |names| <= total
    ensures NextLink(names, total, i) == Link(Newer(names, names[i], i), total)
  {
    hide Newer, Abs;
  }

  /** A link stays the same while the slots move on by one. */
  lemma LinkOn(tail: Option<nat>, total: nat)
    requires tail.Some? ==> tail.value <= total
    ensures Link(Some(0), total + 1) == Some(Abs(total + 1)) && Link(None, total + 1) == None
    ensures tail.Some? ==> Link(Some(tail.value + 1), total + 1) == Link(tail, total)
    ensures tail.None? ==> Link(tail, total) == None
  {
    hide Abs;
  }

  lemma PushedEntries(slots: seq<Slot>, hash: HashFn, h: Header, total: nat, tail: Option<nat>)
    requires Unique(slots) && h !in Entries(slots)
    requires tail.Some? ==> tail.value < |slots|
    ensures var slots' := Pushed(slots, Slot(hash(h.name), h, None), total, tail);
            && |slots'| == |slots| + 1 && Unique(slots')
            && Entries(slots') == [h] + Entries(slots) && Names(slots') == [h.name] + Names(slots)
  {
    hide Abs;
    var slots' := Pushed(slots, Slot(hash(h.name), h, None), total, tail);
    assert Names(slots') == [h.name] + Names(slots);
    assert Entries(slots') == [h] + Entries(slots);
    forall i, j | 0 <= i < j < |slots'|
      ensures slots'[i].header != slots'[j].header
    {
      assert slots'[j].header == Entries(slots)[j - 1];
      assert slots'[i].header == Entries(slots')[i];
    }
  }

  /** Of the slots with a name, the newest is the only one without a newer namesake. */
  lemma NewestOnly(slots: seq<Slot>, name: Name, i: nat)
    requires i < |slots| && slots[i].header.name == name
    ensures Newer(Names(slots), name, i).None? <==> FindName(Entries(slots), name) == Some(i)
  {
    hide FindName, Newer;
    var found := FindName(Entries(slots), name);
    assert Entries(slots)[i].name == name;
    assert forall k :: 0 <= k < |slots| ==> Entries(slots)[k].name == Names(slots)[k];
  }

  // ===== cells and entries =====

  ghost function Concrete(c: Option<Cell>): Option<Pos> {
    match c
    case None => None
    case Some(c) => Some(Pos(Abs(c.ord), c.hash))
  }

  ghost predicate Mirrors(indices: seq<Option<Pos>>, cs: Cells) {
    |indices| == |cs| && forall p :: 0 <= p < |cs| ==> indices[p] == Concrete(cs[p])
  }

  ghost predicate ValidMask(n: nat, mask: nat) {
    PowerOfTwo(n) && mask == n - 1
  }

  /** What the entry at a position says about the cell it mirrors. */
  lemma EntryAt(indices: seq<Option<Pos>>, cs: Cells, mask: nat, p: nat)
    requires Mirrors(indices, cs) && ValidMask(|cs|, mask) && p < |cs|
    ensures indices[p].Some? <==> cs[p].Some?
    ensures cs[p].Some? ==>
              && indices[p].value == Pos(Abs(cs[p].value.ord), cs[p].value.hash)
              && ProbeDistance(mask, indices[p].value.hash, p) == Disp(cs, p)
  {
    hide Abs, ProbeDistance, PowerOfTwo;
    if cs[p].Some? {
      ProbeIsDist(|cs|, cs[p].value.hash, p);
    }
  }

  lemma MirrorMove(indices: seq<Option<Pos>>, cs: Cells, to: nat, from: nat)
    requires Mirrors(indices, cs) && to < |cs| && from < |cs|
    ensures Mirrors(indices[to := indices[from]][from := None], cs[to := cs[from]][from := None])
  {
  }

  lemma MirrorSet(indices: seq<Option<Pos>>, cs: Cells, p: nat, c: Cell)
    requires Mirrors(indices, cs) && p < |cs|
    ensures Mirrors(indices[p := Some(Pos(Abs(c.ord), c.hash))], cs[p := Some(c)])
    ensures Mirrors(indices[p := None], cs[p := None])
  {
    hide Abs;
  }

  /** Every position holds a cell no further displaced than before, or none. */
  ghost predicate Lowered(cs: Cells, cs': Cells) {
    && |cs'| == |cs|
    && forall p :: 0 <= p < |cs| && cs'[p].Some? ==> cs[p].Some? && Disp(cs', p) <= Disp(cs, p)
  }

  /**
   The cells while a header is being inserted. `tail` is the position of the newest slot of its name,
   if that name is indexed: as long as that slot is there the cells index the slots, and once it is
   evicted its cell already stands for the header to come.
   */
  ghost predicate InFlight(cs: Cells, names: seq<Name>, total: nat, hash: HashFn, tail: Option<nat>, name: Name) {
    if tail.Some? && tail.value >= |names| then
      name !in names && Indexes(cs, [name] + names, total + 1, hash)
    else
      && Indexes(cs, names, total, hash)
      && (tail.Some? ==> names[tail.value] == name && Newer(names, name, tail.value).None?)
  }

  /** The slot about to be evicted is the oldest of its name, so it has a cell. */
  lemma EvictTarget(cs: Cells, names: seq<Name>, total: nat, hash: HashFn, tail: Option<nat>, name: Name)
    returns (q: nat)
    requires InFlight(cs, names, total, hash, tail, name) && names != []
    ensures q < |cs| && cs[q] == Some(Cell(total - (|names| - 1), hash(names[|names| - 1])))
  {
    hide Newer;
    var last := |names| - 1;
    var c := Cell(total - last, hash(names[last]));
    if tail.Some? && tail.value >= |names| {
      OldestPush(names, name, last + 1);
      assert Stands(c, [name] + names, total + 1, hash);
    } else {
      assert Stands(c, names, total, hash);
    }
    q :| 0 <= q < |cs| && cs[q] == Some(c);
  }

  lemma EvictChain(cs: Cells, names: seq<Name>, total: nat, hash: HashFn, tail: Option<nat>, name: Name, q: nat, j: nat)
    requires InFlight(cs, names, total, hash, tail, name) && names != []
    requires q < |cs| && cs[q].Some? && cs[q].value.ord == total - (|names| - 1)
    requires Newer(names, names[|names| - 1], |names| - 1) == Some(j)
    ensures InFlight(cs[q := Some(Cell(total - j, cs[q].value.hash))], names[..|names| - 1], total, hash, tail, name)
  {
    hide Newer, Indexes;
    var last := |names| - 1;
    var cs' := cs[q := Some(Cell(total - j, cs[q].value.hash))];
    if tail.Some? && tail.value >= |names| {
      NewerPush(names, name, names[last], last);
      PopChain(cs, cs', [name] + names, total + 1, hash, q, j + 1);
      assert ([name] + names)[..last + 1] == [name] + names[..last];
    } else {
      PopChain(cs, cs', names, total, hash, q, j);
      if tail.Some? {
        NewerPrefix(names, last, name, tail.value);
      }
    }
  }

  lemma EvictReserve(cs: Cells, names: seq<Name>, total: nat, hash: HashFn, tail: nat, name: Name, q: nat)
    requires tail + 1 == |names| && InFlight(cs, names, total, hash, Some(tail), name)
    requires q < |cs| && cs[q].Some? && cs[q].value.ord == total - (|names| - 1)
    ensures InFlight(cs[q := Some(Cell(total + 1, cs[q].value.hash))], names[..tail], total, hash,
                     Some(tail), name)
  {
    hide Newer, Indexes;
    PopReserve(cs, cs[q := Some(Cell(total + 1, cs[q].value.hash))], names, total, hash, q);
  }

  lemma EvictRemove(cs: Cells, cs': Cells, names: seq<Name>, total: nat, hash: HashFn, tail: Option<nat>,
                    name: Name, c: Cell)
    requires InFlight(cs, names, total, hash, tail, name) && names != [] && tail != Some(|names| - 1)
    requires Some(c) in cs && c.ord == total - (|names| - 1)
    requires Newer(names, names[|names| - 1], |names| - 1).None?
    requires Distinct(cs') && forall d :: Some(d) in cs' <==> Some(d) in cs && d != c
    ensures InFlight(cs', names[..|names| - 1], total, hash, tail, name)
  {
    hide Newer, Indexes;
    var last := |names| - 1;
    if tail.Some? && tail.value >= |names| {
      NewerPush(names, name, names[last], last);
      PopLast(cs, cs', [name] + names, total + 1, hash, c);
      assert ([name] + names)[..last + 1] == [name] + names[..last];
    } else {
      PopLast(cs, cs', names, total, hash, c);
      if tail.Some? {
        NewerPrefix(names, last, name, tail.value);
      }
    }
  }

  /** While a header is being inserted there is still a free position. */
  lemma InFlightGap(cs: Cells, names: seq<Name>, total: nat, hash: HashFn, tail: Option<nat>, name: Name)
    requires InFlight(cs, names, total, hash, tail, name) && |names| + 1 < |cs|
    ensures HasGap(cs)
  {
    hide Newer, Indexes;
    if tail.Some? && tail.value >= |names| {
      GapExists(cs, [name] + names, total + 1, hash);
    } else {
      GapExists(cs, names, total, hash);
    }
  }

  lemma InFlightDistinct(cs: Cells, names: seq<Name>, total: nat, hash: HashFn, tail: Option<nat>, name: Name)
    requires InFlight(cs, names, total, hash, tail, name)
    ensures Distinct(cs)
  {
  }

  /** Renumbering a cell moves nothing. */
  lemma Repoint(indices: seq<Option<Pos>>, cs: Cells, q: nat, ord: nat)
    requires q < |cs| && cs[q].Some? && Ordered(cs) && Mirrors(indices, cs)
    ensures var cs' := cs[q := Some(Cell(ord, cs[q].value.hash))];
            && Ordered(cs') && Lowered(cs, cs')
            && Mirrors(indices[q := Some(Pos(Abs(ord), cs[q].value.hash))], cs')
  {
    hide Home, Dist, Prev, Abs;
    var cs' := cs[q := Some(Cell(ord, cs[q].value.hash))];
    MirrorSet(indices, cs, q, Cell(ord, cs[q].value.hash));
    forall p | 0 <= p < |cs'| && cs'[p].Some? && Disp(cs', p) > 0
      ensures Follows(cs', p)
    {
      assert Follows(cs, p);
    }
  }

  class Table {
    const hash: HashFn
    var mask: nat
    var indices: seq<Option<Pos>>
    var slots: seq<Slot>
    var inserted: nat
    var size: nat
    var maxSize: nat
    /** The insertion count, unwrapped, and the cells the index entries stand for. */
    ghost var total: nat
    ghost var cells: Cells

    constructor (maxSize: nat, capacity: nat, hash: HashFn)
      requires maxSize <= MAX_U32 && ToRawCapacity(capacity) <= 0x1_0000_0000
      ensures Valid() && Contents() == Fifo([], maxSize) && this.hash == hash
      ensures capacity <= UsableCapacity(|indices|)
    {
      var raw := if capacity == 0 then 0 else Max(NextPowerOfTwo(ToRawCapacity(capacity), 0), 8);
      this.hash := hash;
      mask := if raw == 0 then 0 else raw - 1;
      indices := seq(raw, _ => None);
      cells := seq(raw, _ => None);
      slots := [];
      inserted := 0;
      size := 0;
      this.maxSize := maxSize;
      total := 0;
      new;
      ClearedMirrors(raw, hash);
      SizeEmpty();
      if capacity > 0 {
        RawCapacity(capacity);
      }
    }

    ghost predicate Shape()
      reads `mask, `indices, `cells
    {
      && |indices| == |cells| && Mirrors(indices, cells) && Ordered(cells)
      && (indices != [] ==> ValidMask(|indices|, mask))
    }

    ghost predicate Core()
      reads `mask, `indices, `cells, `slots, `inserted, `total
    {
      && Shape()
      && inserted == total % WORD
      && |slots| <= UsableCapacity(|indices|) && |slots| <= total
      && SlotsOk(slots, total, hash)
    }

    ghost predicate Inserting(tail: Option<nat>, name: Name)
      reads `cells, `slots, `total
    {
      && (tail.Some? ==> tail.value <= total && tail.value <= MAX_U32)
      && InFlight(cells, Names(slots), total, hash, tail, name)
    }

    ghost predicate Valid()
      reads this
    {
      && Core()
      && Indexes(cells, Names(slots), total, hash)
      && size == Size(Entries(slots)) <= maxSize <= MAX_U32
    }

    ghost function Contents(): Fifo
      reads `slots, `maxSize
    {
      Fifo(Entries(slots), maxSize)
    }

    /** Shifts back the entries displaced by the one just taken out of `hole`. */
    method RemovePhaseTwo(hole: nat, ghost cs: Cells)
      requires Mirrors(indices, cells) && ValidMask(|indices|, mask) && |indices| == |cs|
      requires hole < |cs| && cs[hole].Some? && cells == cs[hole := None] && HasGap(cs)
      requires Ordered(cs) && Distinct(cs)
      modifies this`indices, this`cells
      ensures Mirrors(indices, cells) && |indices| == old(|indices|)
      ensures |cells| == |cs| && Ordered(cells) && Lowered(cs, cells)
      ensures Distinct(cells) && forall d :: Some(d) in cells <==> Some(d) in cs && d != cs[hole].value
    {
      hide Abs, And, Home, Dist, At, Disp, ProbeDistance, Mirrors, ValidMask, Unshifted, Displaced, Settled, Ordered,
           Distinct, Lowered;
      ghost var n := |cs|;
      ghost var gap :| 0 <= gap < n && cs[gap].None?;
      var lastProbe, probe := hole, hole + 1;
      ghost var k := 0;
      StartUnshift(cs, hole, gap);
      while true
        invariant Mirrors(indices, cells) && |indices| == |cells| == n
        invariant k < Dist(n, hole, gap) && lastProbe == At(n, hole, k)
        invariant probe <= n && (if probe == n then 0 else probe) == At(n, hole, k + 1)
        invariant Unshifted(cs, cells, hole, k) && Displaced(cs, hole, k)
        decreases n - k, if probe == n then 1 else 0
      {
        if probe < |indices| {
          NextUnshift(cs, cells, hole, k, probe, gap);
          EntryAt(indices, cells, mask, probe);
          if indices[probe].Some? {
            if ProbeDistance(mask, indices[probe].value.hash, probe) > 0 {
              StepUnshift(cs, cells, hole, k, lastProbe, probe, gap);
              MirrorMove(indices, cells, lastProbe, probe);
              indices := indices[lastProbe := indices[probe]][probe := None];
              cells := cells[lastProbe := cells[probe]][probe := None];
              k := k + 1;
            } else {
              break;
            }
          } else {
            break;
          }
          lastProbe := probe;
          probe := probe + 1;
        } else {
          probe := 0;
        }
      }
      RemoveOrdered(cs, cells, hole, k);
      RemoveContents(cs, cells, hole, k);
      RemoveLowered(cs, cells, hole, k);
    }

    /** Drops the oldest slot and its index entry, or hands the entry on along the chain. */
    method Evict(prevIdx: Option<nat>, ghost tail: Option<nat>, ghost name: Name)
      requires Core() && slots != [] && Inserting(tail, name)
      requires |slots| + 1 < |indices| && size >= slots[|slots| - 1].header.Len()
      requires prevIdx == Link(tail, total)
      modifies this
      ensures Core() && Inserting(tail, name)
      ensures slots == old(slots)[..|old(slots)| - 1]
      ensures size == old(size) - old(slots)[|old(slots)| - 1].header.Len()
      ensures Lowered(old(cells), cells) && |indices| == old(|indices|)
      ensures unchanged(`mask, `inserted, `maxSize, `total)
    {
      hide Abs, And, Home, Dist, Prev, Next, At, Disp, Newer, Names, Entries, Ordered, Indexes, InFlight, Mirrors,
           SlotOk, DesiredPos, ProbeDistance, Link, SlotsOk, WrapSub, ValidMask, Lowered, Distinct, HasGap;
      ghost var names, last := Names(slots), |slots| - 1;
      SlotBound(|indices|, mask);
      var posIdx := WrapSub(|slots| - 1, inserted);
      AbsFromFront(total, last);
      var slot := slots[|slots| - 1];
      ghost var q := EvictTarget(cells, names, total, hash, tail, name);
      EntryUnique(cells, names, total, hash, tail, name, q);
      LinkUnique(tail, total, last);
      LastSlot(slots, total, hash);
      SlotsOkPop(slots, total, hash);
      slots := slots[..|slots| - 1];
      size := size - slot.header.Len();
      var probe := FindEntry(posIdx, slot.hash, q);
      ReleaseEntry(probe, slot.next, prevIdx, names, tail, name);
    }

    /** What becomes of the entry of the evicted slot, the last of `names`. */
    method ReleaseEntry(probe: nat, next: Option<nat>, prevIdx: Option<nat>,
                        ghost names: seq<Name>, ghost tail: Option<nat>, ghost name: Name)
      requires Shape() && ValidMask(|indices|, mask) && inserted == total % WORD
      requires 0 < |names| <= total && |names| + 1 < |indices| && InFlight(cells, names, total, hash, tail, name)
      requires probe < |indices| && cells[probe].Some? && cells[probe].value.ord == total - (|names| - 1)
      requires indices[probe] == Some(Pos(Abs(cells[probe].value.ord), cells[probe].value.hash))
      requires next == match Newer(names, names[|names| - 1], |names| - 1)
                       case None => None
                       case Some(j) => Some(Abs(total - j))
      requires prevIdx == Some(Abs(cells[probe].value.ord)) <==> tail == Some(|names| - 1)
      modifies this`indices, this`cells
      ensures Shape() && InFlight(cells, names[..|names| - 1], total, hash, tail, name)
      ensures Lowered(old(cells), cells) && |indices| == old(|indices|)
    {
      hide Abs, Home, Dist, Prev, Next, At, Disp, Newer, Ordered, Indexes, InFlight, Mirrors, WrapSub, ValidMask,
           Lowered, Distinct, HasGap;
      ghost var last := |names| - 1;
      if next.Some? {
        ghost var j := Newer(names, names[last], last).value;
        EvictChain(cells, names, total, hash, tail, name, probe, j);
        Repoint(indices, cells, probe, total - j);
        indices := indices[probe := Some(indices[probe].value.(index := next.value))];
        cells := cells[probe := Some(Cell(total - j, cells[probe].value.hash))];
      } else if Some(indices[probe].value.index) == prevIdx {
        EvictReserve(cells, names, total, hash, last, name, probe);
        Repoint(indices, cells, probe, total + 1);
        AbsNext(total);
        indices := indices[probe := Some(indices[probe].value.(index := WrapSub(0, inserted + 1)))];
        cells := cells[probe := Some(Cell(total + 1, cells[probe].value.hash))];
      } else {
        ghost var cs := cells;
        InFlightGap(cells, names, total, hash, tail, name);
        MirrorSet(indices, cells, probe, cells[probe].value);
        InFlightDistinct(cells, names, total, hash, tail, name);
        indices := indices[probe := None];
        cells := cells[probe := None];
        RemovePhaseTwo(probe, cs);
        EvictRemove(cs, cells, names, total, hash, tail, name, cs[probe].value);
      }
    }

    /** Probes from the home of a hash for the entry with a given number, which is known to be at `q`. */
    method FindEntry(posIdx: nat, hash: nat, ghost q: nat) returns (probe: nat)
      requires Shape() && ValidMask(|indices|, mask) && |indices| == |cells|
      requires q < |cells| && cells[q].Some? && cells[q].value.hash == hash && posIdx == Abs(cells[q].value.ord)
      requires forall p :: 0 <= p < |cells| && cells[p].Some? && Abs(cells[p].value.ord) == posIdx ==> p == q
      ensures probe == q && indices[probe] == Some(Pos(posIdx, hash))
    {
      hide Abs, And, Home, Dist, At, Disp, ProbeDistance, Mirrors, Ordered, ValidMask, DesiredPos;
      ghost var n := |cells|;
      ghost var dist := 0;
      probe := DesiredPos(mask, hash);
      StartFind(cells, mask, q);
      while true
        invariant probe <= n && dist <= Disp(cells, q)
        invariant (if probe == n then 0 else probe) == At(n, Home(n, hash), dist)
        decreases Disp(cells, q) - dist, if probe == n then 1 else 0
      {
        if probe < |indices| {
          StepFind(cells, q, probe, dist);
          EntryAt(indices, cells, mask, probe);
          if indices[probe].value.index == posIdx {
            return;
          }
          probe := probe + 1;
          dist := dist + 1;
        } else {
          probe := 0;
        }
      }
    }

    /** Evicts until the size is within bounds; `extra` is the size of the header being inserted. */
    method Converge(prevIdx: Option<nat>, ghost extra: nat, ghost tail: Option<nat>,
                    ghost name: Name) returns (ret: bool)
      requires Core() && Inserting(tail, name) && prevIdx == Link(tail, total)
      requires slots == [] || |slots| + 1 < |indices|
      requires size == Size(Entries(slots)) + extra && extra <= maxSize
      modifies this
      ensures Core() && Inserting(tail, name)
      ensures size == Size(Entries(slots)) + extra <= maxSize
      ensures slots <= old(slots) && Entries(slots) == Fit(old(Entries(slots)), maxSize - extra)
      ensures Lowered(old(cells), cells) && |indices| == old(|indices|)
      ensures unchanged(`mask, `inserted, `maxSize, `total)
      ensures !ret ==> unchanged(`slots, `indices, `cells)
    {
      hide Core, Inserting, Entries, Names, Link, Lowered, Size, Fit;
      ret := false;
      LoweredSame(cells);
      while size > maxSize
        invariant Core() && Inserting(tail, name) && unchanged(`mask, `inserted, `maxSize, `total)
        invariant size == Size(Entries(slots)) + extra
        invariant slots <= old(slots) && |indices| == old(|indices|) && Lowered(old(cells), cells)
        invariant Fit(Entries(slots), maxSize - extra) == Fit(old(Entries(slots)), maxSize - extra)
        invariant !ret ==> unchanged(`slots, `indices, `cells)
        decreases |slots|
      {
        ret := true;
        EvictStep(slots, maxSize, extra);
        ghost var before := cells;
        Evict(prevIdx, tail, name);
        LoweredTrans(old(cells), before, cells);
      }
      FitDone(Entries(slots), maxSize - extra);
    }

    method UpdateSize(len: nat, prevIdx: Option<nat>, ghost tail: Option<nat>, ghost name: Name) returns (ret: bool)
      requires Core() && Inserting(tail, name) && prevIdx == Link(tail, total)
      requires slots == [] || |slots| + 1 < |indices|
      requires size == Size(Entries(slots)) && len <= maxSize
      modifies this
      ensures Core() && Inserting(tail, name)
      ensures size == Size(Entries(slots)) + len <= maxSize
      ensures slots <= old(slots) && Entries(slots) == Fit(old(Entries(slots)), maxSize - len)
      ensures Lowered(old(cells), cells) && |indices| == old(|indices|)
      ensures unchanged(`mask, `inserted, `maxSize, `total)
      ensures !ret ==> unchanged(`slots, `indices, `cells)
    {
      hide Shape, SlotsOk, InFlight, Entries, Names, Link, Lowered, Size, Fit;
      size := size + len;
      ret := Converge(prevIdx, len, tail, name);
    }

    method Resize(newSize: nat)
      requires Valid() && newSize <= MAX_U32
      modifies this
      ensures Valid() && Contents() == DynamicTable.Resize(old(Contents()), newSize)
    {
      hide SlotsOk, Names, Mirrors, Ordered, Indexes, Entries, Size, Fit, ValidMask, Link;
      maxSize := newSize;
      if newSize == 0 {
        size := 0;
        FitZero(Entries(slots));
        SizeEmpty();
        ClearedMirrors(|indices|, hash);
        indices := seq(|indices|, _ => None);
        cells := seq(|indices|, _ => None);
        slots := [];
        inserted := 0;
        total := 0;
      } else {
        RoomLeft(|slots|, |indices|, mask);
        NoTail(total);
        var _ := Converge(None, 0, None, Path);
      }
    }

    /** Pushes a slot; the index is brought up to date by the callers. */
    method PushSlot(header: Header, hashValue: nat)
      requires inserted == total % WORD
      modifies `inserted, `slots, `total
      ensures total == old(total) + 1 && inserted == total % WORD
      ensures slots == [Slot(hashValue, header, None)] + old(slots)
    {
      inserted := (inserted + 1) % WORD;
      slots := [Slot(hashValue, header, None)] + slots;
      total := total + 1;
    }

    /** Puts an entry at `probe` and moves the entries in its way one step forward. */
    method Place(probe: nat, pos: Pos, ghost c: Cell)
      requires Shape() && Distinct(cells) && HasGap(cells) && Fresh(cells, c)
      requires pos == Pos(Abs(c.ord), c.hash)
      requires probe < |indices| && Welcomes(cells, probe, Dist(|indices|, Home(|indices|, c.hash), probe))
      modifies this`indices, this`cells
      ensures Shape() && |indices| == old(|indices|)
      ensures Distinct(cells) && forall d :: Some(d) in cells <==> d == c || Some(d) in old(cells)
    {
      hide Abs, Home, Dist, At, Disp, Mirrors, ValidMask, Ordered, Distinct, Fresh, Welcomes, Moving, Shifted, Run;
      ghost var cs, n := cells, |cells|;
      ghost var gap :| 0 <= gap < n && cs[gap].None?;
      var prev := indices[probe];
      ghost var held := cells[probe];
      MirrorSet(indices, cells, probe, c);
      MirrorAt(indices, cells, probe);
      indices := indices[probe := Some(pos)];
      cells := cells[probe := Some(c)];
      ghost var k := 0;
      StartPlace(cs, probe, c, gap);
      if prev.Some? {
        var carried := prev.value;
        var at := probe + 1;
        while true
          invariant Mirrors(indices, cells) && |indices| == |cells| == n
          invariant k < Dist(n, probe, gap) && held.Some? && Concrete(held) == Some(carried)
          invariant at <= n && (if at == n then 0 else at) == At(n, probe, k + 1)
          invariant Moving(cs, cells, probe, c, k) && held == cs[At(n, probe, k)]
          decreases n - k, if at == n then 1 else 0
        {
          if at < |indices| {
            StepPlace(cs, cells, probe, c, k, at, gap);
            var next := indices[at];
            ghost var nextHeld := cells[at];
            MirrorSet(indices, cells, at, held.value);
            MirrorAt(indices, cells, at);
            indices := indices[at := Some(carried)];
            cells := cells[at := held];
            k := k + 1;
            if next.None? {
              break;
            }
            carried := next.value;
            held := nextHeld;
            at := at + 1;
          } else {
            at := 0;
          }
        }
      }
      InsertOrdered(cs, cells, probe, c, k);
      InsertContents(cs, cells, probe, c, k);
    }

    /** Inserts a header whose name is not indexed; a search for it has stopped at `probe`. */
    method IndexVacant(header: Header, hashValue: nat, dist0: nat, probe0: nat, staticIndex: Option<(nat, bool)>)
      returns (r: Index)
      requires Valid() && |slots| < UsableCapacity(|indices|) && header.Len() <= maxSize
      requires hashValue == hash(header.name) && header.name !in Names(slots)
      requires |indices| == |cells| && ValidMask(|indices|, mask)
      requires probe0 < |indices| && dist0 == Dist(|indices|, Home(|indices|, hashValue), probe0)
      requires Welcomes(cells, probe0, dist0)
      modifies this
      ensures Valid() && Contents() == Insert(old(Contents()), header)
      ensures r == if staticIndex.Some? then InsertedValue(staticIndex.value.0, 0) else Inserted(0)
    {
      hide Abs, And, Home, Dist, Prev, At, Disp, Mirrors, ValidMask, Ordered, Indexes, Distinct, SlotsOk, Names,
           Entries, Size, Fit, Lowered, DesiredPos, ProbeDistance, WrapSub, Link, HasGap, Fresh, FindName, Header.Len;
      ghost var name := header.name;
      ghost var home := Home(|indices|, hashValue);
      var probe: nat, dist: nat := probe0, dist0;
      RoomLeft(|slots|, |indices|, mask);
      NoTail(total);
      var evicted := UpdateSize(header.Len(), None, None, name);
      LoweredStops(old(cells), cells, probe, dist);
      if evicted {
        probe, dist := ProbeBack(probe, dist, home);
      }
      assert Welcomes(cells, probe, dist);
      ghost var cs, slots1, total1 := cells, slots, total;
      NamesPrefix(slots1, old(slots), name);
      PushSlot(header, hashValue);
      var posIdx := WrapSub(0, inserted);
      AbsFromFront(total, 0);
      ghost var c := Cell(total, hashValue);
      VacantRoom(cs, Names(slots1), total1, hash, c);
      Place(probe, Pos(posIdx, hashValue), c);
      NoTailName(slots1, name);
      SlotsOkPush(slots1, total1, hash, header, None);
      PushNew(cs, cells, Names(slots1), total1, hash, name);
      SizeFront(header, Entries(slots1));
      r := if staticIndex.Some? then InsertedValue(staticIndex.value.0, 0) else Inserted(0);
    }

    /** Steps back over positions that evictions have freed or left to a richer entry. */
    method ProbeBack(probe0: nat, dist0: nat, ghost home: nat) returns (probe: nat, dist: nat)
      requires Mirrors(indices, cells) && |indices| == |cells| && ValidMask(|indices|, mask)
      requires probe0 < |indices| && home < |indices| && dist0 == Dist(|indices|, home, probe0)
      requires StopsAt(cells, probe0, dist0)
      ensures probe < |indices| && dist == Dist(|indices|, home, probe) && Welcomes(cells, probe, dist)
    {
      hide Abs, And, Home, Dist, Prev, Disp, Mirrors, ValidMask, ProbeDistance, WrapSub;
      probe, dist := probe0, dist0;
      while dist != 0
        invariant probe < |indices| && dist == Dist(|indices|, home, probe)
        invariant StopsAt(cells, probe, dist)
      {
        var back := And(WrapSub(probe, 1), mask);
        BackIsPrev(|indices|, mask, probe);
        DistPrev(|indices|, home, probe);
        EntryAt(indices, cells, mask, back);
        if indices[back].Some? {
          var theirDist := ProbeDistance(mask, indices[back].value.hash, back);
          if theirDist < dist - 1 {
            probe, dist := back, dist - 1;
          } else {
            break;
          }
        } else {
          probe, dist := back, dist - 1;
        }
      }
    }

    /** Walks the chain of a name from its oldest slot; `r` is the position `index` stands for. */
    method IndexOccupied(header: Header, hashValue: nat, index0: nat, staticIndex: Option<nat>, ghost r0: nat)
      returns (res: Index)
      requires Valid() && |slots| < UsableCapacity(|indices|) && header.Len() <= maxSize
      requires hashValue == hash(header.name) && ValidMask(|indices|, mask)
      requires Oldest(Names(slots), r0) && Names(slots)[r0] == header.name && index0 == Abs(total - r0)
      modifies this
      ensures Valid()
      ensures match FindHeader(old(Entries(slots)), header)
              case Some(i) => res == Indexed(i + DYN_OFFSET, header) && Contents() == old(Contents())
              case None =>
                var newest := FindName(old(Entries(slots)), header.name);
                && newest.Some?
                && res == InsertedValue(if staticIndex.Some? then staticIndex.value else newest.value + DYN_OFFSET, 0)
                && Contents() == Insert(old(Contents()), header)
    {
      hide Abs, And, Shape, Indexes, InFlight, SlotsOk, Names, Entries, Size, Fit, Lowered, WrapSub, WrapAdd, Link,
           FindName, FindHeader, Newer, Pushed, Oldest, ValidMask;
      var index: nat := index0;
      ghost var r: nat := r0;
      StartChain(slots, total, hash, header, r0);
      SlotBound(|indices|, mask);
      var realIdx: nat;
      while true
        modifies {}
        invariant r < |slots| && index == Abs(total - r) && slots[r].header.name == header.name
        invariant Checked(slots, header, r)
        decreases r
      {
        RealIndex(total, total - r);
        realIdx := WrapAdd(index, inserted);
        if slots[realIdx].header.value == header.value {
          FoundHeader(slots, total, hash, header, r);
          return Indexed(realIdx + DYN_OFFSET, header);
        }
        ChainStep(slots, total, hash, header, r);
        if slots[realIdx].next.Some? {
          index := slots[realIdx].next.value;
          r := Newer(Names(slots), header.name, r).value;
        } else {
          break;
        }
      }
      AppendToChain(header, hashValue, index, r);
      res := if staticIndex.Some? then InsertedValue(staticIndex.value, 0) else InsertedValue(realIdx + DYN_OFFSET, 0);
    }

    /** Inserts a header behind the newest slot of its name, which may be evicted to make room. */
    method AppendToChain(header: Header, hashValue: nat, index: nat, ghost r: nat)
      requires Valid() && |slots| < UsableCapacity(|indices|) && header.Len() <= maxSize
      requires hashValue == hash(header.name) && ValidMask(|indices|, mask)
      requires r < |slots| && index == Abs(total - r) && Names(slots)[r] == header.name
      requires Newer(Names(slots), header.name, r).None? && FindName(Entries(slots), header.name) == Some(r)
      requires header !in Entries(slots)
      modifies this
      ensures Valid() && Contents() == Insert(old(Contents()), header)
    {
      hide Abs, And, Shape, Indexes, InFlight, SlotsOk, Names, Entries, Size, Fit, Lowered, WrapSub, WrapAdd, Link,
           FindName, Newer, Pushed, ValidMask, Header.Len, UsableCapacity, SlotOk;
      ghost var name := header.name;
      SlotBound(|indices|, mask);
      RoomLeft(|slots|, |indices|, mask);
      TailLink(total, r);
      TailInFlight(cells, Names(slots), total, hash, r, name);
      var _ := UpdateSize(header.Len(), Some(index), Some(r), name);
      ghost var slots1, total1 := slots, total;
      PushSlot(header, hashValue);
      LinkTail(index, r + 1);
      KnownRest(old(slots), slots1, header, r);
      KnownSlots(slots, slots1, total1, hash, header, if r < |slots1| then Some(r) else None);
      KnownCells(cells, Names(slots1), total1, hash, r, name);
      SizeFront(header, Entries(slots1));
    }

    /** Links the end of a chain, unless it has been evicted, to the slot just pushed. */
    method LinkTail(index: nat, ghost r: nat)
      requires inserted == total % WORD && r <= total && index == Abs(total - r) && r <= MAX_U32 + 1
      modifies `slots
      ensures slots == if r < |old(slots)| then old(slots)[r := old(slots)[r].(next := Some(Abs(total)))]
                       else old(slots)
    {
      hide Abs, WrapSub, WrapAdd;
      RealIndex(total, total - r);
      var newRealIdx := WrapAdd(index, inserted);
      if newRealIdx < |slots| {
        AbsFromFront(total, 0);
        var idx := WrapSub(0, inserted);
        slots := slots[newRealIdx := slots[newRealIdx].(next := Some(idx))];
      }
    }

    /** Reinserts one entry of the old index, the one at rotated position `r`, by linear probing. */
    method ReinsertEntryInOrder(pos: Option<Pos>, ghost cs: Cells, ghost f: nat, ghost p: nat)
      requires Shape() && ValidMask(|indices|, mask) && Ordered(cs) && Distinct(cs) && Ideal(cs, f)
      requires f < |cs| && p < |cs| && |cells| == 2 * |cs|
      requires Rehashed(cs, cells, f, Dist(|cs|, f, p)) && pos == Concrete(cs[p])
      modifies this`indices, this`cells
      ensures Shape() && |indices| == old(|indices|)
      ensures Rehashed(cs, cells, f, Dist(|cs|, f, p) + 1)
    {
      hide Abs, And, Home, Dist, At, Disp, Mirrors, ValidMask, Ordered, Distinct, Rehashed, DesiredPos, ProbeDistance,
           Ideal;
      if pos.Some? {
        ghost var c := cs[p].value;
        ghost var home := Home(|indices|, pos.value.hash);
        ghost var gap := ProbeEnds(cs, cells, f, p, c);
        ghost var dist: nat := 0;
        var probe := DesiredPos(mask, pos.value.hash);
        StartReinsert(|indices|, mask, pos.value.hash);
        while true
          modifies {}
          invariant probe <= |indices| && dist <= Dist(|indices|, home, gap)
          invariant (if probe == |indices| then 0 else probe) == At(|indices|, home, dist)
          invariant AllTaken(cells, home, dist)
          decreases Dist(|indices|, home, gap) - dist, if probe == |indices| then 1 else 0
        {
          if probe < |indices| {
            EntryAt(indices, cells, mask, probe);
            StepReinsert(cells, home, probe, dist, gap);
            if indices[probe].None? {
              break;
            }
            NeverRicher(cs, cells, f, p, c, probe, gap, mask);
            assert ProbeDistance(mask, indices[probe].value.hash, probe) >= ProbeDistance(mask, pos.value.hash, probe);
            probe := probe + 1;
            dist := dist + 1;
          } else {
            probe := 0;
          }
        }
        RehashStep(cs, cells, f, p, c, probe);
        MirrorSet(indices, cells, probe, c);
        indices := indices[probe := pos];
        cells := cells[probe := Some(c)];
        RehashedOrdered(cs, cells, f, Dist(|cs|, f, p) + 1);
      } else {
        RehashSkip(cs, cells, f, p);
      }
    }

    /** The first entry that stands where it wants to be. */
    method FindIdeal(ghost ideal: nat) returns (firstIdeal: nat)
      requires Mirrors(indices, cells) && ValidMask(|cells|, mask) && Ideal(cells, ideal)
      ensures firstIdeal < |cells| && Ideal(cells, firstIdeal)
    {
      hide Disp, Mirrors, ValidMask, ProbeDistance;
      firstIdeal := 0;
      MirrorLength(indices, cells);
      for i := 0 to |indices|
        invariant i <= ideal
      {
        EntryAt(indices, cells, mask, i);
        if indices[i].Some? && ProbeDistance(mask, indices[i].value.hash, i) == 0 {
          FoundIdeal(cells, i, ideal);
          return i;
        }
        IdealLater(cells, ideal, i);
      }
      assert false;
    }

    lemma MirrorLength(indices: seq<Option<Pos>>, cs: Cells)
      requires Mirrors(indices, cs)
      ensures |indices| == |cs|
    {
    }

    /** Doubles the index. */
    method Grow(newRawCap: nat)
      requires Valid() && ValidMask(|indices|, mask) && slots != [] && |slots| < |indices|
      requires newRawCap == 2 * |indices| && |indices| < 0x1_0000_0000
      modifies this`indices, this`cells, this`mask
      ensures Valid() && |indices| == newRawCap
    {
      hide Abs, And, Home, Dist, Disp, Mirrors, ValidMask, Ordered, Distinct, Indexes, Rehashed, Names, Entries,
           SlotsOk, ProbeDistance, Ideal, HasGap;
      ghost var cs, n := cells, |indices|;
      GapExists(cells, Names(slots), total, hash);
      ghost var ideal := SomeIdeal(cells, Names(slots), total, hash);
      DistinctCells(cells, Names(slots), total, hash);
      var firstIdeal := FindIdeal(ideal);
      var oldIndices := indices;
      indices := seq(newRawCap, _ => None);
      cells := seq(newRawCap, _ => None);
      mask := newRawCap - 1;
      StartRehash(cs, firstIdeal, mask, old(mask), newRawCap);
      for j := firstIdeal to |oldIndices|
        invariant Shape() && |indices| == |cells| == newRawCap
        invariant Rehashed(cs, cells, firstIdeal, j - firstIdeal)
      {
        RotatedUp(n, firstIdeal, j);
        MirrorAt(oldIndices, cs, j);
        ReinsertEntryInOrder(oldIndices[j], cs, firstIdeal, j);
      }
      for j := 0 to firstIdeal
        invariant Shape() && |indices| == |cells| == newRawCap
        invariant Rehashed(cs, cells, firstIdeal, n - firstIdeal + j)
      {
        RotatedDown(n, firstIdeal, j);
        MirrorAt(oldIndices, cs, j);
        ReinsertEntryInOrder(oldIndices[j], cs, firstIdeal, j);
      }
      RehashDone(cs, cells, firstIdeal);
      RehashedOrdered(cs, cells, firstIdeal, n);
      SameCells(cs, cells, Names(slots), total, hash);
    }

    /** Makes room for one more slot. */
    method ReserveOne()
      requires Valid()
      modifies this`indices, this`cells, this`mask
      ensures Valid() && ValidMask(|indices|, mask) && |slots| < UsableCapacity(|indices|)
    {
      hide Abs, And, Home, Mirrors, ValidMask, Ordered, Indexes, Names, Entries, SlotsOk, Size;
      var len := |slots|;
      SlotsBound(Entries(slots), maxSize);
      if len == UsableCapacity(|indices|) {
        if len == 0 {
          CapacityZero(|indices|, mask);
          mask := 8 - 1;
          indices := seq(8, _ => None);
          cells := seq(8, _ => None);
          FirstIndex(slots, total, hash);
        } else {
          CapacityDoubles(|indices|, mask);
          Grow(2 * |indices|);
        }
      }
    }

    /** Searches the index for the header's name, and inserts the header unless it is already there. */
    method IndexDynamic(header: Header, staticIndex: Option<(nat, bool)>) returns (r: Index)
      requires Valid() && header.Len() <= maxSize
      modifies this
      ensures Valid() && (r, Contents()) == IndexDynamicSpec(old(Contents()), header, staticIndex)
    {
      hide Abs, And, Home, Dist, At, Disp, Mirrors, ValidMask, Ordered, Indexes, SlotsOk, Names, Entries, Size, Fit,
           WrapAdd, DesiredPos, ProbeDistance, FindName, FindHeader, Header.Len, Searched, Insert;
      ReserveOne();
      var hashValue := hash(header.name);
      var matched, probe, dist;
      ghost var first;
      matched, probe, dist, first := Search(header, hashValue);
      if matched.Some? {
        r := IndexOccupied(header, hashValue, matched.value,
                           if staticIndex.Some? then Some(staticIndex.value.0) else None, first);
      } else {
        VacantSpec(slots, header);
        r := IndexVacant(header, hashValue, dist, probe, staticIndex);
      }
    }

    /** Probes for the header's name: finds the entry of its oldest slot, or the place for a new entry. */
    method Search(header: Header, hashValue: nat)
      returns (matched: Option<nat>, probe: nat, dist: nat, ghost first: nat)
      requires Valid() && ValidMask(|indices|, mask) && |slots| < UsableCapacity(|indices|)
      requires hashValue == hash(header.name)
      ensures matched.Some? ==>
                Oldest(Names(slots), first) && Names(slots)[first] == header.name && matched.value == Abs(total - first)
      ensures matched.None? ==>
                && header.name !in Names(slots) && probe < |indices| == |cells|
                && dist == Dist(|indices|, Home(|indices|, hashValue), probe) && Welcomes(cells, probe, dist)
    {
      hide Abs, And, Home, Dist, At, Disp, Mirrors, ValidMask, Ordered, Indexes, SlotsOk, Names, Entries, Size,
           WrapAdd, DesiredPos, ProbeDistance, Searched, Welcomes, Oldest;
      SlotBound(|indices|, mask);
      ghost var name, names := header.name, Names(slots);
      GapExists(cells, names, total, hash);
      ghost var home, n := Home(|indices|, hashValue), |indices|;
      probe := DesiredPos(mask, hashValue);
      dist := 0;
      first := 0;
      StartReinsert(|indices|, mask, hashValue);
      StartSearch(cells, names, total, name, home);
      while true
        modifies {}
        invariant probe <= n && dist < n
        invariant (if probe == n then 0 else probe) == At(n, home, dist)
        invariant Searched(cells, names, total, name, home, dist)
        decreases n - dist, if probe == n then 1 else 0
      {
        if probe < |indices| {
          EntryAt(indices, cells, mask, probe);
          AtDist(n, home, dist);
          if indices[probe].Some? {
            var pos := indices[probe].value;
            var theirDist := ProbeDistance(mask, pos.hash, probe);
            CellSlot(cells, names, total, hash, probe);
            ghost var i := total - cells[probe].value.ord;
            RealIndex(total, total - i);
            var slotIdx := WrapAdd(pos.index, inserted);
            if theirDist < dist {
              VacantFacts(cells, names, total, hash, name, probe, dist);
              return None, probe, dist, first;
            } else if pos.hash == hashValue && slots[slotIdx].header.name == header.name {
              return Some(pos.index), probe, dist, i;
            }
            StepSearch(cells, names, total, hash, name, probe, dist);
          } else {
            VacantFacts(cells, names, total, hash, name, probe, dist);
            return None, probe, dist, first;
          }
          probe := probe + 1;
          dist := dist + 1;
        } else {
          probe := 0;
        }
      }
    }

    /** Decides how to represent a header, inserting it into the table if that is worthwhile. */
    method IndexHeader(header: Header) returns (r: Index)
      requires Valid()
      modifies this
      ensures Valid() && (r, Contents()) == IndexSpec(old(Contents()), header)
    {
      hide FindHeader, FindName, Insert, IndexDynamicSpec, Shape, Indexes, SlotsOk, Entries, Names, Size, Header.Len;
      var staticIndex := IndexStatic(header);
      if header.SkipValueIndex() {
        SkippedIsStatic(header);
        assert staticIndex.Some?;
        return NewIndex(staticIndex, header);
      }
      if staticIndex.Some? && staticIndex.value.1 {
        return Indexed(staticIndex.value.0, header);
      }
      if header.Len() * 4 > maxSize * 3 {
        return NewIndex(staticIndex, header);
      }
      r := IndexDynamic(header, staticIndex);
    }

    /** The header an index refers to. */
    method Resolve(index: Index) returns (h: Header)
      requires match index
               case Inserted(i) => i < |slots|
               case InsertedValue(_, i) => i < |slots|
               case _ => true
      ensures h == Resolved(Contents(), index)
    {
      match index
      case Indexed(_, header) => h := header;
      case NameOnly(_, header) => h := header;
      case Inserted(i) => h := slots[i].header;
      case InsertedValue(_, i) => h := slots[i].header;
      case NotIndexed(header) => h := header;
    }
  }

  lemma RawCapacity(capacity: nat)
    requires 0 < capacity && ToRawCapacity(capacity) <= 0x1_0000_0000
    ensures var raw := Max(NextPowerOfTwo(ToRawCapacity(capacity), 0), 8);
            ValidMask(raw, raw - 1) && capacity <= UsableCapacity(raw)
  {
    Pow2Values();
    NextPowerIsPower(ToRawCapacity(capacity), 0);
    assert Pow2(3) == 8;
  }

  lemma AtDist(n: nat, home: nat, dist: nat)
    requires home < n && dist < n
    ensures Dist(n, home, At(n, home, dist)) == dist
  {
  }

  /** `c` is the cell of a slot with the given name. */
  ghost predicate Named(c: Cell, names: seq<Name>, total: nat, name: Name) {
    0 <= total - c.ord < |names| && names[total - c.ord] == name
  }

  /** A search from `home` has rightly passed `dist` positions, and none of them is the name's. */
  ghost predicate Searched(cs: Cells, names: seq<Name>, total: nat, name: Name, home: nat, dist: nat) {
    && home < |cs| && Passed(cs, home, dist)
    && forall p :: 0 <= p < |cs| && Dist(|cs|, home, p) < dist && cs[p].Some? ==>
       !Named(cs[p].value, names, total, name)
  }

  lemma StartSearch(cs: Cells, names: seq<Name>, total: nat, name: Name, home: nat)
    requires home < |cs|
    ensures Searched(cs, names, total, name, home, 0)
  {
  }

  lemma CellSlot(cs: Cells, names: seq<Name>, total: nat, hash: HashFn, p: nat)
    requires Indexes(cs, names, total, hash) && p < |cs| && cs[p].Some?
    ensures var i := total - cs[p].value.ord; Oldest(names, i) && cs[p].value.hash == hash(names[i])
  {
    assert Stands(cs[p].value, names, total, hash);
  }

  lemma StepSearch(cs: Cells, names: seq<Name>, total: nat, hash: HashFn, name: Name, p: nat, dist: nat)
    requires Indexes(cs, names, total, hash) && HasGap(cs) && p < |cs| && cs[p].Some?
    requires var home := Home(|cs|, hash(name));
             Searched(cs, names, total, name, home, dist) && Dist(|cs|, home, p) == dist && Disp(cs, p) >= dist
    requires cs[p].value.hash == hash(name) ==> !Named(cs[p].value, names, total, name)
    ensures dist + 1 < |cs| && Searched(cs, names, total, name, Home(|cs|, hash(name)), dist + 1)
    ensures At(|cs|, Home(|cs|, hash(name)), dist + 1) == if p + 1 == |cs| then 0 else p + 1
  {
    hide Home, Disp;
    var home := Home(|cs|, hash(name));
    CellSlot(cs, names, total, hash, p);
    forall q | 0 <= q < |cs| && Dist(|cs|, home, q) < dist + 1
      ensures cs[q].Some? && Disp(cs, q) >= Dist(|cs|, home, q) && !Named(cs[q].value, names, total, name)
    {
      if Dist(|cs|, home, q) == dist {
        DistUnique(|cs|, home, p, q);
      }
    }
    SearchEnds(cs, home, dist + 1);
  }

  /** Where a search stops the name is not indexed at all, and its entry belongs there. */
  lemma VacantFacts(cs: Cells, names: seq<Name>, total: nat, hash: HashFn, name: Name, p: nat, dist: nat)
    requires Indexes(cs, names, total, hash) && Ordered(cs) && p < |cs|
    requires var home := Home(|cs|, hash(name));
             Searched(cs, names, total, name, home, dist) && Dist(|cs|, home, p) == dist
    requires cs[p].Some? ==> Disp(cs, p) < dist
    ensures name !in names && Welcomes(cs, p, dist)
  {
    hide Home, Disp;
    var home := Home(|cs|, hash(name));
    DistPrev(|cs|, home, p);
    if k :| 0 <= k < |names| && names[k] == name {
      var i := OldestExists(names, k);
      var c := Cell(total - i, hash(name));
      assert Stands(c, names, total, hash);
      var q :| 0 <= q < |cs| && cs[q] == Some(c);
      SearchMisses(cs, home, p, q);
      assert false;
    }
  }

  lemma VacantSpec(slots: seq<Slot>, h: Header)
    requires h.name !in Names(slots)
    ensures FindHeader(Entries(slots), h) == None && FindName(Entries(slots), h.name) == None
  {
    NoTailName(slots, h.name);
  }

  lemma DistinctCells(cs: Cells, names: seq<Name>, total: nat, hash: HashFn)
    requires Indexes(cs, names, total, hash)
    ensures Distinct(cs)
  {
  }

  lemma SomeIdeal(cs: Cells, names: seq<Name>, total: nat, hash: HashFn) returns (f: nat)
    requires Indexes(cs, names, total, hash) && names != [] && Ordered(cs) && HasGap(cs)
    ensures Ideal(cs, f)
  {
    hide Disp;
    var gap :| 0 <= gap < |cs| && cs[gap].None?;
    var i := OldestExists(names, 0);
    assert Stands(Cell(total - i, hash(names[i])), names, total, hash);
    var q :| 0 <= q < |cs| && cs[q] == Some(Cell(total - i, hash(names[i])));
    f := IdealExists(cs, gap, q);
  }

  lemma IdealLater(cs: Cells, ideal: nat, i: nat)
    requires Ideal(cs, ideal) && ideal >= i && i < |cs| && (cs[i].Some? ==> Disp(cs, i) != 0)
    ensures ideal >= i + 1
  {
    hide Disp;
  }

  /** The scan cannot run past an ideally placed cell. */
  lemma FoundIdeal(cs: Cells, i: nat, ideal: nat)
    requires Ideal(cs, ideal) && i <= ideal && cs[i].Some? && Disp(cs, i) == 0
    ensures Ideal(cs, i)
  {
    hide Disp;
  }

  lemma RotatedUp(n: nat, f: nat, j: nat)
    requires f <= j < n
    ensures Dist(n, f, j) == j - f
  {
  }

  lemma RotatedDown(n: nat, f: nat, j: nat)
    requires j < f < n
    ensures Dist(n, f, j) == n - f + j
  {
  }

  lemma StartRehash(cs: Cells, f: nat, mask: nat, oldMask: nat, n: nat)
    requires f < |cs| && n == 2 * |cs| && |cs| < 0x1_0000_0000 && ValidMask(|cs|, oldMask) && mask == n - 1
    ensures ValidMask(n, mask)
    ensures var ns: Cells := seq(n, _ => None);
            Mirrors(seq(n, _ => None), ns) && Ordered(ns) && Rehashed(cs, ns, f, 0)
  {
    PowerOfTwoDouble(|cs|);
  }

  lemma SameCells(cs: Cells, cs': Cells, names: seq<Name>, total: nat, hash: HashFn)
    requires Indexes(cs, names, total, hash) && Distinct(cs') && forall c :: Some(c) in cs' <==> Some(c) in cs
    ensures Indexes(cs', names, total, hash)
  {
    hide Oldest;
  }

  lemma SlotsBound(entries: seq<Header>, maxSize: nat)
    requires Size(entries) <= maxSize <= MAX_U32
    ensures 32 * |entries| <= MAX_U32
  {
    SizeCounts(entries);
  }

  lemma CapacityZero(n: nat, mask: nat)
    requires (n > 0 ==> ValidMask(n, mask)) && UsableCapacity(n) == 0
    ensures n == 0
  {
    if n > 0 {
      SlotBound(n, mask);
    }
  }

  lemma CapacityDoubles(n: nat, mask: nat)
    requires n > 0 ==> ValidMask(n, mask)
    requires 32 * UsableCapacity(n) <= MAX_U32
    requires UsableCapacity(n) > 0
    ensures UsableCapacity(n) < n < 0x1000_0000 && UsableCapacity(n) < UsableCapacity(2 * n) && ValidMask(n, mask)
  {
    SlotBound(n, mask);
  }

  lemma FirstIndex(slots: seq<Slot>, total: nat, hash: HashFn)
    requires slots == []
    ensures var cs: Cells := seq(8, _ => None);
            && Mirrors(seq(8, _ => None), cs) && Ordered(cs) && Indexes(cs, Names(slots), total, hash)
    ensures ValidMask(8, 7)
  {
    Pow2Values();
    assert Names(slots) == [];
  }

  /** The first `dist` positions from `home` on are taken. */
  ghost predicate AllTaken(cs: Cells, home: nat, dist: nat)
    requires home < |cs|
  {
    forall z :: 0 <= z < |cs| && Dist(|cs|, home, z) < dist ==> cs[z].Some?
  }

  lemma StartReinsert(n: nat, mask: nat, hash: nat)
    requires ValidMask(n, mask)
    ensures n > 0 && DesiredPos(mask, hash) == At(n, Home(n, hash), 0)
  {
    SlotBound(n, mask);
    DesiredIsHome(n, hash);
  }

  lemma StepReinsert(cs: Cells, home: nat, probe: nat, dist: nat, gap: nat)
    requires home < |cs| && gap < |cs| && cs[gap].None? && dist <= Dist(|cs|, home, gap)
    requires probe == At(|cs|, home, dist) && AllTaken(cs, home, dist)
    ensures Dist(|cs|, home, probe) == dist
    ensures cs[probe].Some? ==>
              && AllTaken(cs, home, dist + 1) && dist < Dist(|cs|, home, gap)
              && At(|cs|, home, dist + 1) == if probe + 1 == |cs| then 0 else probe + 1
  {
    if cs[probe].Some? {
      if dist == Dist(|cs|, home, gap) {
        DistUnique(|cs|, home, probe, gap);
      }
      forall z | 0 <= z < |cs| && Dist(|cs|, home, z) == dist
        ensures z == probe
      {
        DistUnique(|cs|, home, z, probe);
      }
    }
  }

  lemma RehashedOrdered(cs: Cells, ns: Cells, f: nat, r: nat)
    requires f < |cs| && Rehashed(cs, ns, f, r)
    ensures Ordered(ns) && Distinct(ns)
  {
  }

  /** No entry met on the way is displaced less than the entry being reinserted. */
  lemma NeverRicher(cs: Cells, ns: Cells, f: nat, p: nat, c: Cell, y: nat, gap: nat, mask: nat)
    requires Ordered(cs) && Ideal(cs, f) && p < |cs| && cs[p] == Some(c) && ValidMask(|ns|, mask)
    requires |ns| == 2 * |cs| && Rehashed(cs, ns, f, Dist(|cs|, f, p))
    requires y < |ns| && ns[y].Some? && gap < |ns|
    requires var n := |cs|; var g, home := NewHome(n, f, c), Home(|ns|, c.hash);
             && Dist(|ns|, f, gap) == (if g < n then 0 else n) + Dist(n, f, p)
             && g <= Dist(|ns|, f, gap)
             && Dist(|ns|, home, gap) == Dist(|ns|, f, gap) - g
             && Dist(|ns|, home, y) < Dist(|ns|, home, gap)
    ensures Disp(ns, y) >= ProbeDistance(mask, c.hash, y)
  {
    hide Home, Rehashed, ProbeDistance, And;
    ProbeIsDist(|ns|, c.hash, y);
    OffsetFrom(|ns|, f, Home(|ns|, c.hash), y, gap);
    PassedIsRicher(cs, ns, f, p, c, y);
  }

  lemma OffsetFrom(n: nat, f: nat, home: nat, y: nat, gap: nat)
    requires f < n && home < n && y < n && gap < n
    requires Dist(n, f, home) <= Dist(n, f, gap) && Dist(n, home, gap) == Dist(n, f, gap) - Dist(n, f, home)
    requires Dist(n, home, y) < Dist(n, home, gap)
    ensures Dist(n, f, y) == Dist(n, f, home) + Dist(n, home, y)
  {
  }

  lemma TailLink(total: nat, r: nat)
    requires r <= total
    ensures Link(Some(r), total) == Some(Abs(total - r))
  {
  }

  lemma TailInFlight(cs: Cells, names: seq<Name>, total: nat, hash: HashFn, r: nat, name: Name)
    requires Indexes(cs, names, total, hash) && r < |names| && names[r] == name && Newer(names, name, r).None?
    ensures InFlight(cs, names, total, hash, Some(r), name)
  {
  }

  lemma KnownSlots(slots': seq<Slot>, slots: seq<Slot>, total: nat, hash: HashFn, h: Header, tail: Option<nat>)
    requires SlotsOk(slots, total, hash) && h !in Entries(slots) && tail == FindName(Entries(slots), h.name)
    requires var all := [Slot(hash(h.name), h, None)] + slots;
             slots' == if tail.Some? then all[tail.value + 1 := all[tail.value + 1].(next := Some(Abs(total + 1)))]
               else all
    ensures SlotsOk(slots', total + 1, hash)
    ensures Entries(slots') == [h] + Entries(slots) && Names(slots') == [h.name] + Names(slots)
  {
    hide SlotsOk, FindName, Abs;
    SlotsOkPush(slots, total, hash, h, tail);
    assert slots' == Pushed(slots, Slot(hash(h.name), h, None), total, tail);
  }

  /** No slot of the name of `h` that is older than `r` holds `h`. */
  ghost predicate Checked(slots: seq<Slot>, h: Header, r: nat) {
    forall k :: r < k < |slots| ==> slots[k].header != h
  }

  lemma StartChain(slots: seq<Slot>, total: nat, hash: HashFn, h: Header, r: nat)
    requires Oldest(Names(slots), r) && Names(slots)[r] == h.name
    ensures r < |slots| && slots[r].header.name == h.name && Checked(slots, h, r)
  {
    assert forall k :: 0 <= k < |slots| ==> Names(slots)[k] == slots[k].header.name;
  }

  lemma FoundHeader(slots: seq<Slot>, total: nat, hash: HashFn, h: Header, r: nat)
    requires SlotsOk(slots, total, hash) && r < |slots| && slots[r].header == h
    ensures FindHeader(Entries(slots), h) == Some(r)
  {
    hide SlotOk, FindHeader;
    assert Entries(slots)[r] == h;
    var found := FindHeader(Entries(slots), h);
    assert found.Some? ==> Entries(slots)[found.value] == slots[found.value].header;
  }

  /** From a slot that does not hold `h`, the link leads to the next newer namesake, if there is one. */
  lemma ChainStep(slots: seq<Slot>, total: nat, hash: HashFn, h: Header, r: nat)
    requires SlotsOk(slots, total, hash) && Checked(slots, h, r)
    requires r < |slots| && slots[r].header.name == h.name && slots[r].header != h
    ensures match Newer(Names(slots), h.name, r)
            case None => slots[r].next == None && FindHeader(Entries(slots), h) == None
                         && FindName(Entries(slots), h.name) == Some(r) && h !in Entries(slots)
                         && Names(slots)[r] == h.name
            case Some(j) => slots[r].next == Some(Abs(total - j)) && j < r && slots[j].header.name == h.name
                            && Checked(slots, h, j)
  {
    hide FindHeader, FindName, Newer, Abs, Names, Entries, Checked, Unique;
    assert SlotOk(slots[r], Names(slots), total, hash, r);
    if Newer(Names(slots), h.name, r).None? {
      NewestOnly(slots, h.name, r);
      ChainEnd(slots, h, r);
    } else {
      ChainChecked(slots, h, r);
    }
  }

  lemma ChainEnd(slots: seq<Slot>, h: Header, r: nat)
    requires Checked(slots, h, r) && r < |slots| && slots[r].header != h
    requires Newer(Names(slots), h.name, r).None?
    ensures h !in Entries(slots) && FindHeader(Entries(slots), h) == None
  {
    hide FindHeader, Newer;
    forall k | 0 <= k < |slots|
      ensures Entries(slots)[k] != h
    {
      assert Names(slots)[k] == slots[k].header.name;
    }
  }

  lemma ChainChecked(slots: seq<Slot>, h: Header, r: nat)
    requires Checked(slots, h, r) && r < |slots| && slots[r].header != h
    requires Newer(Names(slots), h.name, r).Some?
    ensures var j := Newer(Names(slots), h.name, r).value; slots[j].header.name == h.name && Checked(slots, h, j)
  {
    hide Newer;
    var j := Newer(Names(slots), h.name, r).value;
    forall k | j < k < |slots|
      ensures slots[k].header != h
    {
      assert Names(slots)[k] == slots[k].header.name;
    }
  }

  /** What is left of a chain after evictions. */
  lemma KnownRest(slots: seq<Slot>, rest: seq<Slot>, h: Header, r: nat)
    requires rest <= slots && h !in Entries(slots) && FindName(Entries(slots), h.name) == Some(r)
    ensures h !in Entries(rest)
    ensures FindName(Entries(rest), h.name) == if r < |rest| then Some(r) else None
  {
    hide FindName;
    assert Entries(rest) == Entries(slots)[..|rest|];
    assert r < |rest| ==> Entries(rest)[r].name == h.name;
  }

  lemma KnownCells(cs: Cells, names: seq<Name>, total: nat, hash: HashFn, r: nat, name: Name)
    requires InFlight(cs, names, total, hash, Some(r), name)
    ensures Indexes(cs, [name] + names, total + 1, hash)
  {
    hide Newer, Indexes;
    if r < |names| {
      PushKnown(cs, names, total, hash, name);
    }
  }

  lemma BackIsPrev(n: nat, mask: nat, p: nat)
    requires ValidMask(n, mask) && p < n
    ensures And(WrapSub(p, 1), mask) == Prev(n, p)
  {
    hide And, Pow2;
    var k: nat :| 3 <= k <= 32 && n == Pow2(k);
    AndLowBits(WrapSub(p, 1), k);
    Pow2Add(k, 64 - k);
    Pow2Values();
    ModMod(p - 1, n, Pow2(64 - k));
    ModUnique(p - 1, n, if p == 0 then -1 else 0, Prev(n, p));
  }

  lemma LoweredStops(cs: Cells, cs': Cells, p: nat, dist: nat)
    requires Lowered(cs, cs') && p < |cs| && StopsAt(cs, p, dist)
    ensures |cs'| == |cs| && StopsAt(cs', p, dist)
  {
    hide Disp;
  }

  lemma NamesPrefix(slots: seq<Slot>, all: seq<Slot>, name: Name)
    requires slots <= all && name !in Names(all)
    ensures name !in Names(slots)
  {
    assert forall i :: 0 <= i < |slots| ==> Names(slots)[i] == Names(all)[i];
  }

  lemma NoTailName(slots: seq<Slot>, name: Name)
    requires name !in Names(slots)
    ensures FindName(Entries(slots), name) == None
    ensures forall h :: h in Entries(slots) ==> h.name != name
  {
    assert forall i :: 0 <= i < |slots| ==> Entries(slots)[i].name == Names(slots)[i];
  }

  lemma VacantRoom(cs: Cells, names: seq<Name>, total: nat, hash: HashFn, c: Cell)
    requires Indexes(cs, names, total, hash) && |names| < |cs| && c.ord > total
    ensures Distinct(cs) && HasGap(cs) && Fresh(cs, c)
  {
    GapExists(cs, names, total, hash);
    forall p | 0 <= p < |cs| && cs[p].Some?
      ensures cs[p].value.ord != c.ord
    {
      assert Stands(cs[p].value, names, total, hash);
    }
  }

  lemma MirrorAt(indices: seq<Option<Pos>>, cs: Cells, p: nat)
    requires Mirrors(indices, cs) && p < |cs|
    ensures indices[p] == Concrete(cs[p])
  {
  }

  /** `k` cells have moved, and the one before the next position is being carried. */
  ghost predicate Moving(cs: Cells, cs': Cells, probe: nat, c: Cell, k: nat) {
    && Shifted(cs, cs', probe, c, k)
    && forall p :: 0 <= p < |cs| && Dist(|cs|, probe, p) <= k ==> cs[p].Some?
  }

  lemma StartPlace(cs: Cells, probe: nat, c: Cell, gap: nat)
    requires probe < |cs| && gap < |cs| && cs[gap].None?
    ensures At(|cs|, probe, 0) == probe && Shifted(cs, cs[probe := Some(c)], probe, c, 0)
    ensures cs[probe].None? ==> Run(cs, probe, 0)
    ensures cs[probe].Some? ==>
              && Moving(cs, cs[probe := Some(c)], probe, c, 0) && 0 < Dist(|cs|, probe, gap)
              && At(|cs|, probe, 1) == if probe + 1 == |cs| then 0 else probe + 1
  {
  }

  lemma StepPlace(cs: Cells, cs': Cells, probe: nat, c: Cell, k: nat, at: nat, gap: nat)
    requires Moving(cs, cs', probe, c, k) && gap < |cs| && cs[gap].None? && k < Dist(|cs|, probe, gap)
    requires at == At(|cs|, probe, k + 1)
    ensures cs'[at] == cs[at]
    ensures var cs'' := cs'[at := cs[At(|cs|, probe, k)]];
            && Shifted(cs, cs'', probe, c, k + 1)
            && (cs[at].None? ==> Run(cs, probe, k + 1))
            && (cs[at].Some? ==>
                  && Moving(cs, cs'', probe, c, k + 1) && k + 1 < Dist(|cs|, probe, gap)
                  && At(|cs|, probe, k + 2) == if at + 1 == |cs| then 0 else at + 1)
  {
    var n := |cs|;
    var q := At(n, probe, k);
    DistPrev(n, probe, at);
    DistUnique(n, probe, Prev(n, at), q);
    if Dist(n, probe, gap) == k + 1 {
      DistUnique(n, probe, gap, at);
    }
    forall p | 0 <= p < n && Dist(n, probe, p) == k + 1
      ensures p == at
    {
      DistUnique(n, probe, p, at);
    }
  }

  lemma EvictStep(slots: seq<Slot>, maxSize: nat, extra: nat)
    requires extra <= maxSize < Size(Entries(slots)) + extra
    ensures slots != []
    ensures var slots' := slots[..|slots| - 1];
            && Size(Entries(slots)) == Size(Entries(slots')) + slots[|slots| - 1].header.Len()
            && Fit(Entries(slots), maxSize - extra) == Fit(Entries(slots'), maxSize - extra)
  {
    if slots != [] {
      PoppedEntries(slots);
    }
  }

  lemma FitDone(entries: seq<Header>, limit: nat)
    ensures Size(entries) <= limit ==> Fit(entries, limit) == entries
  {
  }

  lemma LoweredSame(cs: Cells)
    ensures Lowered(cs, cs)
  {
  }

  lemma LoweredTrans(a: Cells, b: Cells, c: Cells)
    requires Lowered(a, b) && Lowered(b, c)
    ensures Lowered(a, c)
  {
    hide Disp;
  }

  /** The usable capacity always leaves room for one more entry and a gap. */
  lemma RoomLeft(len: nat, n: nat, mask: nat)
    requires n > 0 ==> ValidMask(n, mask)
    requires len <= UsableCapacity(n)
    ensures len == 0 || len + 1 < n
  {
    if n > 0 {
      SlotBound(n, mask);
    }
  }

  lemma SizeEmpty()
    ensures Size([]) == 0
  {
  }

  lemma NoTail(total: nat)
    ensures Link(None, total) == None
  {
  }

  lemma FitZero(entries: seq<Header>)
    ensures Fit(entries, 0) == []
  {
    SizeCounts(Fit(entries, 0));
  }

  lemma ClearedMirrors(n: nat, hash: HashFn)
    ensures var cs: Cells := seq(n, _ => None);
            && Mirrors(seq(n, _ => None), cs) && Ordered(cs) && Indexes(cs, Names([]), 0, hash)
    ensures SlotsOk([], 0, hash) && Entries([]) == []
  {
    assert Names([]) == [];
  }

  /** The stored number of the slot at `tail`. */
  ghost function Link(tail: Option<nat>, total: nat): Option<nat>
    requires tail.Some? ==> tail.value <= total
  {
    match tail
    case None => None
    case Some(t) => Some(Abs(total - t))
  }

  lemma SlotBound(n: nat, mask: nat)
    requires ValidMask(n, mask)
    ensures 8 <= n <= 0x1_0000_0000
  {
    PowerOfTwoSize(n);
  }

  lemma LinkUnique(tail: Option<nat>, total: nat, i: nat)
    requires i <= total && i <= MAX_U32 + 1 && (tail.Some? ==> tail.value <= total && tail.value <= MAX_U32)
    ensures Link(tail, total) == Some(Abs(total - i)) <==> tail == Some(i)
  {
    hide Abs;
    if tail.Some? && Abs(total - tail.value) == Abs(total - i) {
      AbsUnique(total - tail.value, total - i);
    }
  }

  /** Only one entry carries the number of the slot about to be evicted. */
  lemma EntryUnique(cs: Cells, names: seq<Name>, total: nat, hash: HashFn, tail: Option<nat>, name: Name, q: nat)
    requires InFlight(cs, names, total, hash, tail, name) && 0 < |names| <= MAX_U32 + 1
    requires q < |cs| && cs[q].Some? && cs[q].value.ord == total - (|names| - 1)
    ensures forall p :: 0 <= p < |cs| && cs[p].Some? && Abs(cs[p].value.ord) == Abs(cs[q].value.ord) ==> p == q
  {
    hide Abs, Newer;
    forall p | 0 <= p < |cs| && cs[p].Some? && Abs(cs[p].value.ord) == Abs(cs[q].value.ord)
      ensures p == q
    {
      OrdRange(cs, names, total, hash, tail, name, p);
      AbsUnique(cs[p].value.ord, cs[q].value.ord);
    }
  }

  lemma OrdRange(cs: Cells, names: seq<Name>, total: nat, hash: HashFn, tail: Option<nat>, name: Name, p: nat)
    requires InFlight(cs, names, total, hash, tail, name) && p < |cs| && cs[p].Some?
    ensures total - |names| < cs[p].value.ord <= total + 1
  {
    hide Newer;
    var c := cs[p].value;
    assert Some(c) in cs;
    if tail.Some? && tail.value >= |names| {
      assert Stands(c, [name] + names, total + 1, hash);
    } else {
      assert Stands(c, names, total, hash);
    }
  }

  lemma LastSlot(slots: seq<Slot>, total: nat, hash: HashFn)
    requires SlotsOk(slots, total, hash) && slots != []
    ensures var last, names := |slots| - 1, Names(slots);
            && names[last] == slots[last].header.name && slots[last].hash == hash(names[last])
            && slots[last].next == match Newer(names, names[last], last)
                                   case None => None
                                   case Some(j) => Some(Abs(total - j))
  {
    hide Newer, Abs;
    assert SlotOk(slots[|slots| - 1], Names(slots), total, hash, |slots| - 1);
  }

  lemma StartFind(cs: Cells, mask: nat, q: nat)
    requires ValidMask(|cs|, mask) && q < |cs| && cs[q].Some?
    ensures DesiredPos(mask, cs[q].value.hash) == At(|cs|, Home(|cs|, cs[q].value.hash), 0) < |cs|
  {
    DesiredIsHome(|cs|, cs[q].value.hash);
  }

  /** Up to the cell at `q` every position on the way from its home is occupied. */
  lemma StepFind(cs: Cells, q: nat, probe: nat, dist: nat)
    requires Ordered(cs) && q < |cs| && cs[q].Some? && dist <= Disp(cs, q)
    requires var home := Home(|cs|, cs[q].value.hash); probe == At(|cs|, home, dist)
    ensures cs[probe].Some? && (probe == q <==> dist == Disp(cs, q))
    ensures dist < Disp(cs, q) ==>
              At(|cs|, Home(|cs|, cs[q].value.hash), dist + 1) == if probe + 1 == |cs| then 0 else probe + 1
  {
    hide Home;
    NoHole(cs, q, probe);
    if dist == Disp(cs, q) {
      DistUnique(|cs|, Home(|cs|, cs[q].value.hash), probe, q);
    }
  }

  lemma RemoveLowered(cs: Cells, cs': Cells, hole: nat, k: nat)
    requires Ordered(cs) && Unshifted(cs, cs', hole, k) && cs[hole].Some? && Displaced(cs, hole, k)
    ensures Lowered(cs, cs')
  {
    forall p | 0 <= p < |cs|
      ensures cs'[p].Some? ==> cs[p].Some? && Disp(cs', p) <= Disp(cs, p)
    {
      RemoveLowers(cs, cs', hole, k, p);
    }
  }

  lemma StartUnshift(cs: Cells, hole: nat, gap: nat)
    requires hole < |cs| && gap < |cs| && cs[hole].Some? && cs[gap].None?
    ensures Unshifted(cs, cs[hole := None], hole, 0) && Displaced(cs, hole, 0)
    ensures 0 < Dist(|cs|, hole, gap) && |cs| > 1
    ensures At(|cs|, hole, 0) == hole && At(|cs|, hole, 1) == if hole + 1 == |cs| then 0 else hole + 1
  {
  }

  /** The next position has not been touched yet; if it holds no displaced cell the shift is complete. */
  lemma NextUnshift(cs: Cells, cs': Cells, hole: nat, k: nat, probe: nat, gap: nat)
    requires Unshifted(cs, cs', hole, k) && gap < |cs| && k < Dist(|cs|, hole, gap)
    requires k + 1 < |cs| && probe == At(|cs|, hole, k + 1)
    ensures |cs'| == |cs| && cs'[probe] == cs[probe]
    ensures cs[probe].Some? ==> Disp(cs', probe) == Disp(cs, probe)
    ensures (cs[probe].Some? ==> Disp(cs, probe) == 0) ==> Settled(cs, hole, k)
  {
  }

  lemma StepUnshift(cs: Cells, cs': Cells, hole: nat, k: nat, last: nat, probe: nat, gap: nat)
    requires Unshifted(cs, cs', hole, k) && Displaced(cs, hole, k)
    requires gap < |cs| && cs[gap].None? && k < Dist(|cs|, hole, gap)
    requires k + 1 < |cs| && last == At(|cs|, hole, k) && probe == At(|cs|, hole, k + 1)
    requires cs[probe].Some? && Disp(cs, probe) > 0
    ensures Unshifted(cs, cs'[last := cs'[probe]][probe := None], hole, k + 1) && Displaced(cs, hole, k + 1)
    ensures k + 1 < Dist(|cs|, hole, gap)
    ensures k + 2 < |cs| && At(|cs|, hole, k + 2) == if probe + 1 == |cs| then 0 else probe + 1
  {
    hide Home;
    var n := |cs|;
    DistUnique(n, hole, probe, At(n, hole, k + 1));
    if Dist(n, hole, gap) == k + 1 {
      DistUnique(n, hole, gap, probe);
    }
    forall p | 0 <= p < n && 1 <= Dist(n, hole, p) <= k + 1
      ensures cs[p].Some? && Disp(cs, p) > 0
    {
      if Dist(n, hole, p) == k + 1 {
        DistUnique(n, hole, p, probe);
      }
    }
  }
}
