/** The HPACK encoder: coalesced size updates, indexed and literal fields, in-place string headers. */
module HpackEncoder {
  import opened Bits
  import opened Errors
  import opened Headers
  import opened IntCodec
  import opened Representation
  import opened EncoderTable
  import opened DynamicTable
  import NameIndex
  import Huffman


  // ===== coalesced size updates =====

  datatype SizeUpdate = One(size: nat) | Two(min: nat, max: nat)

  /** The size updates the next block will start with. */
  function Sizes(p: Option<SizeUpdate>): seq<nat> {
    match p
    case None => []
    case Some(One(v)) => [v]
    case Some(Two(min, max)) => [min, max]
  }

  /** The pending update after one more change of the maximum size. */
  function Coalesce(p: Option<SizeUpdate>, maxSize: nat, val: nat): Option<SizeUpdate> {
    match p
    case None => if val != maxSize then Some(One(val)) else None
    case Some(One(prev)) => if val > prev && prev <= maxSize then Some(Two(prev, val)) else Some(One(val))
    case Some(Two(min, _)) => if val < min then Some(One(val)) else Some(Two(min, val))
  }

  function CoalesceAll(p: Option<SizeUpdate>, maxSize: nat, vals: seq<nat>): Option<SizeUpdate>
    decreases |vals|
  {
    if vals == [] then p else CoalesceAll(Coalesce(p, maxSize, vals[0]), maxSize, vals[1..])
  }

  /** Resizing to one value after another. */
  function ResizeAll(t: Fifo, vals: seq<nat>): Fifo
    decreases |vals|
  {
    if vals == [] then t else ResizeAll(Resize(t, vals[0]), vals[1..])
  }

  function Least(vals: seq<nat>): nat
    requires vals != []
    decreases |vals|
  {
    if |vals| == 1 || vals[0] <= Least(vals[1..]) then vals[0] else Least(vals[1..])
  }

  /** A pending pair is in order. */
  predicate Ranked(p: Option<SizeUpdate>) {
    match p
    case Some(Two(min, max)) => min <= max
    case _ => true
  }

  lemma ResizeFew(t: Fifo, a: nat, b: nat)
    ensures ResizeAll(t, [a]) == Resize(t, a)
    ensures ResizeAll(t, [a, b]) == Resize(Resize(t, a), b)
  {
    hide Resize;
    assert [a, b][1..] == [b] && [b][1..] == [] && [a][1..] == [];
    assert ResizeAll(t, [a, b]) == ResizeAll(Resize(t, a), [b]);
  }

  lemma FitBounded(entries: seq<Header>, limit: nat)
    ensures Size(entries) <= limit ==> Fit(entries, limit) == entries
  {
  }

  /** One more update coalesces with what is pending without changing the outcome. */
  lemma CoalesceStep(t: Fifo, p: Option<SizeUpdate>, val: nat)
    requires Bounded(t) && Ranked(p)
    ensures Ranked(Coalesce(p, t.maxSize, val))
    ensures ResizeAll(t, Sizes(Coalesce(p, t.maxSize, val))) == Resize(ResizeAll(t, Sizes(p)), val)
  {
    hide Fit, Size, ResizeAll;
    var e := t.entries;
    EmptyResize(t);
    ResizeFew(t, val, val);
    FitBounded(e, t.maxSize);
    match p
    case None =>
    case Some(One(prev)) =>
      ResizeFew(t, prev, val);
      FitFit(e, prev, val);
      FitBounded(e, prev);
      FitBounded(e, val);
    case Some(Two(min, max)) =>
      ResizeFew(t, min, max);
      ResizeFew(t, min, val);
      FitFit(e, min, max);
      FitFit(e, min, val);
  }

  lemma EmptyResize(t: Fifo)
    ensures ResizeAll(t, []) == t
  {
  }

  lemma {:induction false} CoalesceRun(t: Fifo, p: Option<SizeUpdate>, vals: seq<nat>)
    requires Bounded(t) && Ranked(p)
    ensures Ranked(CoalesceAll(p, t.maxSize, vals))
    ensures ResizeAll(t, Sizes(CoalesceAll(p, t.maxSize, vals))) == ResizeAll(ResizeAll(t, Sizes(p)), vals)
    decreases |vals|
  {
    hide Bounded, Resize, Sizes, Coalesce, Ranked;
    if vals != [] {
      CoalesceStep(t, p, vals[0]);
      CoalesceRun(t, Coalesce(p, t.maxSize, vals[0]), vals[1..]);
    }
  }

  lemma {:induction false} ResizeToLeast(t: Fifo, vals: seq<nat>)
    requires vals != []
    ensures ResizeAll(t, vals) == Fifo(Fit(t.entries, Least(vals)), vals[|vals| - 1])
    decreases |vals|
  {
    hide Fit;
    if |vals| == 1 {
      assert vals == [vals[0]];
      ResizeFew(t, vals[0], 0);
    } else {
      ResizeToLeast(Resize(t, vals[0]), vals[1..]);
      FitFit(t.entries, vals[0], Least(vals[1..]));
    }
  }

  /**
   Whatever the updates since the last block, applying what is pending leaves the table as resizing to every
   value in turn does, that is, to the least value and then the last.
   */
  lemma Coalesced(t: Fifo, vals: seq<nat>)
    requires Bounded(t) && vals != []
    ensures var p := CoalesceAll(None, t.maxSize, vals);
            && ResizeAll(t, Sizes(p)) == ResizeAll(t, vals)
            && ResizeAll(t, vals) == Fifo(Fit(t.entries, Least(vals)), vals[|vals| - 1])
  {
    hide Bounded, Fit, Resize, CoalesceAll;
    CoalesceRun(t, None, vals);
    EmptyResize(t);
    ResizeToLeast(t, vals);
  }

  // ===== strings =====

  /** The room set aside for a string's length, in octets. */
  const PLACEHOLDER_LEN := 8

  /** The encoded length fits the placeholder. */
  predicate FitsPlaceholder(t: CodeTable, s: Bytes)
    requires |t| == 257
  {
    |Huffman.HuffBytes(t, s)| < 127 + 0x2_0000_0000_0000
  }

  lemma {:induction false} GroupsLength(v: nat, k: nat)
    requires v < Pow2(7 * (k + 1))
    ensures |Groups(v)| <= k + 1
    decreases k
  {
    if k == 0 {
      Pow2Values();
    } else {
      Pow2Add(7, 7 * k);
      Pow2Values();
      assert v / 128 < Pow2(7 * k);
      GroupsLength(v / 128, k - 1);
    }
  }

  lemma HeadLength(len: nat)
    requires len < 127 + 0x2_0000_0000_0000
    ensures ValidFirst(7, 0x80) && 1 <= |IntBytes(len, 7, 0x80)| <= PLACEHOLDER_LEN
    ensures len < 127 ==> IntBytes(len, 7, 0x80) == [Or(0x80, len % 256)]
    ensures FitsFirstByte(len, 7) <==> len < 127
  {
    hide Pow2, Or, Groups;
    FirstOctets();
    Pow2Values();
    if len < 127 {
      OrFirst(7, 0x80, len);
    } else {
      Pow2Add(28, 21);
      GroupsLength(len - 127, 6);
    }
  }

  /** Appends a string literal; a length of more than one octet is put in front by moving the string up. */
  method EncodeStr(t: CodeTable, val: Bytes, dst: Bytes) returns (r: Bytes)
    requires Huffman.Good(t) && FitsPlaceholder(t, val)
    ensures r == dst + StrBytes(t, val)
  {
    hide Pow2, Or, Groups, Huffman.HuffBytes, ValidFirst, IntBytes, FitsFirstByte;
    if val == [] {
      return dst + [0];
    }
    var idx := |dst|;
    r := dst + [0];
    r := Huffman.Encode(t, val, r);
    ghost var h := Huffman.HuffBytes(t, val);
    var huffLen: nat := |r| - (idx + 1);
    HeadLength(huffLen);
    if FitsFirstByte(huffLen, 7) {
      r := r[idx := Or(0x80, huffLen % 256)];
      assert r == dst + ([r[idx]] + h);
    } else {
      var head := EncodeInt(huffLen, 7, 0x80, []);
      var headLen := |head|;
      assert head == IntBytes(huffLen, 7, 0x80);
      r := PutHead(dst, head, h, r);
    }
  }

  /** Moves the last `|h|` octets up and puts `head` in front of them. */
  method PutHead(dst: Bytes, head: Bytes, ghost h: Bytes, buf: Bytes) returns (r: Bytes)
    requires head != [] && buf == dst + [0] + h
    ensures r == dst + (head + h)
  {
    var idx, headLen := |dst|, |head|;
    var huffLen: nat := |buf| - (idx + 1);
    r := buf + head[1..];
    for i := 0 to huffLen
      invariant |r| == idx + headLen + huffLen
      invariant forall k :: 0 <= k < idx ==> r[k] == dst[k]
      invariant forall k :: idx + 1 <= k < idx + 1 + huffLen - i ==> r[k] == h[k - idx - 1]
      invariant forall k :: idx + headLen + huffLen - i <= k < |r| ==> r[k] == h[k - idx - headLen]
    {
      var from, to := idx + 1 + (huffLen - (i + 1)), idx + headLen + (huffLen - (i + 1));
      r := r[to := r[from]];
    }
    for i := 0 to headLen
      invariant |r| == idx + headLen + huffLen
      invariant forall k :: 0 <= k < idx ==> r[k] == dst[k]
      invariant forall k :: idx <= k < idx + i ==> r[k] == head[k - idx]
      invariant forall k :: idx + headLen <= k < |r| ==> r[k] == h[k - idx - headLen]
    {
      r := r[idx + i := head[i]];
    }
  }

  // ===== fields =====

  /** A field to encode; one without a name repeats the name of the field before it. */
  datatype Item = Named(header: Header) | Nameless(value: Bytes)

  /** How a header is written, once it has been looked up. */
  function HeaderRep(index: Index, h: Header): Rep {
    match index
    case Indexed(i, _) => IndexedRep(i)
    case NameOnly(i, _) => LiteralRep(WithoutIndexing, i, [], h.value)
    case Inserted(_) => LiteralRep(WithIndexing, 0, h.name.AsSlice(), h.value)
    case InsertedValue(i, _) => LiteralRep(WithIndexing, i, [], h.value)
    case NotIndexed(_) => LiteralRep(WithoutIndexing, 0, h.name.AsSlice(), h.value)
  }

  /** The table entry that an index names the field by. */
  function ResolveIdx(index: Index): nat
    requires !index.NotIndexed?
  {
    match index
    case Indexed(i, _) => i
    case NameOnly(i, _) => i
    case Inserted(i) => i + DYN_OFFSET
    case InsertedValue(_, i) => i + DYN_OFFSET
  }

  function NamelessRep(last: Index, value: Bytes): Rep {
    if last.NotIndexed? then LiteralRep(WithoutIndexing, 0, last.header.name.AsSlice(), value)
    else LiteralRep(WithoutIndexing, ResolveIdx(last), [], value)
  }

  /** Unless there is a field before them, the items start with a name. */
  predicate Starts(follows: bool, items: seq<Item>) {
    !follows && items != [] ==> items[0].Named?
  }

  /** The representations of a list of fields, and the table they leave. */
  function ItemReps(t: Fifo, last: Option<Index>, items: seq<Item>): (seq<Rep>, Fifo)
    requires Starts(last.Some?, items)
    decreases |items|
  {
    if items == [] then ([], t)
    else
      match items[0]
      case Named(h) =>
        var (index, t') := IndexSpec(t, h);
        var (reps, t'') := ItemReps(t', Some(index), items[1..]);
        ([HeaderRep(index, h)] + reps, t'')
      case Nameless(value) =>
        var (reps, t') := ItemReps(t, last, items[1..]);
        ([NamelessRep(last.value, value)] + reps, t')
  }

  function UpdateReps(sizes: seq<nat>): (r: seq<Rep>)
    ensures |r| == |sizes| && forall i :: 0 <= i < |r| ==> r[i] == SizeUpdateRep(sizes[i])
  {
    seq(|sizes|, i requires 0 <= i < |sizes| => SizeUpdateRep(sizes[i]))
  }

  /** A header block: pending size updates, then the fields. */
  function BlockReps(t: Fifo, p: Option<SizeUpdate>, items: seq<Item>): (seq<Rep>, Fifo)
    requires Starts(false, items)
  {
    var (reps, t') := ItemReps(ResizeAll(t, Sizes(p)), None, items);
    (UpdateReps(Sizes(p)) + reps, t')
  }

  function RepsBytes(t: CodeTable, reps: seq<Rep>): Bytes
    requires |t| == 257
  {
    if reps == [] then [] else RepBytes(t, reps[0]) + RepsBytes(t, reps[1..])
  }

  /** Every string of the field fits the placeholder. */
  predicate Writable(t: CodeTable, item: Item)
    requires |t| == 257
  {
    match item
    case Named(h) => FitsPlaceholder(t, h.name.AsSlice()) && FitsPlaceholder(t, h.value)
    case Nameless(value) => FitsPlaceholder(t, value)
  }

  predicate AllWritable(t: CodeTable, items: seq<Item>)
    requires |t| == 257
  {
    forall i :: 0 <= i < |items| ==> Writable(t, items[i])
  }

  /** After indexing, the index refers to the header. */
  lemma ResolvesToHeader(t: Fifo, h: Header)
    ensures var (index, t') := IndexSpec(t, h);
            && (index.Inserted? ==> index.slot < |t'.entries|)
            && (index.InsertedValue? ==> index.slot < |t'.entries|)
            && Resolved(t', index) == h
  {
    hide Header.Len, Fit, FindHeader, FindName, Header.SkipValueIndex, IndexStatic;
  }

  lemma NoLast(t: CodeTable)
    requires |t| == 257
    ensures LastKnown(t, None)
  {
  }

  lemma EndItems(t: CodeTable, table: Fifo, last: Option<Index>)
    requires |t| == 257
    ensures ItemReps(table, last, []) == ([], table) && RepsBytes(t, []) == []
  {
  }

  lemma StepNamed(t: CodeTable, table: Fifo, last: Option<Index>, items: seq<Item>)
    requires |t| == 257 && items != [] && items[0].Named?
    ensures var (index, table') := IndexSpec(table, items[0].header);
            var rest := ItemReps(table', Some(index), items[1..]);
            var all := ItemReps(table, last, items);
            && all.1 == rest.1
            && RepsBytes(t, all.0) == RepBytes(t, HeaderRep(index, items[0].header)) + RepsBytes(t, rest.0)
  {
    hide RepBytes, HeaderRep, IndexSpec, RepsBytes;
    var (index, table') := IndexSpec(table, items[0].header);
    RepsCons(t, HeaderRep(index, items[0].header), ItemReps(table', Some(index), items[1..]).0);
  }

  lemma StepNameless(t: CodeTable, table: Fifo, last: Index, items: seq<Item>)
    requires |t| == 257 && items != [] && items[0].Nameless?
    ensures var rest := ItemReps(table, Some(last), items[1..]);
            var all := ItemReps(table, Some(last), items);
            && all.1 == rest.1
            && RepsBytes(t, all.0) == RepBytes(t, NamelessRep(last, items[0].value)) + RepsBytes(t, rest.0)
  {
    hide RepBytes, NamelessRep, RepsBytes;
    RepsCons(t, NamelessRep(last, items[0].value), ItemReps(table, Some(last), items[1..]).0);
  }

  lemma RepsCons(t: CodeTable, rep: Rep, reps: seq<Rep>)
    requires |t| == 257
    ensures RepsBytes(t, [rep] + reps) == RepBytes(t, rep) + RepsBytes(t, reps)
  {
    assert ([rep] + reps)[1..] == reps;
  }

  class Encoder {
    const codes: CodeTable
    const table: EncoderTable.Table
    var sizeUpdate: Option<SizeUpdate>

    ghost predicate Valid()
      reads this, table
    {
      && |codes| == 257 && Huffman.Good(codes) && table.Valid() && Ranked(sizeUpdate)
      && forall v :: v in Sizes(sizeUpdate) ==> v <= MAX_U32
    }

    constructor (codes: CodeTable, hash: NameIndex.HashFn, maxSize: nat, capacity: nat)
      requires Huffman.Good(codes) && maxSize <= MAX_U32 && ToRawCapacity(capacity) <= 0x1_0000_0000
      ensures Valid() && fresh(table) && table.Contents() == Fifo([], maxSize)
      ensures this.codes == codes && sizeUpdate == None
    {
      this.codes := codes;
      table := new EncoderTable.Table(maxSize, capacity, hash);
      sizeUpdate := None;
    }

    method UpdateMaxSize(val: nat)
      requires Valid() && val <= MAX_U32
      modifies `sizeUpdate
      ensures Valid() && sizeUpdate == Coalesce(old(sizeUpdate), table.Contents().maxSize, val)
      ensures ResizeAll(table.Contents(), Sizes(sizeUpdate))
              == Resize(ResizeAll(table.Contents(), Sizes(old(sizeUpdate))), val)
    {
      hide ResizeAll, Fit, Size;
      CoalesceStep(table.Contents(), sizeUpdate, val);
      match sizeUpdate
      case Some(One(prev)) =>
        if val > prev {
          if prev > table.maxSize {
            sizeUpdate := Some(One(val));
          } else {
            sizeUpdate := Some(Two(prev, val));
          }
        } else {
          sizeUpdate := Some(One(val));
        }
      case Some(Two(min, _)) =>
        if val < min {
          sizeUpdate := Some(One(val));
        } else {
          sizeUpdate := Some(Two(min, val));
        }
      case None =>
        if val != table.maxSize {
          sizeUpdate := Some(One(val));
        }
    }

    /** Encodes a block of fields at the end of `dst`. */
    method Encode(items: seq<Item>, dst: Bytes) returns (r: Bytes)
      requires Valid() && Starts(false, items) && AllWritable(codes, items)
      modifies this, table
      ensures Valid() && sizeUpdate == None
      ensures var (reps, t) := BlockReps(old(table.Contents()), old(sizeUpdate), items);
              r == dst + RepsBytes(codes, reps) && table.Contents() == t
    {
      hide Huffman.Good, EncoderTable.Table.Valid, EncoderTable.Table.Contents, IndexSpec, RepsBytes, ResizeAll,
           FitsPlaceholder, ItemReps, LastKnown, Resolved, HeaderRep, NamelessRep, Sizes;
      r := EncodeSizeUpdates(dst);
      ghost var (reps, end) := ItemReps(table.Contents(), None, items);
      RepsConcat(codes, UpdateReps(Sizes(old(sizeUpdate))), reps);
      ghost var total := r + RepsBytes(codes, reps);
      assert total == dst + RepsBytes(codes, UpdateReps(Sizes(old(sizeUpdate))) + reps);
      var last: Option<Index> := None;
      NoLast(codes);
      assert items[0..] == items;
      for i := 0 to |items|
        invariant Valid() && sizeUpdate == None
        invariant Starts(last.Some?, items[i..]) && LastKnown(codes, last)
        invariant ItemReps(table.Contents(), last, items[i..]).1 == end
        invariant total == r + RepsBytes(codes, ItemReps(table.Contents(), last, items[i..]).0)
      {
        assert items[i..][1..] == items[i + 1..] && Writable(codes, items[i]);
        match items[i]
        case Named(h) =>
          StepNamed(codes, table.Contents(), last, items[i..]);
          ResolvesToHeader(table.Contents(), h);
          IndexKeeps(codes, table.Contents(), h);
          var index := table.IndexHeader(h);
          r := EncodeHeader(index, r);
          last := Some(index);
        case Nameless(value) =>
          StepNameless(codes, table.Contents(), last.value, items[i..]);
          r := EncodeHeaderWithoutName(last.value, value, r);
      }
      assert items[|items|..] == [];
      EndItems(codes, table.Contents(), last);
      assert r == total;
    }

    method EncodeSizeUpdates(dst: Bytes) returns (r: Bytes)
      requires Valid()
      modifies table, `sizeUpdate
      ensures Valid() && sizeUpdate == None
      ensures table.Contents() == ResizeAll(old(table.Contents()), Sizes(old(sizeUpdate)))
      ensures r == dst + RepsBytes(codes, UpdateReps(Sizes(old(sizeUpdate))))
    {
      hide Huffman.Good, EncoderTable.Table.Valid, Resize, IntBytes;
      FirstOctets();
      ghost var t := table.Contents();
      match sizeUpdate
      case Some(One(val)) =>
        assert val in Sizes(sizeUpdate);
        ResizeFew(t, val, val);
        UpdateBytes(codes, val, val);
        sizeUpdate := None;
        table.Resize(val);
        r := EncodeInt(val, 5, 0x20, dst);
      case Some(Two(min, max)) =>
        assert min in Sizes(sizeUpdate) && max in Sizes(sizeUpdate);
        ResizeFew(t, min, max);
        UpdateBytes(codes, min, max);
        sizeUpdate := None;
        table.Resize(min);
        table.Resize(max);
        r := EncodeInt(min, 5, 0x20, dst);
        r := EncodeInt(max, 5, 0x20, r);
      case None =>
        r := dst;
    }

    method EncodeHeader(index: Index, dst: Bytes) returns (r: Bytes)
      requires Valid()
      requires index.Inserted? || index.InsertedValue? ==> index.slot < |table.Contents().entries|
      requires index.NameOnly? || index.InsertedValue? ==> NameIdx(index) > 0
      requires Writable(codes, Named(Resolved(table.Contents(), index)))
      ensures r == dst + RepBytes(codes, HeaderRep(index, Resolved(table.Contents(), index)))
    {
      hide Huffman.Good, EncoderTable.Table.Valid, IntBytes, FitsPlaceholder, StrBytes;
      FirstOctets();
      LiteralHeads();
      match index
      case Indexed(idx, _) =>
        r := EncodeInt(idx, 7, 0x80, dst);
      case NameOnly(idx, _) =>
        var header := table.Resolve(index);
        r := EncodeNotIndexed(codes, idx, header.value, dst);
      case Inserted(_) =>
        var header := table.Resolve(index);
        r := dst + [0x40];
        r := EncodeStr(codes, header.name.AsSlice(), r);
        r := EncodeStr(codes, header.value, r);
      case InsertedValue(idx, _) =>
        var header := table.Resolve(index);
        r := EncodeInt(idx, 6, 0x40, dst);
        r := EncodeStr(codes, header.value, r);
      case NotIndexed(_) =>
        var header := table.Resolve(index);
        r := EncodeNotIndexed2(codes, header.name.AsSlice(), header.value, dst);
    }

    method EncodeHeaderWithoutName(last: Index, value: Bytes, dst: Bytes) returns (r: Bytes)
      requires Valid() && FitsPlaceholder(codes, value) && LastKnown(codes, Some(last))
      ensures r == dst + RepBytes(codes, NamelessRep(last, value))
    {
      hide Huffman.Good, EncoderTable.Table.Valid, IntBytes, FitsPlaceholder, StrBytes;
      FirstOctets();
      LiteralHeads();
      if last.NotIndexed? {
        var header := table.Resolve(last);
        r := EncodeNotIndexed2(codes, header.name.AsSlice(), value, dst);
      } else {
        r := EncodeNotIndexed(codes, ResolveIdx(last), value, dst);
      }
    }
  }

  /** The table entry that names the field of a literal. */
  function NameIdx(index: Index): nat
    requires index.NameOnly? || index.InsertedValue?
  {
    match index
    case NameOnly(i, _) => i
    case InsertedValue(i, _) => i
  }

  /** The index of the last field can be used to name the next one. */
  predicate LastKnown(t: CodeTable, last: Option<Index>)
    requires |t| == 257
  {
    last.Some? ==>
      if last.value.NotIndexed? then FitsPlaceholder(t, last.value.header.name.AsSlice())
        else ResolveIdx(last.value) > 0
  }

  /** Indices into the address space start at 1, and an index that names no entry carries the header itself. */
  lemma IndexKeeps(codes: CodeTable, t: Fifo, h: Header)
    requires |codes| == 257
    ensures var (index, _) := IndexSpec(t, h);
            && (index.NameOnly? || index.InsertedValue? ==> NameIdx(index) > 0)
            && (Writable(codes, Named(h)) ==> LastKnown(codes, Some(index)))
  {
    hide Header.Len, Insert, FindHeader, FindName, Header.SkipValueIndex, IndexStatic, FitsPlaceholder;
    var staticIndex := IndexStatic(h);
  }

  /** A literal that carries its name starts with a single octet. */
  lemma LiteralHeads()
    ensures ValidFirst(6, 0x40) && ValidFirst(4, 0)
    ensures IntBytes(0, 6, 0x40) == [0x40] && IntBytes(0, 4, 0) == [0]
  {
    FirstOctets();
    assert forall k: Kind :: ValidFirst(k.Prefix(), k.First());
    assert ValidFirst(WithIndexing.Prefix(), WithIndexing.First());
    assert ValidFirst(WithoutIndexing.Prefix(), WithoutIndexing.First());
  }

  lemma UpdateBytes(t: CodeTable, a: nat, b: nat)
    requires |t| == 257
    ensures ValidFirst(5, 0x20)
    ensures RepsBytes(t, UpdateReps([a])) == IntBytes(a, 5, 0x20)
    ensures RepsBytes(t, UpdateReps([a, b])) == IntBytes(a, 5, 0x20) + IntBytes(b, 5, 0x20)
  {
    hide IntBytes;
    FirstOctets();
    var ra, rb := SizeUpdateRep(a), SizeUpdateRep(b);
    assert UpdateReps([a]) == [ra] + [] && UpdateReps([a, b]) == [ra] + [rb] && [rb] == [rb] + [];
    RepsCons(t, ra, []);
    RepsCons(t, rb, []);
    RepsCons(t, ra, [rb]);
  }

  lemma {:induction false} RepsConcat(t: CodeTable, a: seq<Rep>, b: seq<Rep>)
    requires |t| == 257
    ensures RepsBytes(t, a + b) == RepsBytes(t, a) + RepsBytes(t, b)
  {
    hide RepBytes;
    if a == [] {
      assert a + b == b;
    } else {
      assert (a + b)[1..] == a[1..] + b;
      RepsConcat(t, a[1..], b);
    }
  }

  method EncodeNotIndexed(t: CodeTable, name: nat, value: Bytes, dst: Bytes) returns (r: Bytes)
    requires Huffman.Good(t) && FitsPlaceholder(t, value) && name > 0
    ensures r == dst + RepBytes(t, LiteralRep(WithoutIndexing, name, [], value))
  {
    hide Huffman.Good, IntBytes, FitsPlaceholder, StrBytes;
    FirstOctets();
    LiteralHeads();
    r := EncodeInt(name, 4, 0, dst);
    r := EncodeStr(t, value, r);
  }

  method EncodeNotIndexed2(t: CodeTable, name: Bytes, value: Bytes, dst: Bytes) returns (r: Bytes)
    requires Huffman.Good(t) && FitsPlaceholder(t, name) && FitsPlaceholder(t, value)
    ensures r == dst + RepBytes(t, LiteralRep(WithoutIndexing, 0, name, value))
  {
    hide Huffman.Good, IntBytes, FitsPlaceholder, StrBytes;
    FirstOctets();
    LiteralHeads();
    r := dst + [0];
    r := EncodeStr(t, name, r);
    r := EncodeStr(t, value, r);
  }
}
