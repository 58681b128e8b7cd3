/** How long an encoded header block is, next to the size of the header list it carries. */
module BlockSize {
  import opened Bits
  import opened BitStrings
  import opened Errors
  import opened Headers
  import opened IntCodec
  import opened DynamicTable
  import opened Representation
  import opened HpackEncoder
  import EncoderTable
  import Huffman
  import Lockstep

  // ===== the size of a header list =====

  /** A field's share of SETTINGS_MAX_HEADER_LIST_SIZE, section 6.5.2 of RFC 7540. */
  function FieldSize(h: Header): nat {
    |h.name.AsSlice()| + |h.value| + 32
  }

  function ListSize(headers: seq<Header>): nat {
    if headers == [] then 0 else FieldSize(headers[0]) + ListSize(headers[1..])
  }

  // ===== the length of a block, from the lengths of the codes =====

  /** The bits that the codes of the octets take. */
  function CodeLength(t: CodeTable, s: Bytes): nat
    requires |t| == 257
  {
    if s == [] then 0 else CodeLength(t, s[..|s| - 1]) + t[s[|s| - 1]].0
  }

  function HuffOctets(t: CodeTable, s: Bytes): nat
    requires |t| == 257
  {
    (CodeLength(t, s) + 7) / 8
  }

  function GroupOctets(v: nat): nat {
    if v < 128 then 1 else 1 + GroupOctets(v / 128)
  }

  function IntOctets(v: nat, prefix: nat): nat {
    if v < Pow2(prefix) - 1 then 1 else 1 + GroupOctets(v - (Pow2(prefix) - 1))
  }

  function StrOctets(t: CodeTable, s: Bytes): nat
    requires |t| == 257
  {
    if s == [] then 1 else IntOctets(HuffOctets(t, s), 7) + HuffOctets(t, s)
  }

  function RepOctets(t: CodeTable, rep: Rep): nat
    requires |t| == 257
  {
    match rep
    case IndexedRep(i) => IntOctets(i, 7)
    case LiteralRep(k, i, name, value) =>
      IntOctets(i, k.Prefix()) + (if i == 0 then StrOctets(t, name) else 0) + StrOctets(t, value)
    case SizeUpdateRep(n) => IntOctets(n, 5)
  }

  function RepsOctets(t: CodeTable, reps: seq<Rep>): nat
    requires |t| == 257
  {
    if reps == [] then 0 else RepOctets(t, reps[0]) + RepsOctets(t, reps[1..])
  }

  lemma {:induction false} CodeLengthIs(t: CodeTable, s: Bytes)
    requires |t| == 257
    ensures |Huffman.CodeString(t, s)| == CodeLength(t, s)
  {
    hide NatBits;
    if s != [] {
      CodeLengthIs(t, s[..|s| - 1]);
    }
  }

  lemma HuffOctetsIs(t: CodeTable, s: Bytes)
    requires |t| == 257
    ensures |Huffman.HuffBytes(t, s)| == HuffOctets(t, s)
  {
    hide Huffman.CodeString, CodeLength;
    CodeLengthIs(t, s);
    var n := CodeLength(t, s);
    PackLength(Huffman.Padded(Huffman.CodeString(t, s)));
    assert |Huffman.Padded(Huffman.CodeString(t, s))| == n + Huffman.PadLength(n);
  }

  lemma {:induction false} PackLength(bits: BitString)
    requires |bits| % 8 == 0
    ensures |Pack(bits)| == |bits| / 8
    decreases |bits|
  {
    if bits != [] {
      PackLength(bits[8..]);
    }
  }

  lemma {:induction false} GroupOctetsIs(v: nat)
    ensures |Groups(v)| == GroupOctets(v)
  {
    if v >= 128 {
      GroupOctetsIs(v / 128);
    }
  }

  lemma IntOctetsIs(v: nat, prefix: nat, first: nat)
    requires ValidFirst(prefix, first)
    ensures |IntBytes(v, prefix, first)| == IntOctets(v, prefix)
  {
    hide Groups, GroupOctets, Pow2, ValidFirst;
    if v >= Pow2(prefix) - 1 {
      GroupOctetsIs(v - (Pow2(prefix) - 1));
    }
  }

  lemma StrOctetsIs(t: CodeTable, s: Bytes)
    requires |t| == 257
    ensures |StrBytes(t, s)| == StrOctets(t, s)
  {
    hide Huffman.HuffBytes, HuffOctets, IntBytes, IntOctets, ValidFirst, Pow2;
    FirstOctets();
    HuffOctetsIs(t, s);
    IntOctetsIs(HuffOctets(t, s), 7, 0x80);
  }

  lemma RepOctetsIs(t: CodeTable, rep: Rep)
    requires |t| == 257
    ensures |RepBytes(t, rep)| == RepOctets(t, rep)
  {
    hide StrBytes, StrOctets, IntBytes, IntOctets, ValidFirst, Pow2;
    FirstOctets();
    match rep
    case IndexedRep(i) => IntOctetsIs(i, 7, 0x80);
    case LiteralRep(k, i, name, value) =>
      IntOctetsIs(i, k.Prefix(), k.First());
      StrOctetsIs(t, name);
      StrOctetsIs(t, value);
    case SizeUpdateRep(n) => IntOctetsIs(n, 5, 0x20);
  }

  /** A block is as long as the lengths of its integers and codes say. */
  lemma {:induction false} RepsOctetsIs(t: CodeTable, reps: seq<Rep>)
    requires |t| == 257
    ensures |RepsBytes(t, reps)| == RepsOctets(t, reps)
  {
    hide RepBytes, RepOctets;
    if reps != [] {
      RepOctetsIs(t, reps[0]);
      RepsOctetsIs(t, reps[1..]);
    }
  }

  // ===== bounds =====

  /** No octet of the string has a code longer than `l` bits. */
  ghost predicate CodesWithin(t: CodeTable, s: Bytes, l: nat)
    requires |t| == 257
  {
    forall i :: 0 <= i < |s| ==> t[s[i]].0 <= l
  }

  /** No octet of the string has a code shorter than `m` bits. */
  ghost predicate CodesFrom(t: CodeTable, s: Bytes, m: nat)
    requires |t| == 257
  {
    forall i :: 0 <= i < |s| ==> m <= t[s[i]].0
  }

  lemma {:induction false} CodeLengthBounds(t: CodeTable, s: Bytes, l: nat, m: nat)
    requires |t| == 257
    ensures CodesWithin(t, s, l) ==> CodeLength(t, s) <= l * |s|
    ensures CodesFrom(t, s, m) ==> m * |s| <= CodeLength(t, s)
  {
    if s != [] {
      CodeLengthBounds(t, s[..|s| - 1], l, m);
      assert l * |s| == l * (|s| - 1) + l && m * |s| == m * (|s| - 1) + m;
    }
  }

  lemma GroupOctetsBound(v: nat)
    requires v < 0x1000_0000
    ensures GroupOctets(v) <= 4
  {
    assert v / 128 < 0x20_0000 && v / 128 / 128 < 0x4000 && v / 128 / 128 / 128 < 128;
    assert GroupOctets(v / 128 / 128 / 128) == 1;
    assert GroupOctets(v / 128 / 128) <= 2;
    assert GroupOctets(v / 128) <= 3;
  }

  /** An integer the decoder accepts takes at most five octets. */
  lemma IntOctetsBound(v: nat, prefix: nat)
    requires v <= MaxInt(prefix)
    ensures 1 <= IntOctets(v, prefix) <= 5
  {
    hide GroupOctets, Pow2;
    if v >= Pow2(prefix) - 1 {
      GroupOctetsBound(v - (Pow2(prefix) - 1));
    }
  }

  lemma StrOctetsBound(t: CodeTable, s: Bytes, l: nat)
    requires |t| == 257 && EncodableString(t, s) && CodesWithin(t, s, l)
    ensures 8 * StrOctets(t, s) <= l * |s| + 47
  {
    hide Huffman.HuffBytes, IntOctets, MaxInt, CodeLength;
    HuffOctetsIs(t, s);
    CodeLengthBounds(t, s, l, 0);
    IntOctetsBound(HuffOctets(t, s), 7);
    assert 0 <= l * |s|;
  }

  /** A field's strings are coded in at most `l` bits an octet. */
  ghost predicate ItemCoded(t: CodeTable, item: Item, l: nat)
    requires |t| == 257
  {
    match item
    case Named(h) => CodesWithin(t, h.name.AsSlice(), l) && CodesWithin(t, h.value, l)
    case Nameless(value) => CodesWithin(t, value, l)
  }

  ghost predicate AllCoded(t: CodeTable, items: seq<Item>, l: nat)
    requires |t| == 257
  {
    forall i :: 0 <= i < |items| ==> ItemCoded(t, items[i], l)
  }

  /** A representation of the field: an index, or a literal with its value and perhaps its name. */
  predicate Represents(rep: Rep, name: Bytes, value: Bytes) {
    match rep
    case IndexedRep(_) => true
    case LiteralRep(_, i, n, v) => v == value && (i == 0 ==> n == name)
    case SizeUpdateRep(_) => false
  }

  /** A field takes no more octets than an `l`-th of eight times its share of the list size, and ten octets less. */
  lemma RepBound(t: CodeTable, rep: Rep, name: Bytes, value: Bytes, l: nat)
    requires |t| == 257 && Encodable(t, rep) && Represents(rep, name, value) && 7 <= l
    requires CodesWithin(t, name, l) && CodesWithin(t, value, l)
    ensures 8 * RepOctets(t, rep) + 80 <= l * (|name| + |value| + 32)
  {
    hide StrOctets, IntOctets, MaxInt, EncodableString, CodesWithin;
    assert l * (|name| + |value| + 32) == l * |name| + l * |value| + 32 * l;
    assert 0 <= l * |name| && 0 <= l * |value|;
    match rep
    case IndexedRep(i) => IntOctetsBound(i, 7);
    case LiteralRep(k, i, n, v) =>
      IntOctetsBound(i, k.Prefix());
      StrOctetsBound(t, value, l);
      if i == 0 {
        StrOctetsBound(t, name, l);
      }
  }

  lemma NormalizeSize(h: Header)
    ensures FieldSize(Normalize(h)) == FieldSize(h)
  {
    hide Ascii;
  }

  lemma HeaderRepresents(t: Fifo, h: Header)
    ensures Represents(HeaderRep(EncoderTable.IndexSpec(t, h).0, h), h.name.AsSlice(), h.value)
  {
    hide EncoderTable.IndexSpec, Name.AsSlice;
    NamedIndex(t, h);
  }

  /** A field whose name is in a table is written with an index that is not zero. */
  lemma NamedIndex(t: Fifo, h: Header)
    ensures var index := EncoderTable.IndexSpec(t, h).0;
            index.NameOnly? || index.InsertedValue? ==> HeaderRep(index, h).nameIdx > 0
  {
    hide EncoderTable.FindHeader, EncoderTable.FindName, IndexStatic, Header.Len, Header.SkipValueIndex, Fit, Size;
  }

  lemma NamelessRepresents(t: Fifo, last: EncoderTable.Index, name: Name, value: Bytes)
    requires Lockstep.Refers(t, last, name)
    ensures Represents(NamelessRep(last, value), name.AsSlice(), value)
  {
    hide Name.AsSlice, GetStatic;
  }

  /** Fields coded in at most `l` bits an octet, over a whole block. */
  lemma {:induction false} ItemsBound(x: Params, t: Fifo, lastMax: nat, last: Option<EncoderTable.Index>,
      name: Option<Name>, items: seq<Item>, l: nat)
    requires Lockstep.Usable(x) && Lockstep.InBounds(t) && Lockstep.AllSendable(x, name, items)
    requires last.Some? == name.Some? && (last.Some? ==> Lockstep.Refers(t, last.value, name.value))
    requires 7 <= l && AllCoded(x.codes, items, l)
    requires name.Some? ==> CodesWithin(x.codes, name.value.AsSlice(), l)
    ensures Starts(last.Some?, items)
    ensures 8 * RepsOctets(x.codes, ItemReps(t, last, items).0) + 80 * |items|
            <= l * ListSize(Lockstep.Received(name, items))
    decreases |items|
  {
    hide Huffman.Good, Lockstep.InBounds, Lockstep.Refers, Meaning, RepOctets, Encodable, EncoderTable.IndexSpec,
         HeaderRep, NamelessRep, WellFormed, EncodableString, Lockstep.IndexFits, Normalize, CodesWithin, Represents,
         FieldSize, Name.AsSlice;
    if items != [] {
      AllCodedRest(x.codes, items, l);
      match items[0]
      case Named(h) =>
        var (index, t') := EncoderTable.IndexSpec(t, h);
        Lockstep.NamedStep(x, t, lastMax, true, h);
        ItemsBound(x, t', lastMax, Some(index), Some(h.name), items[1..], l);
        HeaderRepresents(t, h);
        NormalizeSize(h);
        RepBound(x.codes, HeaderRep(index, h), h.name.AsSlice(), h.value, l);
        FirstField(x.codes, HeaderRep(index, h), ItemReps(t', Some(index), items[1..]).0, Normalize(h),
                   Lockstep.Received(Some(h.name), items[1..]), h, l);
      case Nameless(value) =>
        var h := Header(name.value, value);
        Lockstep.NamelessStep(x, t, lastMax, true, last.value, name.value, value);
        ItemsBound(x, t, lastMax, last, name, items[1..], l);
        NamelessRepresents(t, last.value, name.value, value);
        RepBound(x.codes, NamelessRep(last.value, value), name.value.AsSlice(), value, l);
        FirstField(x.codes, NamelessRep(last.value, value), ItemReps(t, last, items[1..]).0, h,
                   Lockstep.Received(name, items[1..]), h, l);
    }
  }

  lemma AllCodedRest(t: CodeTable, items: seq<Item>, l: nat)
    requires |t| == 257 && AllCoded(t, items, l) && items != []
    ensures AllCoded(t, items[1..], l) && ItemCoded(t, items[0], l)
  {
    hide ItemCoded;
  }

  /** One field in front of others. */
  lemma FirstField(t: CodeTable, rep: Rep, reps: seq<Rep>, received: Header, rest: seq<Header>, h: Header, l: nat)
    requires |t| == 257 && FieldSize(received) == FieldSize(h)
    requires 8 * RepOctets(t, rep) + 80 <= l * (|h.name.AsSlice()| + |h.value| + 32)
    ensures 8 * RepsOctets(t, [rep] + reps) + l * ListSize(rest)
            <= l * ListSize([received] + rest) + 8 * RepsOctets(t, reps) - 80
  {
    hide RepOctets, Name.AsSlice;
    assert ([rep] + reps)[1..] == reps && ([received] + rest)[1..] == rest;
    assert l * (FieldSize(received) + ListSize(rest)) == l * FieldSize(received) + l * ListSize(rest);
  }

  lemma {:induction false} RepsOctetsConcat(t: CodeTable, a: seq<Rep>, b: seq<Rep>)
    requires |t| == 257
    ensures RepsOctets(t, a + b) == RepsOctets(t, a) + RepsOctets(t, b)
    decreases |a|
  {
    hide RepOctets;
    if a == [] {
      assert a + b == b;
    } else {
      RepsOctetsConcat(t, a[1..], b);
      assert (a + b)[1..] == a[1..] + b && (a + b)[0] == a[0];
    }
  }

  lemma {:induction false} UpdatesBound(t: CodeTable, sizes: seq<nat>)
    requires |t| == 257 && forall i :: 0 <= i < |sizes| ==> sizes[i] <= MaxInt(5)
    ensures RepsOctets(t, UpdateReps(sizes)) <= 5 * |sizes|
    decreases |sizes|
  {
    hide IntOctets, MaxInt;
    if sizes != [] {
      IntOctetsBound(sizes[0], 5);
      UpdatesBound(t, sizes[1..]);
      assert UpdateReps(sizes)[1..] == UpdateReps(sizes[1..]);
    }
  }

  /** The octets of a whole block, from the lengths of its integers and codes. */
  function BlockOctets(x: Params, t: Fifo, p: Option<SizeUpdate>, items: seq<Item>): (r: nat)
    requires |x.codes| == 257 && Starts(false, items)
  {
    RepsOctets(x.codes, BlockReps(t, p, items).0)
  }

  /**
   A block of fields that are coded in at most `l` bits an octet takes at most an `l`-th of eight times the size of the
   list it carries, or ten octets if it carries nothing.
   */
  lemma BlockWithin(x: Params, t: Fifo, p: Option<SizeUpdate>, items: seq<Item>, l: nat)
    requires Lockstep.Usable(x) && Lockstep.InBounds(t) && Lockstep.AllSendable(x, None, items)
    requires forall i :: 0 <= i < |Sizes(p)| ==> Sizes(p)[i] <= EncoderTable.MAX_U32 && Sizes(p)[i] <= MaxInt(5)
    requires 7 <= l && AllCoded(x.codes, items, l)
    ensures Starts(false, items)
    ensures if items == [] then BlockOctets(x, t, p, items) <= 10
            else 8 * BlockOctets(x, t, p, items) <= l * ListSize(Lockstep.Received(None, items))
  {
    hide Huffman.Good, Lockstep.InBounds, ResizeAll, ItemReps, RepsOctets, Lockstep.AllSendable, Lockstep.Received,
         ListSize, AllCoded, MaxInt;
    var t' := ResizeAll(t, Sizes(p));
    Lockstep.ResizeInBounds(t, Sizes(p));
    ItemsBound(x, t', 0, None, None, items, l);
    UpdatesBound(x.codes, Sizes(p));
    RepsOctetsConcat(x.codes, UpdateReps(Sizes(p)), ItemReps(t', None, items).0);
    if items == [] {
      NoItems(x.codes, t');
    }
  }

  lemma NoItems(t: CodeTable, table: Fifo)
    requires |t| == 257
    ensures RepsOctets(t, ItemReps(table, None, []).0) == 0
  {
  }

  // ===== blocks that grow =====

  /** No static entry has a long value. */
  lemma StaticValueShort(h: Header)
    requires IndexStatic(h).Some? && IndexStatic(h).value.1
    ensures |h.value| <= 13
  {
    hide FindField;
  }

  /** A long value that is in no table is written out, in at least `m` bits an octet. */
  lemma ValueWritten(t: CodeTable, table: Fifo, h: Header, m: nat)
    requires |t| == 257 && table.entries == [] && |h.value| > 13 && CodesFrom(t, h.value, m)
    ensures m * |h.value| <= 8 * RepOctets(t, HeaderRep(EncoderTable.IndexSpec(table, h).0, h))
  {
    hide IndexStatic, CodeLength, IntOctets, Header.Len, Header.SkipValueIndex, Fit, Size, Name.AsSlice, CodesFrom;
    if IndexStatic(h).Some? && IndexStatic(h).value.1 {
      StaticValueShort(h);
    }
    CodeLengthBounds(t, h.value, 0, m);
    assert 8 * HuffOctets(t, h.value) >= CodeLength(t, h.value);
  }

  /** A string of less than 2^26 octets can be read whatever its codes are. */
  lemma ShortEncodable(t: CodeTable, s: Bytes)
    requires Huffman.Good(t) && |s| < 0x400_0000
    ensures EncodableString(t, s)
  {
    hide CodeLength, Pow2, NatBits;
    Pow2Values();
    HuffOctetsIs(t, s);
    CodeLengthBounds(t, s, 30, 0);
  }

  /** Every code has at least five bits. */
  lemma FiveBits(t: CodeTable, s: Bytes)
    requires Huffman.Good(t)
    ensures CodesFrom(t, s, 5)
  {
  }
}
