/** The binary representations of section 6 of RFC 7541, and what decoding one of them does. */
module Representation {
  import opened Bits
  import opened Errors
  import opened Headers
  import opened IntCodec
  import opened DynamicTable
  import Huffman

  type CodeTable = Huffman.CodeTable

  datatype Kind = WithIndexing | WithoutIndexing | NeverIndexed {
    function Prefix(): nat {
      if WithIndexing? then 6 else 4
    }

    function First(): nat {
      match this
      case WithIndexing => 0x40
      case WithoutIndexing => 0
      case NeverIndexed => 0x10
    }
  }

  /** A representation; a literal with name index 0 carries its name. */
  datatype Rep =
    | IndexedRep(idx: nat)
    | LiteralRep(kind: Kind, nameIdx: nat, name: Bytes, value: Bytes)
    | SizeUpdateRep(size: nat)

  lemma FirstOctets()
    ensures ValidFirst(7, 0x80) && ValidFirst(5, 0x20)
    ensures forall k: Kind :: ValidFirst(k.Prefix(), k.First())
    ensures Pow2(7) == 128 && Pow2(6) == 64 && Pow2(5) == 32 && Pow2(4) == 16
  {
    Pow2Values();
    assert Shl(1, 7) == 128 && Shl(1, 5) == 32 && Shl(1, 6) == 64 && Shl(1, 4) == 16 && Shl(0, 4) == 0;
  }

  // ===== encoding =====

  function StrBytes(t: CodeTable, s: Bytes): Bytes
    requires |t| == 257
  {
    FirstOctets();
    if s == [] then [0] else IntBytes(|Huffman.HuffBytes(t, s)|, 7, 0x80) + Huffman.HuffBytes(t, s)
  }

  function RepBytes(t: CodeTable, rep: Rep): Bytes
    requires |t| == 257
  {
    FirstOctets();
    match rep
    case IndexedRep(i) => IntBytes(i, 7, 0x80)
    case LiteralRep(k, i, name, value) =>
      IntBytes(i, k.Prefix(), k.First()) + (if i == 0 then StrBytes(t, name) else []) + StrBytes(t, value)
    case SizeUpdateRep(n) => IntBytes(n, 5, 0x20)
  }

  /** The decoder's integer bound admits every number in the representation. */
  predicate Encodable(t: CodeTable, rep: Rep)
    requires |t| == 257
  {
    match rep
    case IndexedRep(i) => i <= MaxInt(7)
    case LiteralRep(k, i, name, value) =>
      i <= MaxInt(k.Prefix()) && EncodableString(t, value) && (i == 0 ==> EncodableString(t, name))
    case SizeUpdateRep(n) => n <= MaxInt(5)
  }

  predicate EncodableString(t: CodeTable, s: Bytes)
    requires |t| == 257
  {
    |Huffman.HuffBytes(t, s)| <= MaxInt(7)
  }

  // ===== decoding =====

  datatype RepKind = IndexedKind | LiteralKind(kind: Kind) | SizeUpdateKind

  /** The kind of representation a first octet announces. */
  function Load(b: byte): Result<RepKind> {
    if And(b, 0x80) == 0x80 then Ok(IndexedKind)
    else if And(b, 0x40) == 0x40 then Ok(LiteralKind(WithIndexing))
    else if And(b, 0xF0) == 0 then Ok(LiteralKind(WithoutIndexing))
    else if And(b, 0xF0) == 0x10 then Ok(LiteralKind(NeverIndexed))
    else if And(b, 0xE0) == 0x20 then Ok(SizeUpdateKind)
    else Err(InvalidRepresentation)
  }

  /** Every octet announces a representation. */
  lemma LoadRanges(b: byte)
    ensures Load(b) == Ok(if b >= 128 then IndexedKind
                          else if b >= 64 then LiteralKind(WithIndexing)
                          else if b >= 32 then SizeUpdateKind
                          else if b >= 16 then LiteralKind(NeverIndexed)
                          else LiteralKind(WithoutIndexing))
  {
    hide And, Pow2, Shl;
    Pow2Values();
    ByteMasks(b);
    HighBits(b / 64, b % 64, 6, 1);
    HighBits(b / 16, b % 16, 4, 15);
    HighBits(b / 32, b % 32, 5, 7);
    LowMask(b / 64, 1);
    LowMask(b / 16, 4);
    LowMask(b / 32, 3);
  }

  /** Masking with `m << k` looks at the bits from `k` on. */
  lemma HighBits(hi: nat, lo: nat, k: nat, m: nat)
    requires lo < Pow2(k)
    ensures And(hi * Pow2(k) + lo, m * Pow2(k)) == And(hi, m) * Pow2(k)
  {
    hide And, Pow2, Shl;
    ShlIsMul(hi, k);
    ShlIsMul(m, k);
    AndSplit(k, hi, lo, m, 0);
    AndZero(lo);
    ShlIsMul(And(hi, m), k);
  }

  lemma LowMask(a: nat, k: nat)
    ensures And(a, Pow2(k) - 1) == a % Pow2(k)
    ensures k == 1 ==> Pow2(k) == 2
    ensures k == 3 ==> Pow2(k) == 8
    ensures k == 4 ==> Pow2(k) == 16
  {
    AndLowBits(a, k);
    Pow2Values();
  }

  /** A string literal: its value, the octets it takes, and whether it was sent raw. */
  datatype Str = Str(value: Bytes, used: nat, raw: bool)

  function ReadString(t: CodeTable, buf: Bytes): (r: Result<Str>)
    requires |t| == 257
    ensures r.Ok? ==> 1 <= r.value.used <= |buf|
  {
    if buf == [] then Err(NeedMore(UnexpectedEndOfStream))
    else
      var (len, n) :- ReadInt(buf, 7);
      if len > |buf| - n then Err(NeedMore(StringUnderflow))
      else if buf[0] >= 128 then
        var s :- Huffman.HuffDecode(t, buf[n..n + len]);
        Ok(Str(s, n + len, false))
      else Ok(Str(buf[n..n + len], n + len, true))
  }

  /**
   The outcome of decoding one representation: the octets used, the header emitted if any, and the new
   table; or an error, with the octets that are gone from the input all the same.
   */
  datatype Step = Done(used: nat, emitted: Option<Header>, table: Fifo) | Failed(error: DecoderError, lost: nat)

  /** The codec's parameters: the Huffman code, and what the header library accepts. */
  datatype Params = Params(codes: CodeTable, values: Values)

  function DecodeStep(x: Params, table: Fifo, lastMax: nat, canResize: bool, buf: Bytes): (r: Step)
    requires |x.codes| == 257 && buf != []
    ensures r.Done? ==> 1 <= r.used <= |buf|
    ensures r.Failed? ==> r.lost <= |buf|
  {
    match Load(buf[0])
    case Err(e) => Failed(e, 0)
    case Ok(IndexedKind) => DecodeIndexed(table, buf)
    case Ok(LiteralKind(kind)) => DecodeLiteral(x, table, kind, buf)
    case Ok(SizeUpdateKind) =>
      if canResize then DecodeSizeUpdate(table, lastMax, buf) else Failed(InvalidMaxDynamicSize, 0)
  }

  function DecodeIndexed(table: Fifo, buf: Bytes): (r: Step)
    ensures r.Done? ==> 1 <= r.used <= |buf|
    ensures r.Failed? ==> r.lost == 0
  {
    match ReadInt(buf, 7)
    case Err(e) => Failed(e, 0)
    case Ok((i, n)) =>
      match Get(table, i)
      case Err(e) => Failed(e, 0)
      case Ok(h) => Done(n, Some(h), table)
  }

  function DecodeSizeUpdate(table: Fifo, lastMax: nat, buf: Bytes): (r: Step)
    ensures r.Done? ==> 1 <= r.used <= |buf|
    ensures r.Failed? ==> r.lost == 0
  {
    match ReadInt(buf, 5)
    case Err(e) => Failed(e, 0)
    case Ok((size, n)) =>
      if size > lastMax then Failed(InvalidMaxDynamicSize, 0) else Done(n, None, Resize(table, size))
  }

  function Finish(table: Fifo, kind: Kind, used: nat, h: Result<Header>, lost: nat): Step {
    match h
    case Err(e) => Failed(e, lost)
    case Ok(h) => Done(used, Some(h), if kind.WithIndexing? then Insert(table, h) else table)
  }

  function DecodeLiteral(x: Params, table: Fifo, kind: Kind, buf: Bytes): (r: Step)
    requires |x.codes| == 257
    ensures r.Done? ==> 1 <= r.used <= |buf|
    ensures r.Failed? ==> r.lost <= |buf|
  {
    match ReadInt(buf, kind.Prefix())
    case Err(e) => Failed(e, 0)
    case Ok((i, n)) =>
      if i == 0 then DecodeNewName(x, table, kind, buf, n) else DecodeOldName(x, table, kind, buf, i, n)
  }

  /** A raw string is cut out of the input as soon as it has been read, a Huffman-coded one is not. */
  function DecodeNewName(x: Params, table: Fifo, kind: Kind, buf: Bytes, n: nat): (r: Step)
    requires |x.codes| == 257 && 1 <= n <= |buf|
    ensures r.Done? ==> n < r.used <= |buf|
    ensures r.Failed? ==> r.lost <= |buf|
  {
    match ReadString(x.codes, buf[n..])
    case Err(e) => Failed(e, 0)
    case Ok(name) =>
      match ReadString(x.codes, buf[n + name.used..])
      case Err(e) => Failed(e, 0)
      case Ok(value) =>
        var used := n + name.used + value.used;
        Finish(table, kind, used, NewHeader(x.values, name.value, value.value),
               if value.raw then used else if name.raw then n + name.used else 0)
  }

  function DecodeOldName(x: Params, table: Fifo, kind: Kind, buf: Bytes, i: nat, n: nat): (r: Step)
    requires |x.codes| == 257 && 1 <= n <= |buf|
    ensures r.Done? ==> n < r.used <= |buf|
    ensures r.Failed? ==> r.lost <= |buf|
  {
    match Get(table, i)
    case Err(e) => Failed(e, 0)
    case Ok(entry) =>
      match ReadString(x.codes, buf[n..])
      case Err(e) => Failed(e, 0)
      case Ok(value) =>
        Finish(table, kind, n + value.used, IntoEntry(x.values, entry.name, value.value),
               if value.raw then n + value.used else 0)
  }

  // ===== round trips =====

  lemma ReadWritten(t: CodeTable, s: Bytes, rest: Bytes)
    requires Huffman.Good(t) && EncodableString(t, s)
    ensures ReadString(t, StrBytes(t, s) + rest) == Ok(Str(s, |StrBytes(t, s)|, s == []))
  {
    hide Pow2, Shl, And, ReadGroups, Groups, Huffman.HuffDecode, Huffman.HuffBytes, ReadInt, IntBytes;
    FirstOctets();
    var buf := StrBytes(t, s) + rest;
    if s == [] {
      ZeroByte(rest);
      assert buf == [0] + rest;
      assert buf[1..1] == [];
    } else {
      var h := Huffman.HuffBytes(t, s);
      IntCodec.DecodeEncode(|h|, 7, 0x80, h + rest);
      Huffman.DecodeEncode(t, s);
      var len := IntBytes(|h|, 7, 0x80);
      assert buf == len + (h + rest);
      assert buf[|len|..|len| + |h|] == h;
    }
  }

  lemma ZeroByte(rest: Bytes)
    ensures ReadInt([0] + rest, 7) == Ok((0, 1))
  {
    Pow2Values();
    assert ([0] + rest)[0] == 0;
    AndZero(Pow2(7) - 1);
  }

  /** Decoding inverts encoding, representation by representation. */
  lemma DecodeWritten(x: Params, table: Fifo, lastMax: nat, canResize: bool, rep: Rep, rest: Bytes)
    requires Huffman.Good(x.codes) && Encodable(x.codes, rep)
    ensures var bytes := RepBytes(x.codes, rep);
            && bytes != []
            && DecodeStep(x, table, lastMax, canResize, bytes + rest) == Meaning(x, table, lastMax, canResize, rep)
  {
    hide Pow2, Shl, And, ReadInt, IntBytes, Load, MaxInt, Get, Insert, NewHeader, IntoEntry, ReadString, StrBytes;
    FirstOctets();
    var bytes := RepBytes(x.codes, rep);
    match rep
    case IndexedRep(i) =>
      IntCodec.DecodeEncode(i, 7, 0x80, rest);
      LoadRanges(bytes[0]);
    case SizeUpdateRep(n) =>
      IntCodec.DecodeEncode(n, 5, 0x20, rest);
      LoadRanges(bytes[0]);
    case LiteralRep(k, i, name, value) =>
      LiteralWritten(x, table, k, i, name, value, rest);
      LoadRanges(bytes[0]);
  }

  lemma LiteralWritten(x: Params, table: Fifo, k: Kind, i: nat, name: Bytes, value: Bytes, rest: Bytes)
    requires Huffman.Good(x.codes) && Encodable(x.codes, LiteralRep(k, i, name, value))
    ensures var rep := LiteralRep(k, i, name, value);
            DecodeLiteral(x, table, k, RepBytes(x.codes, rep) + rest) == Meaning(x, table, 0, true, rep)
  {
    hide Pow2, Shl, And, ReadInt, IntBytes, MaxInt, Get, Insert, NewHeader, IntoEntry, ReadString, StrBytes,
         EncodableString;
    FirstOctets();
    var bytes := RepBytes(x.codes, LiteralRep(k, i, name, value)) + rest;
    var head, tail := IntBytes(i, k.Prefix(), k.First()), StrBytes(x.codes, value) + rest;
    ReadWritten(x.codes, value, rest);
    if i == 0 {
      ReadWritten(x.codes, name, tail);
      var named := StrBytes(x.codes, name) + tail;
      IntCodec.DecodeEncode(i, k.Prefix(), k.First(), named);
      assert bytes == head + named;
      assert bytes[|head|..] == named;
      assert bytes[|head| + |StrBytes(x.codes, name)|..] == tail;
    } else {
      IntCodec.DecodeEncode(i, k.Prefix(), k.First(), tail);
      assert bytes == head + tail;
      assert bytes[|head|..] == tail;
    }
  }

  /** What a representation means, independently of its octets. */
  function Meaning(x: Params, table: Fifo, lastMax: nat, canResize: bool, rep: Rep): Step
    requires |x.codes| == 257
  {
    var used := |RepBytes(x.codes, rep)|;
    match rep
    case IndexedRep(i) =>
      (match Get(table, i)
       case Err(e) => Failed(e, 0)
       case Ok(h) => Done(used, Some(h), table))
    case LiteralRep(k, i, name, value) =>
      var lost := if value == [] then used
                  else if i == 0 && name == [] then used - |StrBytes(x.codes, value)|
                  else 0;
      if i == 0 then Finish(table, k, used, NewHeader(x.values, name, value), lost)
      else
        (match Get(table, i)
         case Err(e) => Failed(e, 0)
         case Ok(entry) => Finish(table, k, used, IntoEntry(x.values, entry.name, value), lost))
    case SizeUpdateRep(n) =>
      if !canResize || n > lastMax then Failed(InvalidMaxDynamicSize, 0) else Done(used, None, Resize(table, n))
  }
}
