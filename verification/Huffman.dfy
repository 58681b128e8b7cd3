/** The Huffman string codec of section 5.2 of RFC 7541, over any suitable code. */
module Huffman {
  import opened Bits
  import opened BitStrings
  import opened Errors

  /** A code: for each octet, and then for EOS, its length and its bits. */
  type CodeTable = seq<(nat, nat)>

  const EOS := 256

  function CodeBits(t: CodeTable, i: nat): BitString
    requires i < |t|
  {
    NatBits(t[i].1, t[i].0)
  }

  /** What the codec needs of its code: lengths from 5 to 30, no code a prefix of another, EOS all ones. */
  ghost predicate Good(t: CodeTable) {
    && |t| == 257
    && (forall i :: 0 <= i < 257 ==> 5 <= t[i].0 <= 30 && t[i].1 < Pow2(t[i].0))
    && (forall i, j :: 0 <= i < 257 && 0 <= j < 257 && CodeBits(t, i) <= CodeBits(t, j) ==> i == j)
    && CodeBits(t, EOS) == Ones(30)
  }

  // ===== the encoded form =====

  function CodeString(t: CodeTable, s: seq<byte>): BitString
    requires |t| == 257
  {
    if s == [] then [] else CodeString(t, s[..|s| - 1]) + CodeBits(t, s[|s| - 1])
  }

  /** How many bits are missing to the next octet boundary. */
  function PadLength(n: nat): nat {
    (8 - n % 8) % 8
  }

  function Padded(s: BitString): (r: BitString)
    ensures |r| % 8 == 0
  {
    s + Ones(PadLength(|s|))
  }

  /** The codes of the octets in order, padded with fewer than eight one-bits. */
  function HuffBytes(t: CodeTable, s: seq<byte>): seq<byte>
    requires |t| == 257
  {
    Pack(Padded(CodeString(t, s)))
  }

  // ===== encoder =====

  /** The 64-bit accumulator: `pend` sits just below bit 40, stale bits above it, zeros below. */
  ghost predicate Holds(bits: nat, left: nat, pend: BitString) {
    left + |pend| == 40 && exists stale: nat :: bits == Accum(stale, left, pend)
  }

  ghost function Accum(stale: nat, left: nat, pend: BitString): nat {
    Shl(stale, 40) + Shl(Value(pend), left)
  }

  /** `bits |= code << (left - n)` appends the code to the pending bits. */
  lemma Insert(bits: nat, left: nat, pend: BitString, code: nat, n: nat)
    requires Holds(bits, left, pend) && n <= left && code < Pow2(n)
    ensures Holds(Or(bits, Shl(code, left - n)), left - n, pend + NatBits(code, n))
  {
    hide Or, Shl, Value, Pow2;
    var stale: nat :| bits == Accum(stale, left, pend);
    var v := Shl(stale, |pend|) + Value(pend);
    ShlShl(stale, |pend|, left);
    ShlAdd(Shl(stale, |pend|), Value(pend), left);
    assert bits == Shl(v, left);
    ShlShl(v, n, left - n);
    OrSplit(left - n, Shl(v, n), 0, code, 0);
    OrDisjoint(n, v, code);
    OrZero(0);
    assert Or(bits, Shl(code, left - n)) == Shl(Shl(v, n) + code, left - n);
    ShlAdd(Shl(v, n), code, left - n);
    ValueConcat(pend, NatBits(code, n));
    ValueNatBits(code, n);
    ShlShl(Value(pend), n, left - n);
    ShlAdd(Shl(Value(pend), n), code, left - n);
    assert Or(bits, Shl(code, left - n)) == Accum(stale, left - n, pend + NatBits(code, n));
  }

  /** Bit 32 of the accumulator separates the first pending octet from the rest. */
  lemma AccumAt32(stale: nat, left: nat, pend: BitString)
    requires left + |pend| == 40 && |pend| >= 8
    ensures var low := Shl(Value(pend[8..]), left);
            && Accum(stale, left, pend) == (stale * 256 + Value(pend[..8])) * 0x1_0000_0000 + low
            && low < 0x1_0000_0000
  {
    hide Shl, Value, Pow2;
    var head, rest := pend[..8], pend[8..];
    assert pend == head + rest;
    ValueConcat(head, rest);
    ShlAdd(Shl(Value(head), |rest|), Value(rest), left);
    ShlShl(Value(head), |rest|, left);
    Pow2Values();
    ShlIsMul(Value(head), 32);
    ShlIsMul(stale, 40);
    ShlBelow(Value(rest), |rest|, left);
  }

  /** `(bits >> 32) as u8` is the first pending octet, and `bits <<= 8` drops it. */
  lemma Emit(bits: nat, left: nat, pend: BitString)
    requires Holds(bits, left, pend) && |pend| >= 8
    ensures bits / 0x1_0000_0000 % 256 == PackByte(pend[..8])
    ensures Holds(bits * 256 % WORD, left + 8, pend[8..])
  {
    hide Shl, Value, Pow2;
    var stale: nat :| bits == Accum(stale, left, pend);
    var low := Shl(Value(pend[8..]), left);
    AccumAt32(stale, left, pend);
    PackByteValue(pend[..8]);
    ShlByte(bits, stale, Value(pend[..8]), low);
    var stale' := (stale * 256 + Value(pend[..8])) % 0x100_0000;
    ShlShl(Value(pend[8..]), left, 8);
    assert bits * 256 % WORD == Accum(stale', left + 8, pend[8..]);
  }

  lemma PackByteValue(s: BitString)
    requires |s| == 8
    ensures Value(s) < 256
  {
    Pow2Values();
  }

  lemma ShlByte(bits: nat, stale: nat, v: nat, low: nat)
    requires v < 256 && low < 0x1_0000_0000 && bits == (stale * 256 + v) * 0x1_0000_0000 + low
    ensures bits / 0x1_0000_0000 % 256 == v
    ensures bits * 256 % WORD == Shl((stale * 256 + v) % 0x100_0000, 40) + Shl(low, 8)
  {
    hide Shl;
    var high := stale * 256 + v;
    ShlKnown(low);
    ShlKnown(high % 0x100_0000);
    ShiftOut(bits, high, low);
  }

  lemma ShlKnown(a: nat)
    ensures Shl(a, 8) == a * 256 && Shl(a, 40) == a * 0x100_0000_0000
  {
    hide Shl, Pow2;
    Pow2Values();
    ShlIsMul(a, 8);
    ShlIsMul(a, 40);
  }

  lemma ShiftOut(bits: nat, high: nat, low: nat)
    requires low < 0x1_0000_0000 && bits == high * 0x1_0000_0000 + low
    ensures bits / 0x1_0000_0000 == high
    ensures bits * 256 % WORD == high % 0x100_0000 * 0x100_0000_0000 + low * 256
  {
    var q, r := high / 0x100_0000, high % 0x100_0000;
    ModUnique(bits * 256, WORD, q, r * 0x100_0000_0000 + low * 256);
  }

  /** `bits |= (1 << left) - 1` fills the pending bits up with ones. */
  lemma Fill(bits: nat, left: nat, pend: BitString)
    requires Holds(bits, left, pend) && 33 <= left < 40
    ensures Or(bits, Pow2(left) - 1) / 0x1_0000_0000 % 256 == PackByte(Padded(pend))
  {
    hide Or, Shl, Value, Pow2;
    Insert(bits, left, pend, Pow2(left) - 1, left);
    ShlIsMul(Pow2(left) - 1, 0);
    var all := pend + NatBits(Pow2(left) - 1, left);
    OnesBits(left);
    Emit(Or(bits, Pow2(left) - 1), 0, all);
    assert all[..8] == Padded(pend);
  }

  lemma OnesBits(n: nat)
    ensures NatBits(Pow2(n) - 1, n) == Ones(n)
    ensures Shl(Pow2(n) - 1, 0) == Pow2(n) - 1
  {
    ValueOnes(n);
    NatBitsValue(Ones(n));
  }

  /** The octets `out` written so far and the pending bits together are the codes of `s`. */
  ghost predicate Encoded(t: CodeTable, s: seq<byte>, out: seq<byte>, bits: nat, left: nat, pend: BitString)
    requires |t| == 257
  {
    Holds(bits, left, pend) && ByteBits(out) + pend == CodeString(t, s)
  }

  lemma EncodeStart(t: CodeTable)
    requires |t| == 257
    ensures Encoded(t, [], [], 0, 40, [])
  {
    ShlIsMul(0, 40);
    assert 0 == Accum(0, 40, []);
  }

  lemma EncodeOctet(t: CodeTable, s: seq<byte>, b: byte, out: seq<byte>, bits: nat, left: nat, pend: BitString)
    requires Good(t) && Encoded(t, s, out, bits, left, pend) && 33 <= left
    ensures var (n, code) := t[b];
            Encoded(t, s + [b], out, Or(bits, Shl(code, left - n)), left - n, pend + CodeBits(t, b))
  {
    hide Holds, Or, Shl, ByteBits, NatBits;
    Insert(bits, left, pend, t[b].1, t[b].0);
    assert (s + [b])[..|s|] == s;
    assert ByteBits(out) + (pend + CodeBits(t, b)) == ByteBits(out) + pend + CodeBits(t, b);
  }

  lemma EmitOctet(t: CodeTable, s: seq<byte>, out: seq<byte>, bits: nat, left: nat, pend: BitString)
    requires |t| == 257 && Encoded(t, s, out, bits, left, pend) && |pend| >= 8
    ensures Encoded(t, s, out + [bits / 0x1_0000_0000 % 256], bits * 256 % WORD, left + 8, pend[8..])
  {
    hide Holds, ByteBits, CodeString;
    var b := PackByte(pend[..8]);
    Emit(bits, left, pend);
    ByteBitsSnoc(out, b);
    NatBitsValue(pend[..8]);
    assert ByteBits(out) + pend[..8] + pend[8..] == ByteBits(out) + pend;
  }

  lemma EncodeEnd(t: CodeTable, s: seq<byte>, out: seq<byte>, bits: nat, left: nat, pend: BitString)
    requires |t| == 257 && Encoded(t, s, out, bits, left, pend) && 33 <= left <= 40 && left + |pend| == 40
    ensures HuffBytes(t, s)
            == if left == 40 then out else out + [Or(bits, Pow2(left) - 1) / 0x1_0000_0000 % 256]
  {
    hide Or, Shl, Value, ByteBits, CodeString, Pack, Holds;
    ByteBitsInverse(out);
    PadEnd(ByteBits(out), pend);
    if left < 40 {
      Fill(bits, left, pend);
      PackAppend(ByteBits(out), Padded(pend));
    }
  }

  lemma PadEnd(done: BitString, pend: BitString)
    requires |done| % 8 == 0 && |pend| < 8
    ensures Padded(done + pend) == if pend == [] then done else done + Padded(pend)
  {
    if pend == [] {
      assert Padded(done + pend) == done;
    } else {
      assert Padded(done + pend) == done + Padded(pend);
    }
  }

  method Encode(t: CodeTable, src: seq<byte>, dst: seq<byte>) returns (r: seq<byte>)
    requires Good(t)
    ensures r == dst + HuffBytes(t, src)
  {
    hide Or, Shl, Pow2, NatBits, Encoded, HuffBytes;
    var bits: nat, left: nat := 0, 40;
    ghost var out: seq<byte>, pend: BitString := [], [];
    EncodeStart(t);
    r := dst;
    for i := 0 to |src|
      invariant 33 <= left <= 40 && |pend| == 40 - left
      invariant Encoded(t, src[..i], out, bits, left, pend)
      invariant r == dst + out
    {
      var (nbits, code) := t[src[i]];
      EncodeOctet(t, src[..i], src[i], out, bits, left, pend);
      assert src[..i + 1] == src[..i] + [src[i]];
      bits := Or(bits, Shl(code, left - nbits));
      left := left - nbits;
      pend := pend + CodeBits(t, src[i]);
      while left <= 32
        invariant left <= 40 && |pend| == 40 - left
        invariant Encoded(t, src[..i + 1], out, bits, left, pend)
        invariant r == dst + out
      {
        EmitOctet(t, src[..i + 1], out, bits, left, pend);
        var octet := bits / 0x1_0000_0000 % 256;
        r, out, pend := r + [octet], out + [octet], pend[8..];
        bits := bits * 256 % WORD;
        left := left + 8;
      }
    }
    assert src[..|src|] == src;
    EncodeEnd(t, src, out, bits, left, pend);
    if left != 40 {
      bits := Or(bits, Pow2(left) - 1);
      r := r + [bits / 0x1_0000_0000 % 256];
    }
  }

  // ===== decoder =====

  /** The symbol below `n` whose code is exactly `s`. */
  function FindSymbol(t: CodeTable, s: BitString, n: nat): (r: Option<nat>)
    requires n <= |t|
    ensures r.Some? ==> r.value < n && CodeBits(t, r.value) == s
    ensures r.None? ==> forall i :: 0 <= i < n ==> CodeBits(t, i) != s
  {
    if n == 0 then None
    else if CodeBits(t, n - 1) == s then Some(n - 1)
    else FindSymbol(t, s, n - 1)
  }

  /** `s` starts the code of some symbol or of EOS. */
  predicate StartsCode(t: CodeTable, s: BitString) {
    exists i :: 0 <= i < |t| && s <= CodeBits(t, i)
  }

  datatype Walk = Fail | Reached(state: BitString, out: seq<byte>)

  /** One bit down the code tree; a state is the path from the root to the current node. */
  function Step(t: CodeTable, state: BitString, bit: bool): Walk
    requires |t| == 257
  {
    var path := state + [bit];
    match FindSymbol(t, path, 257)
    case Some(i) => if i == EOS then Fail else Reached([], [i])
    case None => if StartsCode(t, path) then Reached(path, []) else Fail
  }

  function Run(t: CodeTable, state: BitString, bits: BitString): Walk
    requires |t| == 257
    decreases |bits|
  {
    if bits == [] then Reached(state, [])
    else
      match Step(t, state, bits[0])
      case Fail => Fail
      case Reached(state', out) =>
        match Run(t, state', bits[1..])
        case Fail => Fail
        case Reached(state'', out') => Reached(state'', out + out')
  }

  /** A state in which the input may end: the bits since the last symbol are at most seven ones. */
  predicate MaybeEos(state: BitString) {
    1 <= |state| <= 7 && state == Ones(|state|)
  }

  /** An entry of the nibble automaton generated from the code tree. */
  datatype Entry = Entry(next: BitString, byte: byte, decoded: bool, maybeEos: bool, error: bool)

  function DecodeTable(t: CodeTable, state: BitString, nibble: nat): Entry
    requires |t| == 257
  {
    match Run(t, state, NatBits(nibble, 4))
    case Fail => Entry([], 0, false, false, true)
    case Reached(next, out) => Entry(next, if out == [] then 0 else out[0], out != [], MaybeEos(next), false)
  }

  /** The decoder's result, read off the bit string. */
  function HuffDecode(t: CodeTable, src: seq<byte>): Result<seq<byte>>
    requires |t| == 257
  {
    match Run(t, [], ByteBits(src))
    case Fail => Err(InvalidHuffmanCode)
    case Reached(state, out) =>
      if state == [] || MaybeEos(state) then Ok(out) else Err(InvalidHuffmanCode)
  }

  lemma {:induction false} RunConcat(t: CodeTable, state: BitString, a: BitString, b: BitString)
    requires |t| == 257
    ensures Run(t, state, a + b)
            == match Run(t, state, a)
               case Fail => Fail
               case Reached(s, out) =>
                 match Run(t, s, b)
                 case Fail => Fail
                 case Reached(s', out') => Reached(s', out + out')
    decreases |a|
  {
    hide Step;
    if a == [] {
      assert a + b == b;
    } else {
      assert (a + b)[1..] == a[1..] + b;
      var step := Step(t, state, a[0]);
      if step.Reached? {
        RunConcat(t, step.state, a[1..], b);
      }
    }
  }

  lemma RunOne(t: CodeTable, state: BitString, bit: bool)
    requires |t| == 257
    ensures Run(t, state, [bit]) == Step(t, state, bit)
  {
  }

  /** From the root, fewer than five bits complete no symbol. */
  lemma {:induction false} ShortFromRoot(t: CodeTable, bits: BitString)
    requires Good(t) && |bits| <= 4
    ensures Run(t, [], bits) in {Fail, Reached(bits, [])}
  {
    if bits != [] {
      var init, last := bits[..|bits| - 1], bits[|bits| - 1];
      ShortFromRoot(t, init);
      RunConcat(t, [], init, [last]);
      assert bits == init + [last];
      RunOne(t, init, last);
      assert forall i :: 0 <= i < 257 ==> |CodeBits(t, i)| >= 5;
    }
  }

  /** A nibble completes at most one symbol, so one byte per table entry is enough. */
  lemma {:induction false} NibbleOut(t: CodeTable, state: BitString, bits: BitString)
    requires Good(t) && |bits| <= 4
    ensures var w := Run(t, state, bits); w.Reached? ==> |w.out| <= 1
    decreases |bits|
  {
    if bits != [] {
      var step := Step(t, state, bits[0]);
      if step.Reached? {
        if step.out == [] {
          NibbleOut(t, step.state, bits[1..]);
        } else {
          ShortFromRoot(t, bits[1..]);
        }
      }
    }
  }

  class Decoder {
    const codes: CodeTable
    var state: BitString
    var maybeEos: bool

    constructor (codes: CodeTable)
      ensures this.codes == codes && state == [] && !maybeEos
    {
      this.codes := codes;
      state := [];
      maybeEos := false;
    }

    method Decode4(input: nat) returns (r: Result<Option<byte>>)
      requires Good(codes)
      modifies this
      ensures match Run(codes, old(state), NatBits(input, 4))
              case Fail => r == Err(InvalidHuffmanCode) && unchanged(this)
              case Reached(next, out) =>
                && r == Ok(if out == [] then None else Some(out[0])) && |out| <= 1
                && state == next && maybeEos == MaybeEos(next)
    {
      NibbleOut(codes, state, NatBits(input, 4));
      var entry := DecodeTable(codes, state, input);
      if entry.error {
        return Err(InvalidHuffmanCode);
      }
      r := Ok(None);
      if entry.decoded {
        r := Ok(Some(entry.byte));
      }
      state := entry.next;
      maybeEos := entry.maybeEos;
    }

    predicate IsFinal()
      reads this
    {
      state == [] || maybeEos
    }
  }

  lemma NibbleBits(b: byte)
    ensures NatBits(b, 8) == NatBits(b / 16, 4) + NatBits(b % 16, 4)
  {
    Pow2Values();
    ValueNatBits(b / 16, 4);
    ValueNatBits(b % 16, 4);
    ValueConcat(NatBits(b / 16, 4), NatBits(b % 16, 4));
    ShlIsMul(b / 16, 4);
    NatBitsValue(NatBits(b / 16, 4) + NatBits(b % 16, 4));
  }

  method Decode(t: CodeTable, src: seq<byte>) returns (r: Result<seq<byte>>)
    requires Good(t)
    ensures r == HuffDecode(t, src)
  {
    hide Run, NatBits, ByteBits;
    var decoder := new Decoder(t);
    var buf: seq<byte> := [];
    RunEmpty(t, []);
    for i := 0 to |src|
      invariant decoder.codes == t && decoder.maybeEos == MaybeEos(decoder.state)
      invariant Run(t, [], ByteBits(src[..i])) == Reached(decoder.state, buf)
    {
      var b := src[i];
      var hi, lo := NatBits(b / 16, 4), NatBits(b % 16, 4);
      NibbleBits(b);
      RunConcat(t, decoder.state, hi, lo);
      RunConcat(t, [], ByteBits(src[..i]), NatBits(b, 8));
      ByteBitsSnoc(src[..i], b);
      assert src[..i + 1] == src[..i] + [b];
      SplitBits(t, src, i + 1);
      var r1 := decoder.Decode4(b / 16);
      if r1.Err? {
        return Err(r1.error);
      }
      if r1.value.Some? {
        buf := buf + [r1.value.value];
      }
      var r2 := decoder.Decode4(b % 16);
      if r2.Err? {
        return Err(r2.error);
      }
      if r2.value.Some? {
        buf := buf + [r2.value.value];
      }
    }
    assert src[..|src|] == src;
    if !decoder.IsFinal() {
      return Err(InvalidHuffmanCode);
    }
    return Ok(buf);
  }

  lemma RunEmpty(t: CodeTable, state: BitString)
    requires |t| == 257
    ensures Run(t, state, []) == Reached(state, [])
  {
  }

  /** A failure on a prefix of the input is a failure on all of it. */
  lemma SplitBits(t: CodeTable, src: seq<byte>, i: nat)
    requires |t| == 257 && i <= |src|
    ensures Run(t, [], ByteBits(src[..i])).Fail? ==> Run(t, [], ByteBits(src)).Fail?
  {
    ByteBitsConcat(src[..i], src[i..]);
    assert src == src[..i] + src[i..];
    RunConcat(t, [], ByteBits(src[..i]), ByteBits(src[i..]));
  }

  // ===== laws =====

  /** Whatever the decoder accepts, it has read exactly the codes of its output and then its state. */
  lemma {:induction false} RunReads(t: CodeTable, state: BitString, bits: BitString)
    requires |t| == 257
    ensures var w := Run(t, state, bits);
            w.Reached? ==> state + bits == CodeString(t, w.out) + w.state
    decreases |bits|
  {
    hide Step, NatBits;
    if bits != [] {
      var step := Step(t, state, bits[0]);
      if step.Reached? {
        var w := Run(t, step.state, bits[1..]);
        if w.Reached? {
          StepReads(t, state, bits[0]);
          CodeStringConcat(t, step.out, w.out);
          calc {
            state + bits;
            state + [bits[0]] + bits[1..];
            CodeString(t, step.out) + step.state + bits[1..];
            CodeString(t, step.out) + (step.state + bits[1..]);
          == { RunReads(t, step.state, bits[1..]); }
            CodeString(t, step.out) + (CodeString(t, w.out) + w.state);
            CodeString(t, step.out + w.out) + w.state;
          }
        }
      }
    }
  }

  lemma StepReads(t: CodeTable, state: BitString, bit: bool)
    requires |t| == 257
    ensures var step := Step(t, state, bit);
            step.Reached? ==> state + [bit] == CodeString(t, step.out) + step.state
  {
    var step := Step(t, state, bit);
    if step.Reached? && step.out != [] {
      assert CodeString(t, step.out) == CodeString(t, []) + CodeBits(t, step.out[0]);
    }
  }

  lemma {:induction false} CodeStringConcat(t: CodeTable, a: seq<byte>, b: seq<byte>)
    requires |t| == 257
    ensures CodeString(t, a + b) == CodeString(t, a) + CodeString(t, b)
  {
    hide NatBits;
    if b == [] {
      assert a + b == a;
    } else {
      CodeStringConcat(t, a, b[..|b| - 1]);
      var init, last := b[..|b| - 1], b[|b| - 1];
      assert (a + b)[..|a + b| - 1] == a + init;
      assert CodeString(t, a) + CodeString(t, init) + CodeBits(t, last)
          == CodeString(t, a) + (CodeString(t, init) + CodeBits(t, last));
    }
  }

  /** Walking a proper prefix of a code ends inside the tree. */
  lemma {:induction false} RunPrefix(t: CodeTable, i: nat, n: nat)
    requires Good(t) && i < 257 && n < t[i].0
    ensures Run(t, [], CodeBits(t, i)[..n]) == Reached(CodeBits(t, i)[..n], [])
  {
    hide Run, Step, NatBits;
    var code := CodeBits(t, i);
    if n == 0 {
      RunEmpty(t, []);
    } else {
      RunPrefix(t, i, n - 1);
      RunConcat(t, [], code[..n - 1], [code[n - 1]]);
      assert code[..n] == code[..n - 1] + [code[n - 1]];
      InnerStep(t, i, n);
      RunOne(t, code[..n - 1], code[n - 1]);
    }
  }

  lemma InnerStep(t: CodeTable, i: nat, n: nat)
    requires Good(t) && i < 257 && 1 <= n < t[i].0
    ensures Step(t, CodeBits(t, i)[..n - 1], CodeBits(t, i)[n - 1]) == Reached(CodeBits(t, i)[..n], [])
  {
    var code := CodeBits(t, i);
    var path := code[..n];
    assert path == code[..n - 1] + [code[n - 1]] && path <= code;
    forall j | 0 <= j < 257
      ensures CodeBits(t, j) != path
    {
      assert CodeBits(t, j) <= code ==> j == i;
    }
  }

  /** Walking one whole code outputs its symbol and returns to the root. */
  lemma RunCode(t: CodeTable, b: byte)
    requires Good(t)
    ensures Run(t, [], CodeBits(t, b)) == Reached([], [b])
  {
    var code, n := CodeBits(t, b), t[b].0;
    RunPrefix(t, b, n - 1);
    RunConcat(t, [], code[..n - 1], [code[n - 1]]);
    assert code == code[..n - 1] + [code[n - 1]];
    var found := FindSymbol(t, code, 257);
    assert CodeBits(t, found.value) <= code;
    RunOne(t, code[..n - 1], code[n - 1]);
  }

  lemma {:induction false} RunCodes(t: CodeTable, s: seq<byte>)
    requires Good(t)
    ensures Run(t, [], CodeString(t, s)) == Reached([], s)
  {
    hide Run, NatBits;
    if s == [] {
      RunEmpty(t, []);
    } else {
      var init := s[..|s| - 1];
      RunCodes(t, init);
      RunCode(t, s[|s| - 1]);
      RunConcat(t, [], CodeString(t, init), CodeBits(t, s[|s| - 1]));
      assert s == init + [s[|s| - 1]];
    }
  }

  /** Decoding inverts encoding for every octet string. */
  lemma DecodeEncode(t: CodeTable, s: seq<byte>)
    requires Good(t)
    ensures HuffDecode(t, HuffBytes(t, s)) == Ok(s)
  {
    hide Run, Pack, CodeString;
    var codes := CodeString(t, s);
    var pad := PadLength(|codes|);
    PackInverse(Padded(codes));
    RunCodes(t, s);
    RunConcat(t, [], codes, Ones(pad));
    RunPad(t, pad);
    assert s + [] == s;
  }

  lemma RunPad(t: CodeTable, n: nat)
    requires Good(t) && n < 30
    ensures Run(t, [], Ones(n)) == Reached(Ones(n), [])
  {
    RunPrefix(t, EOS, n);
    assert CodeBits(t, EOS)[..n] == Ones(n);
  }

  /** The decoder accepts exactly the encoder's output: no other spelling of a string, no longer padding. */
  lemma DecodeExact(t: CodeTable, src: seq<byte>, s: seq<byte>)
    requires Good(t)
    ensures HuffDecode(t, src) == Ok(s) <==> src == HuffBytes(t, s)
  {
    hide Run, Pack, CodeString, ByteBits;
    DecodeEncode(t, s);
    RunReads(t, [], ByteBits(src));
    ByteBitsInverse(src);
    if HuffDecode(t, src) == Ok(s) {
      var state := Run(t, [], ByteBits(src)).state;
      var codes := CodeString(t, s);
      assert ByteBits(src) == codes + state;
      PadUnique(codes, state);
    }
  }

  lemma {:induction false} PadUnique(codes: BitString, state: BitString)
    requires (|codes| + |state|) % 8 == 0 && (state == [] || MaybeEos(state))
    ensures codes + state == Padded(codes)
  {
    assert |state| == PadLength(|codes|);
    assert state == Ones(|state|);
  }

  /** A nine-bit code with an all-ones EOS. */
  function NineBitCode(): CodeTable {
    seq(257, i requires 0 <= i < 257 => if i == EOS then (30, 0x3FFF_FFFF) else (9, i))
  }

  /** The assumptions made of the code can be met. */
  lemma NineBitCodeIsGood()
    ensures Good(NineBitCode())
  {
    hide NatBits, Value, Pow2;
    var t := NineBitCode();
    Pow2Values();
    Pow2Add(8, 1);
    Pow2Add(28, 2);
    OnesBits(30);
    forall i, j | 0 <= i < 257 && 0 <= j < 257 && CodeBits(t, i) <= CodeBits(t, j)
      ensures i == j
    {
      if i < EOS {
        ValueNatBits(i, 9);
        if j < EOS {
          ValueNatBits(j, 9);
          assert CodeBits(t, i) == CodeBits(t, j)[..9] == CodeBits(t, j);
        } else {
          assert CodeBits(t, i) == CodeBits(t, j)[..9] == Ones(9);
          ValueOnes(9);
        }
      }
    }
  }
}
