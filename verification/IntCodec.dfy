/** The variable-length integers of section 5.1 of RFC 7541. */
module IntCodec {
  import opened Bits
  import opened Errors

  /** The most octets the decoder reads for one integer, prefix included. */
  const MAX_BYTES := 5

  /** The largest value whose encoding fits in MAX_BYTES octets: four groups of seven bits. */
  function MaxInt(prefix: nat): nat {
    Pow2(prefix) - 1 + (0x1000_0000 - 1)
  }

  // ===== encoding =====

  /** Groups of seven bits, least significant first, all but the last with the top bit set. */
  function Groups(v: nat): (r: seq<byte>)
    ensures |r| >= 1
  {
    if v < 128 then [v] else [128 + v % 128] + Groups(v / 128)
  }

  function IntBytes(v: nat, prefix: nat, first: nat): (r: seq<byte>)
    requires ValidFirst(prefix, first)
    ensures |r| >= 1 && first <= r[0] < first + Pow2(prefix)
  {
    var low := Pow2(prefix) - 1;
    if v < low then [first + v] else [first + low] + Groups(v - low)
  }

  /** `first` leaves the low `prefix` bits of its byte free. */
  ghost predicate ValidFirst(prefix: nat, first: nat) {
    1 <= prefix <= 8 && first + Pow2(prefix) <= 256 && exists q: nat :: first == Shl(q, prefix)
  }

  predicate FitsFirstByte(v: nat, prefix: nat) {
    v < Pow2(prefix) - 1
  }

  lemma OrFirst(prefix: nat, first: nat, v: nat)
    requires ValidFirst(prefix, first) && v < Pow2(prefix)
    ensures Or(first, v % 256) == first + v
  {
    hide Or, Pow2;
    var q: nat :| first == Shl(q, prefix);
    OrDisjoint(prefix, q, v);
  }

  lemma OrTopBit(v: nat)
    ensures Or(128, v % 256) == 128 + v % 128
  {
    var h, l := v % 256 / 128, v % 128;
    assert v % 256 == h * 128 + l;
    OrHigh(h, l);
  }

  lemma OrHigh(h: nat, l: nat)
    requires h < 2 && l < 128
    ensures Or(128, h * 128 + l) == 128 + l
  {
    OrOne(h);
    hide Or, Pow2, Shl;
    Pow2Values();
    ShlIsMul(1, 7);
    ShlIsMul(h, 7);
    OrSplit(7, 1, 0, h, l);
    OrZero(l);
  }

  lemma OrOne(h: nat)
    requires h < 2
    ensures Or(1, h) == 1
  {
    assert Or(0, 0) == 0;
  }

  method EncodeInt(value: nat, prefix: nat, first: nat, dst: seq<byte>) returns (r: seq<byte>)
    requires ValidFirst(prefix, first)
    ensures r == dst + IntBytes(value, prefix, first)
  {
    hide Or, Pow2;
    var low := Pow2(prefix) - 1;
    if FitsFirstByte(value, prefix) {
      OrFirst(prefix, first, value);
      return dst + [Or(first, value % 256)];
    }
    var v: nat := value - low;
    OrFirst(prefix, first, low);
    r := dst + [Or(first, low % 256)];
    assert r + Groups(v) == dst + ([first + low] + Groups(v));
    while v >= 128
      invariant r + Groups(v) == dst + IntBytes(value, prefix, first)
    {
      OrTopBit(v);
      var g := Or(0x80, v % 256);
      assert r + Groups(v) == (r + [g]) + Groups(v / 128);
      r, v := r + [g], v / 128;
    }
    r := r + [v % 256];
  }

  // ===== decoding =====

  /** The integer at the start of `buf`, with the number of octets it takes. */
  function ReadInt(buf: seq<byte>, prefix: nat): (r: Result<(nat, nat)>)
    ensures r.Ok? ==> 1 <= r.value.1 <= |buf|
  {
    if !(1 <= prefix <= 8) then Err(InvalidIntegerPrefix)
    else if buf == [] then Err(NeedMore(IntegerUnderflow))
    else
      var ret := And(buf[0], Pow2(prefix) - 1);
      if ret < Pow2(prefix) - 1 then Ok((ret, 1)) else ReadGroups(buf, 1, ret)
  }

  function ReadGroups(buf: seq<byte>, bytes: nat, ret: nat): (r: Result<(nat, nat)>)
    requires 1 <= bytes <= |buf|
    ensures r.Ok? ==> bytes < r.value.1 <= |buf|
    decreases |buf| - bytes
  {
    if bytes == |buf| then Err(NeedMore(IntegerUnderflow))
    else
      var ret' := ret + Shl(buf[bytes] % 128, 7 * (bytes - 1));
      if buf[bytes] < 128 then Ok((ret', bytes + 1))
      else if bytes + 1 == MAX_BYTES then Err(IntegerOverflow)
      else ReadGroups(buf, bytes + 1, ret')
  }

  lemma ByteMasks(b: byte)
    ensures And(b, 0x7F) == b % 128
    ensures And(b, 0x80) == if b < 128 then 0 else 0x80
  {
    AndOne(b / 128);
    hide And, Pow2, Shl;
    Pow2Values();
    AndLowBits(b, 7);
    ShlIsMul(b / 128, 7);
    ShlIsMul(1, 7);
    AndSplit(7, b / 128, b % 128, 1, 0);
    AndZero(b % 128);
    ShlIsMul(b / 128, 7);
  }

  lemma AndOne(h: nat)
    requires h < 2
    ensures And(h, 1) == h
  {
    assert And(0, 0) == 0;
  }

  method DecodeInt(buf: seq<byte>, prefix: nat) returns (r: Result<(nat, nat)>)
    ensures r == ReadInt(buf, prefix)
  {
    if !(1 <= prefix <= 8) {
      return Err(InvalidIntegerPrefix);
    }
    if |buf| == 0 {
      return Err(NeedMore(IntegerUnderflow));
    }
    hide And, Pow2, Shl;
    Pow2Values();
    var mask := if prefix == 8 then 0xFF else Pow2(prefix) - 1;
    var ret: nat := And(buf[0], mask);
    if ret < mask {
      return Ok((ret, 1));
    }
    var bytes: nat, shift: nat := 1, 0;
    while bytes < |buf|
      invariant 1 <= bytes <= |buf| && shift == 7 * (bytes - 1) && ret >= 0
      invariant ReadGroups(buf, bytes, ret) == ReadInt(buf, prefix)
    {
      var b := buf[bytes];
      ByteMasks(b);
      assert shift == 7 * (bytes - 1) && b == buf[bytes];
      bytes := bytes + 1;
      ret := ret + Shl(And(b, 0x7F), shift);
      shift := shift + 7;
      if And(b, 0x80) == 0 {
        return Ok((ret, bytes));
      }
      if bytes == MAX_BYTES {
        return Err(IntegerOverflow);
      }
    }
    return Err(NeedMore(IntegerUnderflow));
  }

  // ===== laws =====

  lemma {:induction false} GroupsRead(pre: seq<byte>, v: nat, rest: seq<byte>, ret: nat)
    requires 1 <= |pre| <= 4
    ensures var r := ReadGroups(pre + Groups(v) + rest, |pre|, ret);
            var cap := Pow2(7 * (5 - |pre|));
            r == if v < cap then Ok((ret + Shl(v, 7 * (|pre| - 1)), |pre + Groups(v)|))
                 else Err(IntegerOverflow)
    decreases 5 - |pre|
  {
    hide Pow2, Shl;
    var i, shift := |pre|, 7 * (|pre| - 1);
    var buf := pre + Groups(v) + rest;
    Pow2Values();
    assert buf[i] == Groups(v)[0];
    if v < 128 {
      Pow2Mono(7, 7 * (5 - i));
    } else {
      var pre' := pre + [128 + v % 128];
      assert buf == pre' + Groups(v / 128) + rest;
      assert |pre' + Groups(v / 128)| == |pre + Groups(v)|;
      if i < 4 {
        GroupsRead(pre', v / 128, rest, ret + Shl(v % 128, shift));
        ShlGroup(v, shift);
        CapStep(v, i);
      }
    }
  }

  lemma ShlGroup(v: nat, shift: nat)
    ensures Shl(v, shift) == Shl(v % 128, shift) + Shl(v / 128, shift + 7)
  {
    Pow2Values();
    ShlIsMul(v / 128, 7);
    ShlShl(v / 128, 7, shift);
    ShlAdd(v % 128, Shl(v / 128, 7), shift);
  }

  lemma CapStep(v: nat, i: nat)
    requires 1 <= i < 4
    ensures v < Pow2(7 * (5 - i)) <==> v / 128 < Pow2(7 * (4 - i))
  {
    hide Pow2;
    Pow2Values();
  }

  /** Decoding inverts encoding exactly up to MaxInt; every larger encoding is an overflow. */
  lemma DecodeEncode(v: nat, prefix: nat, first: nat, rest: seq<byte>)
    requires ValidFirst(prefix, first)
    ensures ReadInt(IntBytes(v, prefix, first) + rest, prefix)
            == if v <= MaxInt(prefix) then Ok((v, |IntBytes(v, prefix, first)|)) else Err(IntegerOverflow)
  {
    hide Pow2;
    var low := Pow2(prefix) - 1;
    var bytes := IntBytes(v, prefix, first);
    var b0 := bytes[0];
    Pow2Values();
    var q: nat :| first == Shl(q, prefix);
    ShlIsMul(q, prefix);
    ModUnique(b0, Pow2(prefix), q, b0 - first);
    AndLowBits(b0, prefix);
    assert (bytes + rest)[0] == b0;
    if v >= low {
      GroupsRead([b0], v - low, rest, low);
      assert [b0] + Groups(v - low) + rest == bytes + rest;
    }
  }

  /** An integer is read from a prefix of the input exactly when all its octets are there. */
  lemma ReadPrefix(a: seq<byte>, b: seq<byte>, prefix: nat)
    requires ReadInt(a + b, prefix).Ok?
    ensures ReadInt(a, prefix)
            == if ReadInt(a + b, prefix).value.1 <= |a| then ReadInt(a + b, prefix)
               else Err(NeedMore(IntegerUnderflow))
  {
    hide And, Pow2;
    if a != [] {
      assert (a + b)[0] == a[0];
      ReadGroupsPrefix(a, b, 1, And(a[0], Pow2(prefix) - 1));
    }
  }

  lemma {:induction false} ReadGroupsPrefix(a: seq<byte>, b: seq<byte>, bytes: nat, ret: nat)
    requires 1 <= bytes <= |a|
    ensures var r := ReadGroups(a + b, bytes, ret);
            r.Ok? ==> ReadGroups(a, bytes, ret)
                      == (if r.value.1 <= |a| then r else Err(NeedMore(IntegerUnderflow)))
    decreases |a| - bytes
  {
    hide Pow2, Shl;
    if bytes < |a| {
      assert (a + b)[bytes] == a[bytes];
      if a[bytes] >= 128 {
        ReadGroupsPrefix(a, b, bytes + 1, ret + Shl(a[bytes] % 128, 7 * (bytes - 1)));
      }
    }
  }

  /** What reading an integer comes to, once no octet is missing, does not depend on what follows. */
  lemma ReadAhead(a: seq<byte>, b: seq<byte>, prefix: nat)
    ensures ReadInt(a, prefix) == ReadInt(a + b, prefix) || ReadInt(a, prefix) == Err(NeedMore(IntegerUnderflow))
  {
    hide And, Pow2;
    if a != [] {
      assert (a + b)[0] == a[0];
      ReadGroupsAhead(a, b, 1, And(a[0], Pow2(prefix) - 1));
    }
  }

  lemma {:induction false} ReadGroupsAhead(a: seq<byte>, b: seq<byte>, bytes: nat, ret: nat)
    requires 1 <= bytes <= |a|
    ensures var r := ReadGroups(a, bytes, ret);
            r == ReadGroups(a + b, bytes, ret) || r == Err(NeedMore(IntegerUnderflow))
    decreases |a| - bytes
  {
    hide Pow2, Shl;
    if bytes < |a| {
      assert (a + b)[bytes] == a[bytes];
      if a[bytes] >= 128 {
        ReadGroupsAhead(a, b, bytes + 1, ret + Shl(a[bytes] % 128, 7 * (bytes - 1)));
      }
    }
  }
}
