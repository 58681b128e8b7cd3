/** Bit strings, most significant bit first, and their packing into bytes. */
module BitStrings {
  import opened Bits

  type BitString = seq<bool>

  /** The low `n` bits of `v`. */
  function NatBits(v: nat, n: nat): (r: BitString)
    ensures |r| == n
  {
    if n == 0 then [] else NatBits(v / 2, n - 1) + [v % 2 == 1]
  }

  /** The number a bit string denotes. */
  function Value(s: BitString): (r: nat)
    ensures r < Pow2(|s|)
  {
    if s == [] then 0 else 2 * Value(s[..|s| - 1]) + (if s[|s| - 1] then 1 else 0)
  }

  function Ones(n: nat): (r: BitString)
    ensures |r| == n
  {
    seq(n, _ => true)
  }

  lemma {:induction false} ValueNatBits(v: nat, n: nat)
    requires v < Pow2(n)
    ensures Value(NatBits(v, n)) == v
  {
    if n > 0 {
      ValueNatBits(v / 2, n - 1);
      assert NatBits(v, n)[..n - 1] == NatBits(v / 2, n - 1);
    }
  }

  lemma {:induction false} NatBitsValue(s: BitString)
    ensures NatBits(Value(s), |s|) == s
  {
    if s != [] {
      NatBitsValue(s[..|s| - 1]);
      assert s == s[..|s| - 1] + [s[|s| - 1]];
    }
  }

  lemma {:induction false} ValueConcat(s: BitString, t: BitString)
    ensures Value(s + t) == Shl(Value(s), |t|) + Value(t)
  {
    if t == [] {
      assert s + t == s;
    } else {
      var t' := t[..|t| - 1];
      ValueConcat(s, t');
      assert (s + t)[..|s + t| - 1] == s + t';
    }
  }

  lemma {:induction false} ValueOnes(n: nat)
    ensures Value(Ones(n)) == Pow2(n) - 1
  {
    if n > 0 {
      ValueOnes(n - 1);
      assert Ones(n)[..n - 1] == Ones(n - 1);
    }
  }

  // ===== bytes =====

  /** The bits of a byte string. */
  function ByteBits(s: seq<byte>): (r: BitString)
    ensures |r| == 8 * |s|
  {
    if s == [] then [] else NatBits(s[0], 8) + ByteBits(s[1..])
  }

  /** The bytes a bit string fills exactly. */
  function Pack(s: BitString): (r: seq<byte>)
    requires |s| % 8 == 0
    ensures 8 * |r| == |s|
  {
    if s == [] then [] else [PackByte(s[..8])] + Pack(s[8..])
  }

  function PackByte(s: BitString): byte
    requires |s| == 8
  {
    Pow2Values();
    Value(s)
  }

  lemma {:induction false} PackInverse(s: BitString)
    requires |s| % 8 == 0
    ensures ByteBits(Pack(s)) == s
  {
    if s != [] {
      PackInverse(s[8..]);
      NatBitsValue(s[..8]);
      assert s == s[..8] + s[8..];
      assert Pack(s)[1..] == Pack(s[8..]);
    }
  }

  lemma {:induction false} ByteBitsInverse(s: seq<byte>)
    ensures Pack(ByteBits(s)) == s
  {
    if s != [] {
      var t := ByteBits(s);
      ByteBitsInverse(s[1..]);
      Pow2Values();
      ValueNatBits(s[0], 8);
      assert t[..8] == NatBits(s[0], 8) && t[8..] == ByteBits(s[1..]);
    }
  }

  lemma {:induction false} PackAppend(s: BitString, t: BitString)
    requires |s| % 8 == 0 && |t| == 8
    ensures Pack(s + t) == Pack(s) + [PackByte(t)]
  {
    if s == [] {
      assert s + t == t && t[..8] == t && t[8..] == [];
    } else {
      PackAppend(s[8..], t);
      assert (s + t)[..8] == s[..8] && (s + t)[8..] == s[8..] + t;
    }
  }

  lemma {:induction false} ByteBitsSnoc(s: seq<byte>, b: byte)
    ensures ByteBits(s + [b]) == ByteBits(s) + NatBits(b, 8)
  {
    if s == [] {
      assert s + [b] == [b] && [b][1..] == [];
    } else {
      ByteBitsSnoc(s[1..], b);
      assert (s + [b])[1..] == s[1..] + [b];
    }
  }

  lemma {:induction false} ByteBitsConcat(a: seq<byte>, b: seq<byte>)
    ensures ByteBits(a + b) == ByteBits(a) + ByteBits(b)
  {
    if a == [] {
      assert a + b == b;
    } else {
      ByteBitsConcat(a[1..], b);
      assert (a + b)[1..] == a[1..] + b;
    }
  }
}
