/** The signed 32-bit windows of section 6.9 of RFC 7540. */
module FlowControl {
  import opened Errors

  /** The largest window a peer may hold, and the number of 32-bit values. */
  const MAX_WINDOW := 0x7FFF_FFFF
  const U32 := 0x1_0000_0000
  const DEFAULT_WINDOW := 65535

  predicate IsI32(v: int) {
    -0x8000_0000 <= v <= 0x7FFF_FFFF
  }

  /** A 32-bit size read as a signed number. */
  function AsI32(sz: nat): int
    requires sz < U32
  {
    if sz <= MAX_WINDOW then sz else sz - U32
  }

  /** What of a window can be used. */
  function AsSize(window: int): nat {
    if window < 0 then 0 else window
  }

  function DecreaseBy(window: int, sz: nat): Option<int>
    requires sz < U32
  {
    var v := window - AsI32(sz);
    if IsI32(v) then Some(v) else None
  }

  function IncreaseBy(window: int, sz: nat): Option<int>
    requires sz < U32
  {
    var v := window + AsI32(sz);
    if IsI32(v) && v <= MAX_WINDOW then Some(v) else None
  }

  /** Adding 32-bit numbers wraps. */
  function Wrap(v: nat): nat {
    v % U32
  }

  function Min(a: nat, b: nat): nat {
    if a < b then a else b
  }

  // ===== laws =====

  /** Crediting a window by more than half the 32-bit range shrinks it: exactly then it can turn negative. */
  lemma CreditSign(window: int, sz: nat)
    requires 0 <= window <= MAX_WINDOW && sz < U32
    ensures match IncreaseBy(window, sz)
            case None => window + sz > MAX_WINDOW && sz <= MAX_WINDOW
            case Some(v) => v >= 0 <==> (sz <= MAX_WINDOW || window + sz >= U32)
  {
  }
}
