/** The dynamic table of section 4 of RFC 7541 as a plain first-in first-out list, and the decoder's copy of it. */
module DynamicTable {
  import opened Errors
  import opened Headers

  /** The index of the newest dynamic entry. */
  const DYN_OFFSET := 62

  /** Entries newest first, and the bound on their total size. */
  datatype Fifo = Fifo(entries: seq<Header>, maxSize: nat)

  function Size(entries: seq<Header>): nat {
    if entries == [] then 0 else Size(entries[..|entries| - 1]) + entries[|entries| - 1].Len()
  }

  /** Evicts from the old end until the rest fits. */
  function Fit(entries: seq<Header>, limit: nat): (r: seq<Header>)
    ensures r <= entries && Size(r) <= limit
  {
    if Size(entries) <= limit then entries else Fit(entries[..|entries| - 1], limit)
  }

  /** Section 4.4: evict until the entry fits, then add it; an entry that never fits empties the table. */
  function Insert(t: Fifo, h: Header): Fifo {
    if h.Len() <= t.maxSize then t.(entries := [h] + Fit(t.entries, t.maxSize - h.Len()))
    else t.(entries := [])
  }

  /** Section 4.3. */
  function Resize(t: Fifo, maxSize: nat): Fifo {
    Fifo(Fit(t.entries, maxSize), maxSize)
  }

  /** Entry `i` of the address space of section 2.3.3. */
  function Get(t: Fifo, i: nat): Result<Header> {
    if i == 0 then Err(InvalidTableIndex)
    else if i <= STATIC_LEN then Ok(GetStatic(i))
    else if i - DYN_OFFSET < |t.entries| then Ok(t.entries[i - DYN_OFFSET])
    else Err(InvalidTableIndex)
  }

  ghost predicate Bounded(t: Fifo) {
    Size(t.entries) <= t.maxSize
  }

  // ===== laws of eviction =====

  lemma {:induction false} SizePrefix(a: seq<Header>, b: seq<Header>)
    requires a <= b
    ensures Size(a) <= Size(b)
  {
    if a == b {
    } else {
      SizePrefix(a, b[..|b| - 1]);
    }
  }

  lemma {:induction false} SizeFront(h: Header, entries: seq<Header>)
    ensures Size([h] + entries) == h.Len() + Size(entries)
  {
    var all := [h] + entries;
    if entries == [] {
      assert all[..0] == [];
    } else {
      SizeFront(h, entries[..|entries| - 1]);
      assert all[..|all| - 1] == [h] + entries[..|entries| - 1];
    }
  }

  /** Every entry takes at least 32 bytes of the table's size. */
  lemma {:induction false} SizeCounts(entries: seq<Header>)
    ensures 32 * |entries| <= Size(entries)
  {
    if entries != [] {
      SizeCounts(entries[..|entries| - 1]);
    }
  }

  /** Fit is the longest prefix that fits. */
  lemma {:induction false} FitLongest(entries: seq<Header>, limit: nat, p: seq<Header>)
    requires p <= entries && Size(p) <= limit
    ensures p <= Fit(entries, limit)
  {
    if Size(entries) > limit {
      assert |p| < |entries| by {
        assert |p| == |entries| ==> p == entries;
      }
      FitLongest(entries[..|entries| - 1], limit, p);
    }
  }

  /** Evicting to one bound and then to another is evicting to the smaller. */
  lemma {:induction false} FitFit(entries: seq<Header>, a: nat, b: nat)
    ensures Fit(Fit(entries, a), b) == Fit(entries, if a <= b then a else b)
  {
    var both, least := Fit(Fit(entries, a), b), Fit(entries, if a <= b then a else b);
    SizePrefix(both, Fit(entries, a));
    FitLongest(entries, if a <= b then a else b, both);
    FitLongest(entries, a, least);
    FitLongest(Fit(entries, a), b, least);
  }

  lemma InsertBounded(t: Fifo, h: Header)
    requires Bounded(t)
    ensures Bounded(Insert(t, h))
  {
    if h.Len() <= t.maxSize {
      SizeFront(h, Fit(t.entries, t.maxSize - h.Len()));
    }
  }

  // ===== the decoder's table =====

  class Table {
    var entries: seq<Header>
    var size: nat
    var maxSize: nat

    ghost predicate Valid()
      reads this
    {
      size == Size(entries) <= maxSize
    }

    ghost function Contents(): Fifo
      reads this
    {
      Fifo(entries, maxSize)
    }

    constructor (maxSize: nat)
      ensures Valid() && Contents() == Fifo([], maxSize)
    {
      entries, size, this.maxSize := [], 0, maxSize;
    }

    method GetEntry(i: nat) returns (r: Result<Header>)
      ensures r == Get(Contents(), i)
    {
      if i == 0 {
        return Err(InvalidTableIndex);
      }
      if i <= STATIC_LEN {
        return Ok(GetStatic(i));
      }
      if i - DYN_OFFSET < |entries| {
        return Ok(entries[i - DYN_OFFSET]);
      }
      return Err(InvalidTableIndex);
    }

    method InsertEntry(h: Header)
      requires Valid()
      modifies this
      ensures Valid() && Contents() == Insert(old(Contents()), h)
    {
      var len := h.Len();
      Reserve(len);
      if size + len <= maxSize {
        size := size + len;
        SizeFront(h, entries);
        entries := [h] + entries;
      }
    }

    method SetMaxSize(size: nat)
      requires Valid()
      modifies this
      ensures Valid() && Contents() == Resize(old(Contents()), size)
    {
      maxSize := size;
      Consolidate();
    }

    method Reserve(len: nat)
      requires size == Size(entries)
      modifies this`entries, this`size
      ensures size == Size(entries)
      ensures entries == if len <= maxSize then Fit(old(entries), maxSize - len) else []
    {
      while size + len > maxSize
        invariant size == Size(entries)
        invariant len <= maxSize ==> Fit(entries, maxSize - len) == Fit(old(entries), maxSize - len)
        decreases |entries|
      {
        if |entries| == 0 {
          return;
        }
        size := size - entries[|entries| - 1].Len();
        entries := entries[..|entries| - 1];
      }
    }

    method Consolidate()
      requires size == Size(entries)
      modifies this`entries, this`size
      ensures size == Size(entries) && entries == Fit(old(entries), maxSize)
    {
      while size > maxSize
        invariant size == Size(entries)
        invariant Fit(entries, maxSize) == Fit(old(entries), maxSize)
        decreases |entries|
      {
        size := size - entries[|entries| - 1].Len();
        entries := entries[..|entries| - 1];
      }
    }
  }
}
