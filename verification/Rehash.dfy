/** Doubling a Robin Hood table: reinserting in order, by plain linear probing, restores the order. */
module Rehash {
  import opened Bits
  import opened Errors
  import opened RobinHood

  ghost predicate Ideal(cs: Cells, f: nat) {
    f < |cs| && cs[f].Some? && Disp(cs, f) == 0
  }

  /** A table that is neither empty nor full has an ideally placed cell: the first one after a gap. */
  lemma {:induction false} IdealExists(cs: Cells, gap: nat, q: nat) returns (f: nat)
    requires Ordered(cs) && gap < |cs| && q < |cs| && cs[gap].None? && cs[q].Some?
    ensures Ideal(cs, f)
    decreases Dist(|cs|, gap, q)
  {
    f := Next(|cs|, gap);
    if cs[f].None? {
      f := IdealExists(cs, f, q);
    } else {
      assert !Follows(cs, f);
    }
  }

  /** No cell is displaced past an ideally placed one. */
  lemma NoWrap(cs: Cells, f: nat, p: nat)
    requires Ordered(cs) && Ideal(cs, f) && p < |cs| && cs[p].Some?
    ensures Disp(cs, p) <= Dist(|cs|, f, p)
    ensures Dist(|cs|, f, Home(|cs|, cs[p].value.hash)) == Dist(|cs|, f, p) - Disp(cs, p)
  {
    hide Home;
    var home := Home(|cs|, cs[p].value.hash);
    if Dist(|cs|, home, f) <= Disp(cs, p) {
      NoHole(cs, p, f);
    }
  }

  /** Counting from an ideally placed cell, the homes of the cells never go down. */
  lemma HomesAscend(cs: Cells, f: nat, p: nat, q: nat)
    requires Ordered(cs) && Ideal(cs, f) && p < |cs| && q < |cs| && cs[p].Some? && cs[q].Some?
    requires Dist(|cs|, f, p) <= Dist(|cs|, f, q)
    ensures Dist(|cs|, f, Home(|cs|, cs[p].value.hash)) <= Dist(|cs|, f, Home(|cs|, cs[q].value.hash))
  {
    hide Home;
    NoWrap(cs, f, p);
    NoWrap(cs, f, q);
    var home := Home(|cs|, cs[q].value.hash);
    if Dist(|cs|, f, home) <= Dist(|cs|, f, p) {
      NoHole(cs, q, p);
    }
  }

  /** In the doubled table a cell's home, counted from `f`, is where it was or one old table further. */
  lemma HomeDoubles(n: nat, f: nat, hash: nat)
    requires f < n
    ensures var g, g' := Dist(n, f, Home(n, hash)), Dist(2 * n, f, Home(2 * n, hash));
            g' == g || g' == g + n
  {
    ModMod(hash, n, 2);
    assert n * 2 == 2 * n;
    HalfHome(n, hash % (2 * n));
  }

  lemma HalfHome(n: nat, x: nat)
    requires 0 < n && x < 2 * n
    ensures x == x % n || x == x % n + n
  {
    if x < n {
      ModUnique(x, n, 0, x);
    } else {
      ModUnique(x, n, 1, x - n);
    }
  }

  /** Where the home of `c` lies in the doubled table, counted from `f`. */
  ghost function NewHome(n: nat, f: nat, c: Cell): (r: nat)
    requires f < n
    ensures r < 2 * n
  {
    Dist(2 * n, f, Home(2 * n, c.hash))
  }

  /** The first `r` positions from `f` on have been reinserted, in both halves within `r` positions. */
  ghost predicate Rehashed(cs: Cells, ns: Cells, f: nat, r: nat)
    requires f < |cs|
  {
    && |ns| == 2 * |cs| && r <= |cs|
    && Ordered(ns) && Distinct(ns)
    && (forall y :: 0 <= y < |ns| && ns[y].Some? ==> Placed(cs, ns, f, r, y))
    && (forall p :: 0 <= p < |cs| && Dist(|cs|, f, p) < r && cs[p].Some? ==> cs[p] in ns)
  }

  ghost predicate Placed(cs: Cells, ns: Cells, f: nat, r: nat, y: nat)
    requires f < |cs| && |ns| == 2 * |cs| && y < |ns| && ns[y].Some?
  {
    var n := |cs|;
    var g, at := NewHome(n, f, ns[y].value), Dist(|ns|, f, y);
    && g <= at
    && (if g < n then at < r else at < n + r)
    && exists p :: 0 <= p < n && cs[p] == ns[y] && Dist(n, f, p) < r
  }

  /** Probing from the home of the next cell reaches the gap at offset `r` of its half at the latest. */
  lemma ProbeEnds(cs: Cells, ns: Cells, f: nat, p: nat, c: Cell) returns (gap: nat)
    requires Ordered(cs) && Ideal(cs, f) && p < |cs| && cs[p] == Some(c)
    requires Rehashed(cs, ns, f, Dist(|cs|, f, p))
    ensures gap < |ns| && ns[gap].None?
    ensures var n := |cs|; var g := NewHome(n, f, c);
            && Dist(|ns|, f, gap) == (if g < n then 0 else n) + Dist(n, f, p)
            && g <= Dist(|ns|, f, gap)
            && Dist(|ns|, Home(|ns|, c.hash), gap) == Dist(|ns|, f, gap) - g
  {
    hide Home;
    var n, r := |cs|, Dist(|cs|, f, p);
    NoWrap(cs, f, p);
    HomeDoubles(n, f, c.hash);
    var g := NewHome(n, f, c);
    gap := At(2 * n, f, (if g < n then 0 else n) + r);
    assert ns[gap].Some? ==> Placed(cs, ns, f, r, gap);
  }

  /** Every cell passed on the way is displaced at least as far as the cell being reinserted would be. */
  lemma PassedIsRicher(cs: Cells, ns: Cells, f: nat, p: nat, c: Cell, y: nat)
    requires Ordered(cs) && Ideal(cs, f) && p < |cs| && cs[p] == Some(c)
    requires Rehashed(cs, ns, f, Dist(|cs|, f, p))
    requires y < |ns| && ns[y].Some?
    requires var n := |cs|; var g, at := NewHome(n, f, c), Dist(|ns|, f, y);
             g <= at < (if g < n then 0 else n) + Dist(n, f, p)
    ensures Disp(ns, y) >= Dist(|ns|, Home(|ns|, c.hash), y)
  {
    hide Home;
    var n, r := |cs|, Dist(|cs|, f, p);
    assert Placed(cs, ns, f, r, y);
    var q :| 0 <= q < n && cs[q] == ns[y] && Dist(n, f, q) < r;
    HomesAscend(cs, f, q, p);
    HomeDoubles(n, f, c.hash);
    HomeDoubles(n, f, ns[y].value.hash);
    assert NewHome(n, f, ns[y].value) <= NewHome(n, f, c);
  }

  /** `y` is the first gap a probe for the next cell `c` meets. */
  ghost predicate FirstGap(ns: Cells, c: Cell, y: nat) {
    && y < |ns| && ns[y].None?
    && var home := Home(|ns|, c.hash);
       forall z :: 0 <= z < |ns| && Dist(|ns|, home, z) < Dist(|ns|, home, y) ==> ns[z].Some?
  }

  /** Putting the next cell into the first gap at or after its home. */
  lemma RehashStep(cs: Cells, ns: Cells, f: nat, p: nat, c: Cell, y: nat)
    requires Ordered(cs) && Distinct(cs) && Ideal(cs, f) && p < |cs| && cs[p] == Some(c)
    requires Rehashed(cs, ns, f, Dist(|cs|, f, p)) && FirstGap(ns, c, y)
    ensures Rehashed(cs, ns[y := Some(c)], f, Dist(|cs|, f, p) + 1)
  {
    hide Home, Dist, Prev, Next, Ordered, Distinct;
    var n, r := |cs|, Dist(|cs|, f, p);
    var ns' := ns[y := Some(c)];
    GapWithin(cs, ns, f, p, c, y);
    RehashOrdered(cs, ns, f, p, c, y);
    forall w | 0 <= w < |ns'| && ns'[w].Some?
      ensures Placed(cs, ns', f, r + 1, w)
    {
      assert w != y ==> Placed(cs, ns, f, r, w);
    }
    forall q | 0 <= q < n && Dist(n, f, q) < r + 1 && cs[q].Some?
      ensures cs[q] in ns'
    {
      if Dist(n, f, q) == r {
        DistUnique(n, f, p, q);
        assert ns'[y] == cs[q];
      } else {
        var w :| 0 <= w < |ns| && ns[w] == cs[q];
        assert ns'[w] == cs[q];
      }
    }
  }

  lemma GapWithin(cs: Cells, ns: Cells, f: nat, p: nat, c: Cell, y: nat)
    requires Ordered(cs) && Ideal(cs, f) && p < |cs| && cs[p] == Some(c)
    requires Rehashed(cs, ns, f, Dist(|cs|, f, p)) && FirstGap(ns, c, y)
    ensures var n := |cs|; var g, at := NewHome(n, f, c), Dist(|ns|, f, y);
            && g <= at <= (if g < n then 0 else n) + Dist(n, f, p)
            && Dist(|ns|, Home(|ns|, c.hash), y) == at - g
  {
    hide Home, Rehashed;
    var gap := ProbeEnds(cs, ns, f, p, c);
    assert Dist(|ns|, Home(|ns|, c.hash), y) <= Dist(|ns|, Home(|ns|, c.hash), gap);
  }

  lemma RehashOrdered(cs: Cells, ns: Cells, f: nat, p: nat, c: Cell, y: nat)
    requires Ordered(cs) && Distinct(cs) && Ideal(cs, f) && p < |cs| && cs[p] == Some(c)
    requires Rehashed(cs, ns, f, Dist(|cs|, f, p)) && FirstGap(ns, c, y)
    ensures Ordered(ns[y := Some(c)]) && Distinct(ns[y := Some(c)])
  {
    hide Home;
    var home := Home(|ns|, c.hash);
    GapWithin(cs, ns, f, p, c, y);
    if Dist(|ns|, home, y) > 0 {
      var z := Prev(|ns|, y);
      assert Dist(|ns|, home, z) == Dist(|ns|, home, y) - 1;
      PassedIsRicher(cs, ns, f, p, c, z);
    }
    InsertOrdered(ns, ns[y := Some(c)], y, c, 0);
    forall w | 0 <= w < |ns| && ns[w].Some?
      ensures ns[w].value.ord != c.ord
    {
      assert Placed(cs, ns, f, Dist(|cs|, f, p), w);
    }
    InsertDistinct(ns, ns[y := Some(c)], y, c, 0);
  }

  lemma RehashSkip(cs: Cells, ns: Cells, f: nat, p: nat)
    requires f < |cs| && p < |cs| && cs[p].None? && Rehashed(cs, ns, f, Dist(|cs|, f, p))
    ensures Rehashed(cs, ns, f, Dist(|cs|, f, p) + 1)
  {
    var n, r := |cs|, Dist(|cs|, f, p);
    forall w | 0 <= w < |ns| && ns[w].Some?
      ensures Placed(cs, ns, f, r + 1, w)
    {
      assert Placed(cs, ns, f, r, w);
    }
    forall q | 0 <= q < n && Dist(n, f, q) < r + 1 && cs[q].Some?
      ensures cs[q] in ns
    {
      if Dist(n, f, q) == r {
        DistUnique(n, f, p, q);
      }
    }
  }

  /** After a whole round the doubled table holds the same cells. */
  lemma RehashDone(cs: Cells, ns: Cells, f: nat)
    requires f < |cs| && Rehashed(cs, ns, f, |cs|)
    ensures forall c :: Some(c) in ns <==> Some(c) in cs
  {
    forall c | Some(c) in ns
      ensures Some(c) in cs
    {
      var y :| 0 <= y < |ns| && ns[y] == Some(c);
      assert Placed(cs, ns, f, |cs|, y);
    }
  }
}
