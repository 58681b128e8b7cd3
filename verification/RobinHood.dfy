/**
 Robin Hood order on a circular table.

 A cell records which insertion it stands for and the hash of its name. Its home is the position
 its hash asks for, and its displacement is how far past its home it sits.
 */
module RobinHood {
  import opened Errors

  datatype Cell = Cell(ord: nat, hash: nat)
  type Cells = seq<Option<Cell>>

  function Home(n: nat, hash: nat): (r: nat)
    requires n > 0
    ensures r < n
  {
    hash % n
  }

  function Prev(n: nat, p: nat): (r: nat)
    requires p < n
    ensures r < n
  {
    if p == 0 then n - 1 else p - 1
  }

  function Next(n: nat, p: nat): (r: nat)
    requires p < n
    ensures r < n
  {
    if p + 1 == n then 0 else p + 1
  }

  /** How many steps forward lead from `from` to `p`. */
  function Dist(n: nat, from: nat, p: nat): (r: nat)
    requires from < n && p < n
    ensures r < n
  {
    if p >= from then p - from else p - from + n
  }

  /** The position `k` steps forward from `from`. */
  function At(n: nat, from: nat, k: nat): (r: nat)
    requires from < n && k < n
    ensures r < n && Dist(n, from, r) == k
  {
    if from + k < n then from + k else from + k - n
  }

  lemma DistPrev(n: nat, from: nat, p: nat)
    requires from < n && p < n
    ensures Next(n, Prev(n, p)) == p
    ensures Dist(n, from, Prev(n, p)) == if p == from then n - 1 else Dist(n, from, p) - 1
    ensures p == from <==> Dist(n, from, p) == 0
  {
  }

  lemma DistNext(n: nat, from: nat, p: nat)
    requires from < n && p < n
    ensures Prev(n, Next(n, p)) == p
    ensures Dist(n, from, Next(n, p)) == if Dist(n, from, p) == n - 1 then 0 else Dist(n, from, p) + 1
    ensures p == from <==> Dist(n, from, p) == 0
  {
  }

  lemma DistUnique(n: nat, from: nat, p: nat, q: nat)
    requires from < n && p < n && q < n && Dist(n, from, p) == Dist(n, from, q)
    ensures p == q
  {
  }

  /** The displacement of the cell at `p`. */
  function Disp(cs: Cells, p: nat): (r: nat)
    requires p < |cs| && cs[p].Some?
    ensures r < |cs|
  {
    Dist(|cs|, Home(|cs|, cs[p].value.hash), p)
  }

  /** A displaced cell follows a cell that is displaced at least as far, less one step. */
  ghost predicate Ordered(cs: Cells) {
    forall p {:trigger Follows(cs, p)} :: 0 <= p < |cs| && cs[p].Some? && Disp(cs, p) > 0 ==> Follows(cs, p)
  }

  ghost predicate Follows(cs: Cells, p: nat)
    requires p < |cs| && cs[p].Some?
  {
    cs[Prev(|cs|, p)].Some? && Disp(cs, Prev(|cs|, p)) >= Disp(cs, p) - 1
  }

  /** No two cells stand for the same insertion. */
  ghost predicate Distinct(cs: Cells) {
    forall p, q :: 0 <= p < |cs| && 0 <= q < |cs| && cs[p].Some? && cs[q].Some? && p != q
      ==> cs[p].value.ord != cs[q].value.ord
  }

  ghost predicate HasGap(cs: Cells) {
    exists p :: 0 <= p < |cs| && cs[p].None?
  }

  // ===== searching =====

  /** Between a cell and its home there is no hole, and the displacements on the way are no smaller. */
  lemma {:induction false} NoHole(cs: Cells, q: nat, p: nat)
    requires Ordered(cs) && q < |cs| && p < |cs| && cs[q].Some?
    requires Dist(|cs|, Home(|cs|, cs[q].value.hash), p) <= Disp(cs, q)
    ensures cs[p].Some? && Disp(cs, p) >= Dist(|cs|, Home(|cs|, cs[q].value.hash), p)
    decreases Disp(cs, q) - Dist(|cs|, Home(|cs|, cs[q].value.hash), p)
  {
    hide Home, Dist, Prev, Next;
    var home := Home(|cs|, cs[q].value.hash);
    if Dist(|cs|, home, p) == Disp(cs, q) {
      DistUnique(|cs|, home, p, q);
    } else {
      var p' := Next(|cs|, p);
      DistNext(|cs|, home, p);
      NoHole(cs, q, p');
      assert Follows(cs, p');
    }
  }

  /** The positions a search starting at `home` has passed after `dist` steps hold cells it must pass. */
  ghost predicate Passed(cs: Cells, home: nat, dist: nat)
    requires home < |cs|
  {
    forall p :: 0 <= p < |cs| && Dist(|cs|, home, p) < dist
      ==> cs[p].Some? && Disp(cs, p) >= Dist(|cs|, home, p)
  }

  /** A search may stop at `p` after `dist` steps: nothing with that home lies further on. */
  ghost predicate StopsAt(cs: Cells, p: nat, dist: nat)
    requires p < |cs|
  {
    cs[p].Some? ==> Disp(cs, p) < dist
  }

  lemma SearchMisses(cs: Cells, home: nat, p: nat, q: nat)
    requires Ordered(cs) && home < |cs| && p < |cs| && q < |cs|
    requires StopsAt(cs, p, Dist(|cs|, home, p))
    requires cs[q].Some? && Home(|cs|, cs[q].value.hash) == home
    ensures Dist(|cs|, home, q) < Dist(|cs|, home, p)
  {
    if Dist(|cs|, home, q) >= Dist(|cs|, home, p) {
      NoHole(cs, q, p);
      assert false;
    }
  }

  /** A table with a gap stops every search within one round. */
  lemma SearchEnds(cs: Cells, home: nat, dist: nat)
    requires HasGap(cs) && home < |cs| && Passed(cs, home, dist)
    ensures dist < |cs|
  {
    var p :| 0 <= p < |cs| && cs[p].None?;
    assert Dist(|cs|, home, p) >= dist;
  }

  // ===== inserting =====

  /** `cs'` is `cs` with `c` put at `probe` and the `k` cells from there on moved one step forward. */
  ghost predicate Shifted(cs: Cells, cs': Cells, probe: nat, c: Cell, k: nat) {
    && |cs'| == |cs| && probe < |cs| && k < |cs|
    && cs'[probe] == Some(c)
    && forall p :: 0 <= p < |cs| && p != probe ==>
         cs'[p] == if Dist(|cs|, probe, p) <= k then cs[Prev(|cs|, p)] else cs[p]
  }

  /** The first gap at or after `probe` is `k` steps on. */
  ghost predicate Run(cs: Cells, probe: nat, k: nat) {
    && probe < |cs| && k < |cs| && cs[At(|cs|, probe, k)].None?
    && forall p :: 0 <= p < |cs| && Dist(|cs|, probe, p) < k ==> cs[p].Some?
  }

  /** Putting a cell where a search for it stops, and shifting, keeps the order. */
  lemma InsertOrdered(cs: Cells, cs': Cells, probe: nat, c: Cell, k: nat)
    requires Ordered(cs) && Shifted(cs, cs', probe, c, k) && Run(cs, probe, k)
    requires Welcomes(cs, probe, Dist(|cs|, Home(|cs|, c.hash), probe))
    ensures Ordered(cs')
  {
    forall p | 0 <= p < |cs| && cs'[p].Some? && Disp(cs', p) > 0
      ensures Follows(cs', p)
    {
      InsertFollows(cs, cs', probe, c, k, p);
    }
  }

  /** A cell displaced by `dist` fits in front of whatever is at `p`. */
  ghost predicate Welcomes(cs: Cells, p: nat, dist: nat)
    requires p < |cs|
  {
    && StopsAt(cs, p, dist)
    && (dist > 0 ==> var q := Prev(|cs|, p); cs[q].Some? && Disp(cs, q) >= dist - 1)
  }

  lemma InsertFollows(cs: Cells, cs': Cells, probe: nat, c: Cell, k: nat, p: nat)
    requires Ordered(cs) && Shifted(cs, cs', probe, c, k) && Run(cs, probe, k)
    requires Welcomes(cs, probe, Dist(|cs|, Home(|cs|, c.hash), probe))
    requires p < |cs| && cs'[p].Some? && Disp(cs', p) > 0
    ensures Follows(cs', p)
  {
    hide Home, Dist, Prev, Next, At;
    var n := |cs|;
    var q := Prev(n, p);
    DistPrev(n, probe, p);
    DistPrev(n, probe, q);
    if p == probe {
      if k == n - 1 {
        DistUnique(n, probe, At(n, probe, k), q);
      }
      assert cs'[q] == cs[q] || q == probe;
    } else if Dist(n, probe, p) <= k {
      assert cs[q].Some?;
      MovedOn(cs, cs', q, p, At(n, probe, k));
      if q != probe {
        var s := Prev(n, q);
        assert cs'[q] == cs[s] && cs[s].Some?;
        MovedOn(cs, cs', s, q, At(n, probe, k));
        assert Disp(cs, q) > 0 ==> Follows(cs, q);
      }
    } else {
      assert cs'[p] == cs[p] && Follows(cs, p);
      if Dist(n, probe, p) == k + 1 {
        DistUnique(n, probe, At(n, probe, k), q);
      }
    }
  }

  /** In a table with a gap, a cell that moves one step forward is displaced one further. */
  lemma MovedOn(cs: Cells, cs': Cells, q: nat, p: nat, gap: nat)
    requires Ordered(cs) && q < |cs| && |cs'| == |cs| && p == Next(|cs|, q)
    requires cs[q].Some? && cs'[p] == cs[q] && gap < |cs| && cs[gap].None?
    ensures Disp(cs', p) == Disp(cs, q) + 1
  {
    var home := Home(|cs|, cs[q].value.hash);
    DistNext(|cs|, home, q);
    if Disp(cs, q) == |cs| - 1 {
      NoHole(cs, q, gap);
    }
  }

  lemma InsertContents(cs: Cells, cs': Cells, probe: nat, c: Cell, k: nat)
    requires Shifted(cs, cs', probe, c, k) && Run(cs, probe, k)
    ensures forall d :: Some(d) in cs' <==> d == c || Some(d) in cs
    ensures Distinct(cs) && Fresh(cs, c) ==> Distinct(cs')
  {
    hide Dist, Prev, Next, At;
    var n := |cs|;
    forall d | Some(d) in cs
      ensures Some(d) in cs'
    {
      var p :| 0 <= p < n && cs[p] == Some(d);
      DistNext(n, probe, p);
      DistPrev(n, probe, Next(n, p));
      if Dist(n, probe, p) < k {
        assert cs'[Next(n, p)] == cs[p];
      } else {
        if Dist(n, probe, p) == k {
          DistUnique(n, probe, p, At(n, probe, k));
        }
        assert cs'[p] == cs[p];
      }
    }
    forall d | Some(d) in cs'
      ensures d == c || Some(d) in cs
    {
      var p :| 0 <= p < n && cs'[p] == Some(d);
      assert cs[Prev(n, p)] == Some(d) || cs[p] == Some(d) || d == c;
    }
    InsertDistinct(cs, cs', probe, c, k);
  }

  lemma InsertDistinct(cs: Cells, cs': Cells, probe: nat, c: Cell, k: nat)
    requires Shifted(cs, cs', probe, c, k)
    ensures Distinct(cs) && Fresh(cs, c) ==> Distinct(cs')
  {
    hide Dist, Prev, Next;
    var n := |cs|;
    if Distinct(cs) && Fresh(cs, c) {
      forall p, q | 0 <= p < n && 0 <= q < n && cs'[p].Some? && cs'[q].Some? && p != q
        ensures cs'[p].value.ord != cs'[q].value.ord
      {
        DistPrev(n, probe, p);
        DistPrev(n, probe, q);
        var p0 := if Dist(n, probe, p) <= k then Prev(n, p) else p;
        var q0 := if Dist(n, probe, q) <= k then Prev(n, q) else q;
        assert p != probe ==> cs'[p] == cs[p0];
        assert q != probe ==> cs'[q] == cs[q0];
        assert p != probe && q != probe ==> p0 != q0;
      }
    }
  }

  ghost predicate Fresh(cs: Cells, c: Cell) {
    forall p :: 0 <= p < |cs| && cs[p].Some? ==> cs[p].value.ord != c.ord
  }

  // ===== removing =====

  /** `cs'` is `cs` with the cell at `hole` gone and the `k` cells after it moved one step back. */
  ghost predicate Unshifted(cs: Cells, cs': Cells, hole: nat, k: nat) {
    && |cs'| == |cs| && hole < |cs| && k < |cs|
    && forall p :: 0 <= p < |cs| ==>
         cs'[p] == var r := Dist(|cs|, hole, p); if r < k then cs[Next(|cs|, p)] else if r == k then None else cs[p]
  }

  /** The `k` cells after `hole` are displaced. */
  ghost predicate Displaced(cs: Cells, hole: nat, k: nat)
    requires hole < |cs|
  {
    forall p :: 0 <= p < |cs| && 1 <= Dist(|cs|, hole, p) <= k ==> cs[p].Some? && Disp(cs, p) > 0
  }

  /** The position `k + 1` steps after `hole` holds no displaced cell. */
  ghost predicate Settled(cs: Cells, hole: nat, k: nat)
    requires hole < |cs|
  {
    k + 1 < |cs| && var p := At(|cs|, hole, k + 1); cs[p].Some? ==> Disp(cs, p) == 0
  }

  lemma RemoveOrdered(cs: Cells, cs': Cells, hole: nat, k: nat)
    requires Ordered(cs) && Unshifted(cs, cs', hole, k) && cs[hole].Some?
    requires Displaced(cs, hole, k) && Settled(cs, hole, k)
    ensures Ordered(cs')
  {
    forall p | 0 <= p < |cs| && cs'[p].Some? && Disp(cs', p) > 0
      ensures Follows(cs', p)
    {
      RemoveFollows(cs, cs', hole, k, p);
    }
  }

  lemma RemoveFollows(cs: Cells, cs': Cells, hole: nat, k: nat, p: nat)
    requires Ordered(cs) && Unshifted(cs, cs', hole, k) && cs[hole].Some?
    requires Displaced(cs, hole, k) && Settled(cs, hole, k)
    requires p < |cs| && cs'[p].Some? && Disp(cs', p) > 0
    ensures Follows(cs', p)
  {
    hide Home, Dist, Prev, Next, At;
    var n := |cs|;
    var q := Prev(n, p);
    DistPrev(n, hole, p);
    if Dist(n, hole, p) < k {
      MovedBack(cs, cs', hole, k, p);
      if p == hole {
        assert Disp(cs, p) > 0 && Follows(cs, p);
        assert cs'[q] == cs[q];
      } else {
        MovedBack(cs, cs', hole, k, q);
        assert cs'[q] == cs[p];
      }
    } else {
      assert cs'[p] == cs[p] && Follows(cs, p);
      if Dist(n, hole, p) == k + 1 {
        DistUnique(n, hole, p, At(n, hole, k + 1));
      }
    }
  }

  /** A cell that moved one step back came from a follower and is displaced one less. */
  lemma MovedBack(cs: Cells, cs': Cells, hole: nat, k: nat, p: nat)
    requires Ordered(cs) && Unshifted(cs, cs', hole, k) && cs[hole].Some?
    requires Displaced(cs, hole, k) && p < |cs| && Dist(|cs|, hole, p) < k
    ensures cs[p].Some? && cs'[p].Some? && Disp(cs', p) <= Disp(cs, p)
    ensures var s := Next(|cs|, p); cs[s].Some? && Disp(cs', p) == Disp(cs, s) - 1
  {
    hide Home, Dist, Prev, Next, At;
    var n := |cs|;
    var s := Next(n, p);
    DistNext(n, hole, p);
    assert cs[s].Some? && Disp(cs, s) > 0;
    assert Follows(cs, s);
    DistPrev(n, Home(n, cs[s].value.hash), s);
  }

  /** Removal displaces no position's cell further than the cell that was there. */
  lemma RemoveLowers(cs: Cells, cs': Cells, hole: nat, k: nat, p: nat)
    requires Ordered(cs) && Unshifted(cs, cs', hole, k) && cs[hole].Some?
    requires Displaced(cs, hole, k) && p < |cs|
    ensures cs'[p].Some? ==> cs[p].Some? && Disp(cs', p) <= Disp(cs, p)
  {
    if Dist(|cs|, hole, p) < k {
      MovedBack(cs, cs', hole, k, p);
    }
  }

  lemma RemoveContents(cs: Cells, cs': Cells, hole: nat, k: nat)
    requires Unshifted(cs, cs', hole, k) && cs[hole].Some? && Distinct(cs)
    ensures forall d :: Some(d) in cs' <==> Some(d) in cs && d != cs[hole].value
    ensures Distinct(cs')
  {
    hide Dist, Prev, Next, At;
    var n := |cs|;
    forall d | Some(d) in cs && d != cs[hole].value
      ensures Some(d) in cs'
    {
      var p :| 0 <= p < n && cs[p] == Some(d);
      DistPrev(n, hole, p);
      assert cs'[Prev(n, p)] == cs[p] || cs'[p] == cs[p];
    }
    forall d | Some(d) in cs'
      ensures Some(d) in cs && d != cs[hole].value
    {
      var p :| 0 <= p < n && cs'[p] == Some(d);
      var s := RemoveSource(cs, cs', hole, k, p);
    }
    forall p, q | 0 <= p < n && 0 <= q < n && cs'[p].Some? && cs'[q].Some? && p != q
      ensures cs'[p].value.ord != cs'[q].value.ord
    {
      var p0 := RemoveSource(cs, cs', hole, k, p);
      var q0 := RemoveSource(cs, cs', hole, k, q);
      DistNext(n, hole, p);
      DistNext(n, hole, q);
    }
  }

  /** Where the cell now at `p` was before the removal. */
  lemma RemoveSource(cs: Cells, cs': Cells, hole: nat, k: nat, p: nat) returns (s: nat)
    requires Unshifted(cs, cs', hole, k) && p < |cs| && cs'[p].Some?
    ensures s < |cs| && s != hole && cs[s] == cs'[p]
    ensures s == if Dist(|cs|, hole, p) < k then Next(|cs|, p) else p
  {
    hide Dist, Prev, Next, At;
    DistNext(|cs|, hole, p);
    s := if Dist(|cs|, hole, p) < k then Next(|cs|, p) else p;
    DistNext(|cs|, hole, s);
  }
}
