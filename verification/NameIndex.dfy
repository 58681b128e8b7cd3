/**
 What the cells of the encoder's index stand for.

 Slots are listed newest first. The slot at position `i` was made by insertion `total - i`. Each
 distinct name has exactly one cell, for its oldest slot; the other slots of that name are reached
 through a chain that runs from old to new.
 */
module NameIndex {
  import opened Errors
  import opened Headers
  import opened RobinHood

  type HashFn = Name -> nat

  /** No slot after `i` has the same name. */
  ghost predicate Oldest(names: seq<Name>, i: int) {
    0 <= i < |names| && forall k :: i < k < |names| ==> names[k] != names[i]
  }

  /** The nearest slot newer than `i` with the given name. */
  function Newer(names: seq<Name>, name: Name, i: nat): (r: Option<nat>)
    requires i <= |names|
    ensures r.Some? ==> r.value < i && names[r.value] == name && forall k :: r.value < k < i ==> names[k] != name
    ensures r.None? ==> forall k :: 0 <= k < i ==> names[k] != name
  {
    if i == 0 then None
    else if names[i - 1] == name then Some(i - 1)
    else Newer(names, name, i - 1)
  }

  /** `c` is the cell of the oldest slot of some name. */
  ghost predicate Stands(c: Cell, names: seq<Name>, total: nat, hash: HashFn) {
    Oldest(names, total - c.ord) && c.hash == hash(names[total - c.ord])
  }

  /** The cells are exactly those of the oldest slots, each once. */
  ghost predicate Indexes(cs: Cells, names: seq<Name>, total: nat, hash: HashFn) {
    && |names| <= total
    && Distinct(cs)
    && forall c :: Some(c) in cs <==> Stands(c, names, total, hash)
  }

  lemma {:induction false} OldestExists(names: seq<Name>, k: nat) returns (i: nat)
    requires k < |names|
    ensures k <= i && Oldest(names, i) && names[i] == names[k]
    decreases |names| - k
  {
    i := k;
    if j :| k < j < |names| && names[j] == names[k] {
      i := OldestExists(names, j);
    }
  }

  // ===== changes to the slots =====

  lemma OldestPush(names: seq<Name>, name: Name, i: int)
    ensures Oldest([name] + names, i) <==> if i == 0 then name !in names else Oldest(names, i - 1)
  {
    var names' := [name] + names;
    assert forall k :: 0 <= k < |names| ==> names'[k + 1] == names[k];
    if i >= 1 && Oldest(names', i) {
      forall k | i - 1 < k < |names|
        ensures names[k] != names[i - 1]
      {
        assert names'[k + 1] != names'[i];
      }
    }
    if i == 0 && Oldest(names', i) {
      forall k | 0 <= k < |names|
        ensures names[k] != name
      {
        assert names'[k + 1] != names'[0];
      }
    }
  }

  lemma OldestPop(names: seq<Name>, i: int)
    requires |names| > 0
    ensures var last := |names| - 1;
            Oldest(names[..last], i) <==>
            i != last && (Oldest(names, i) || Newer(names, names[last], last) == Some(i))
  {
    hide Newer;
    var last := |names| - 1;
    if 0 <= i < last {
      if names[i] == names[last] {
        OldestPopSame(names, i);
      } else {
        OldestPopOther(names, i);
      }
    }
  }

  lemma OldestPopOther(names: seq<Name>, i: nat)
    requires i < |names| - 1 && names[i] != names[|names| - 1]
    ensures Oldest(names[..|names| - 1], i) <==> Oldest(names, i)
  {
    assert forall k :: 0 <= k < |names| - 1 ==> names[..|names| - 1][k] == names[k];
  }

  lemma OldestPopSame(names: seq<Name>, i: nat)
    requires i < |names| - 1 && names[i] == names[|names| - 1]
    ensures !Oldest(names, i)
    ensures Oldest(names[..|names| - 1], i) <==> Newer(names, names[|names| - 1], |names| - 1) == Some(i)
  {
    var names' := names[..|names| - 1];
    assert forall k :: 0 <= k < |names'| ==> names'[k] == names[k];
  }

  /** A new slot whose name is already indexed changes no cell. */
  lemma PushKnown(cs: Cells, names: seq<Name>, total: nat, hash: HashFn, name: Name)
    requires Indexes(cs, names, total, hash) && name in names
    ensures Indexes(cs, [name] + names, total + 1, hash)
  {
    forall c: Cell
      ensures Stands(c, names, total, hash) <==> Stands(c, [name] + names, total + 1, hash)
    {
      OldestPush(names, name, total + 1 - c.ord);
    }
  }

  /** A new slot with a new name adds its cell. */
  lemma PushNew(cs: Cells, cs': Cells, names: seq<Name>, total: nat, hash: HashFn, name: Name)
    requires Indexes(cs, names, total, hash) && name !in names
    requires Distinct(cs')
    requires forall d :: Some(d) in cs' <==> d == Cell(total + 1, hash(name)) || Some(d) in cs
    ensures Indexes(cs', [name] + names, total + 1, hash)
  {
    forall c: Cell
      ensures Stands(c, [name] + names, total + 1, hash)
              <==> c == Cell(total + 1, hash(name)) || Stands(c, names, total, hash)
    {
      OldestPush(names, name, total + 1 - c.ord);
    }
  }

  /** Evicting a slot with no newer namesake removes its cell. */
  lemma PopLast(cs: Cells, cs': Cells, names: seq<Name>, total: nat, hash: HashFn, c: Cell)
    requires Indexes(cs, names, total, hash) && |names| > 0
    requires Some(c) in cs && c.ord == total - (|names| - 1)
    requires Newer(names, names[|names| - 1], |names| - 1).None?
    requires Distinct(cs') && forall d :: Some(d) in cs' <==> Some(d) in cs && d != c
    ensures Indexes(cs', names[..|names| - 1], total, hash)
  {
    hide Newer;
    var last := |names| - 1;
    forall d: Cell
      ensures Stands(d, names[..last], total, hash) <==> Stands(d, names, total, hash) && d.ord != c.ord
    {
      OldestPop(names, total - d.ord);
    }
    assert forall d :: Stands(d, names, total, hash) && d.ord == c.ord ==> d.hash == c.hash by {
      assert Stands(c, names, total, hash);
    }
  }

  /** Evicting a slot with a newer namesake hands its cell to the next slot of the chain. */
  lemma PopChain(cs: Cells, cs': Cells, names: seq<Name>, total: nat, hash: HashFn, p: nat, j: nat)
    requires Indexes(cs, names, total, hash) && |names| > 0
    requires p < |cs| && cs[p].Some? && cs[p].value.ord == total - (|names| - 1)
    requires Newer(names, names[|names| - 1], |names| - 1) == Some(j)
    requires cs' == cs[p := Some(Cell(total - j, cs[p].value.hash))]
    ensures Indexes(cs', names[..|names| - 1], total, hash)
  {
    var last, c, c' := |names| - 1, cs[p].value, cs'[p].value;
    assert Stands(c, names, total, hash);
    assert !Oldest(names, j) by {
      assert names[j] == names[last];
    }
    Repointed(cs, cs', p);
    hide Indexes, Oldest, Newer;
    forall d: Cell
      ensures Stands(d, names[..last], total, hash)
              <==> d == c' || (Stands(d, names, total, hash) && d != c)
    {
      OldestPop(names, total - d.ord);
    }
  }

  /** Evicting the last slot of the name about to be inserted reserves its cell for the new slot. */
  lemma PopReserve(cs: Cells, cs': Cells, names: seq<Name>, total: nat, hash: HashFn, p: nat)
    requires Indexes(cs, names, total, hash) && |names| > 0
    requires p < |cs| && cs[p].Some? && cs[p].value.ord == total - (|names| - 1)
    requires Newer(names, names[|names| - 1], |names| - 1).None?
    requires cs' == cs[p := Some(Cell(total + 1, cs[p].value.hash))]
    ensures Indexes(cs', [names[|names| - 1]] + names[..|names| - 1], total + 1, hash)
  {
    var last, c, c' := |names| - 1, cs[p].value, cs'[p].value;
    var name, rest := names[last], names[..last];
    assert Stands(c, names, total, hash);
    Repointed(cs, cs', p);
    forall d: Cell
      ensures Stands(d, [name] + rest, total + 1, hash)
              <==> d == c' || (Stands(d, names, total, hash) && d != c)
    {
      OldestPush(rest, name, total + 1 - d.ord);
      OldestPop(names, total - d.ord);
    }
  }

  /** Giving a cell a number no other cell has. */
  lemma Repointed(cs: Cells, cs': Cells, p: nat)
    requires Distinct(cs) && p < |cs| && cs[p].Some? && |cs'| == |cs| && cs'[p].Some?
    requires cs' == cs[p := cs'[p]]
    requires forall d :: Some(d) in cs ==> d.ord != cs'[p].value.ord
    ensures Distinct(cs')
    ensures forall d :: Some(d) in cs' <==> d == cs'[p].value || (Some(d) in cs && d != cs[p].value)
  {
    forall d | Some(d) in cs && d != cs[p].value
      ensures Some(d) in cs'
    {
      var q :| 0 <= q < |cs| && cs[q] == Some(d);
      assert cs'[q] == cs[q];
    }
    assert cs'[p] in cs';
    forall q | 0 <= q < |cs| && cs[q].Some? && q != p
      ensures cs'[q] == cs[q] && cs[q] in cs && cs[q].value != cs[p].value
    {
    }
  }

  // ===== room =====

  /** Distinct numbers below `m` are at most `m` many. */
  lemma {:induction false} Pigeonhole(s: seq<nat>, m: nat)
    requires forall i :: 0 <= i < |s| ==> s[i] < m
    requires forall i, j :: 0 <= i < j < |s| ==> s[i] != s[j]
    ensures |s| <= m
  {
    if s != [] {
      assert s[0] < m;
      if k :| 0 <= k < |s| && s[k] == m - 1 {
        Pigeonhole(s[..k] + s[k + 1..], m - 1);
      } else {
        Pigeonhole(s[1..], m - 1);
      }
    }
  }

  /** With fewer slots than positions some position is free, so every probe loop ends. */
  lemma GapExists(cs: Cells, names: seq<Name>, total: nat, hash: HashFn)
    requires Indexes(cs, names, total, hash) && |names| < |cs|
    ensures HasGap(cs)
  {
    if !HasGap(cs) {
      var s := seq(|cs|, i requires 0 <= i < |cs| => cs[i].value.ord);
      forall i | 0 <= i < |s|
        ensures total - |names| < s[i] <= total
      {
        assert Stands(cs[i].value, names, total, hash);
      }
      var t := seq(|cs|, i requires 0 <= i < |cs| => total - s[i]);
      Pigeonhole(t, |names|);
    }
  }
}
