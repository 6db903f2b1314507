/**
 The recursive queries over the permission table. A recursive UNION ALL query starts from base
 rows and keeps joining the rows of its last round with the table until a round is empty; its
 result lists all rounds. The database may scan the table in any order, so every statement
 holds for every scan order.
 */
module RecursiveQueries {
  import opened Prelude
  import opened Forest

  type Ids = Parents<int>

  /** A scan lists every row id once, in some order. */
  ghost predicate IsScan(f: Ids, scan: seq<int>) {
    forall x :: multiset(scan)[x] == if x in f then 1 else 0
  }

  predicate HasParent(f: Ids, x: int, p: int) {
    x in f && f[x] == Some(p)
  }

  function Children(f: Ids, scan: seq<int>, p: int): seq<int> {
    if scan == [] then []
    else (if HasParent(f, scan[0], p) then [scan[0]] else []) + Children(f, scan[1..], p)
  }

  /** One round: the join of the table with the rows of the previous round. */
  function Join(f: Ids, scan: seq<int>, level: seq<int>): seq<int> {
    if level == [] then [] else Children(f, scan, level[0]) + Join(f, scan, level[1..])
  }

  function Level(f: Ids, scan: seq<int>, base: seq<int>, k: nat): seq<int> {
    if k == 0 then base else Join(f, scan, Level(f, scan, base, k - 1))
  }

  ghost predicate Stored(f: Ids, base: seq<int>) {
    forall x | x in base :: x in f
  }

  /** No base row lies on a cycle, so the recursion stops. */
  ghost predicate OffCycles(f: Ids, base: seq<int>) {
    forall x | x in base :: !OnCycle(f, x)
  }

  ghost predicate RootsOffCycles(f: Ids, roots: set<int>) {
    forall r | r in roots :: !OnCycle(f, r)
  }

  function Rounds(f: Ids, scan: seq<int>, base: seq<int>, k: nat): seq<int>
    requires IsScan(f, scan) && Stored(f, base) && OffCycles(f, base)
    decreases |f| - k
  {
    var level := Level(f, scan, base, k);
    if level == [] then []
    else
      LevelBound(f, scan, base, k);
      level + Rounds(f, scan, base, k + 1)
  }

  function Select(scan: seq<int>, roots: set<int>): seq<int> {
    if scan == [] then []
    else (if scan[0] in roots then [scan[0]] else []) + Select(scan[1..], roots)
  }

  function DescendantIds(f: Ids, scan: seq<int>, m: int): seq<int>
    requires IsScan(f, scan) && !OnCycle(f, m)
  {
    Rounds(f, scan, if m in f then [m] else [], 0)
  }

  function DescendantIdsBatch(f: Ids, scan: seq<int>, roots: set<int>): seq<int>
    requires IsScan(f, scan) && RootsOffCycles(f, roots)
  {
    SelectStored(f, scan, roots);
    Rounds(f, scan, Select(scan, roots), 0)
  }

  predicate HasDescendants(f: Ids, scan: seq<int>, m: int)
    requires IsScan(f, scan) && !OnCycle(f, m)
  {
    |DescendantIds(f, scan, m)| > 1
  }

  /** The upward query: its round k is the k-th ancestor alone. */
  function AncestorIds(f: Ids, m: int): seq<int>
    requires Acyclic(f)
    decreases |f|
  {
    if m in f && f[m].Some? then [m] + AncestorsFrom(f, m, f[m].value, 1)
    else if m in f then [m]
    else []
  }

  function AncestorsFrom(f: Ids, m: int, x: int, k: nat): seq<int>
    requires Acyclic(f) && m in f
    requires x in f ==> Up(f, m, k) == Some(x)
    decreases |f| - k
  {
    if x !in f then []
    else
      AcyclicShort(f, m, k);
      UpStep(f, m, k);
      [x] + if f[x].Some? then AncestorsFrom(f, m, f[x].value, k + 1) else []
  }

  // ---- How often a row is listed

  lemma LongWalkEndsOnCycle(f: Ids, x: int, n: nat)
    requires |f| <= n && Up(f, x, n).Some?
    ensures OnCycle(f, Up(f, x, n).value)
  {
    var i, j := Collision(f, x, n);
    Repeat(f, x, i, j);
    UpPrefix(f, x, i, n);
    UpAdd(f, x, i, n - i);
    OnCycleUpward(f, Up(f, x, i).value, n - i);
  }

  /** Whatever lies above a node of a cycle is on that cycle. */
  lemma OnCycleUpward(f: Ids, y: int, n: nat)
    requires OnCycle(f, y) && Up(f, y, n).Some?
    ensures OnCycle(f, Up(f, y, n).value)
  {
    var c: nat :| 0 < c && Up(f, y, c) == Some(y);
    var z := Up(f, y, n).value;
    UpAdd(f, y, n, c);
    UpAdd(f, y, c, n);
    assert Up(f, z, c) == Some(z);
  }

  lemma {:induction false} ChildrenCount(f: Ids, scan: seq<int>, p: int, x: int)
    ensures multiset(Children(f, scan, p))[x] == if HasParent(f, x, p) then multiset(scan)[x] else 0
  {
    if scan != [] {
      ChildrenCount(f, scan[1..], p, x);
      assert scan == [scan[0]] + scan[1..];
    }
  }

  lemma {:induction false} JoinCount(f: Ids, scan: seq<int>, level: seq<int>, x: int)
    requires IsScan(f, scan)
    ensures multiset(Join(f, scan, level))[x] ==
            if x in f && f[x].Some? then multiset(level)[f[x].value] else 0
  {
    if level != [] {
      ChildrenCount(f, scan, level[0], x);
      JoinCount(f, scan, level[1..], x);
      assert level == [level[0]] + level[1..];
    }
  }

  /** How often the base lists the k-th ancestor of x. */
  ghost function Listed(f: Ids, base: seq<int>, k: nat, x: int): nat {
    if Up(f, x, k).Some? then multiset(base)[Up(f, x, k).value] else 0
  }

  ghost predicate CountsAs(f: Ids, base: seq<int>, k: nat, level: seq<int>) {
    forall x :: multiset(level)[x] == Listed(f, base, k, x)
  }

  lemma JoinShifts(f: Ids, scan: seq<int>, base: seq<int>, level: seq<int>, k: nat)
    requires IsScan(f, scan) && CountsAs(f, base, k, level)
    ensures CountsAs(f, base, k + 1, Join(f, scan, level))
  {
    forall x ensures multiset(Join(f, scan, level))[x] == Listed(f, base, k + 1, x) {
      JoinCount(f, scan, level, x);
      if x in f && f[x].Some? {
        assert Up(f, x, k + 1) == Up(f, f[x].value, k);
      } else {
        assert Up(f, x, k + 1).None?;
      }
    }
  }

  lemma BaseCounts(f: Ids, base: seq<int>)
    requires Stored(f, base)
    ensures CountsAs(f, base, 0, base)
  {
    forall x ensures multiset(base)[x] == Listed(f, base, 0, x) {
      assert x in multiset(base) ==> x in base;
    }
  }

  /** Round k lists every row as often as the base lists its k-th ancestor. */
  lemma {:induction false} LevelCounts(f: Ids, scan: seq<int>, base: seq<int>, k: nat)
    requires IsScan(f, scan) && Stored(f, base)
    ensures CountsAs(f, base, k, Level(f, scan, base, k))
    decreases k
  {
    if k == 0 {
      BaseCounts(f, base);
    } else {
      LevelCounts(f, scan, base, k - 1);
      NextLevelCounts(f, scan, base, k - 1);
    }
  }

  lemma NextLevelCounts(f: Ids, scan: seq<int>, base: seq<int>, k: nat)
    requires IsScan(f, scan) && CountsAs(f, base, k, Level(f, scan, base, k))
    ensures CountsAs(f, base, k + 1, Level(f, scan, base, k + 1))
  {
    JoinShifts(f, scan, base, Level(f, scan, base, k), k);
  }

  lemma LevelCount(f: Ids, scan: seq<int>, base: seq<int>, k: nat, x: int)
    requires IsScan(f, scan) && Stored(f, base)
    ensures multiset(Level(f, scan, base, k))[x] == Listed(f, base, k, x)
  {
    LevelCounts(f, scan, base, k);
  }

  lemma LevelBound(f: Ids, scan: seq<int>, base: seq<int>, k: nat)
    requires IsScan(f, scan) && Stored(f, base) && OffCycles(f, base)
    requires Level(f, scan, base, k) != []
    ensures k < |f|
  {
    var x := Level(f, scan, base, k)[0];
    assert multiset(Level(f, scan, base, k))[x] > 0;
    LevelCount(f, scan, base, k, x);
    var y := Up(f, x, k).value;
    assert y in multiset(base);
    assert !OnCycle(f, y);
    if |f| <= k {
      LongWalkEndsOnCycle(f, x, k);
    }
  }

  /** A node that is met twice on the way up lies on a cycle. */
  lemma MetTwice(f: Ids, m: int, x: int, i: nat, j: nat)
    requires i < j && Up(f, x, i) == Some(m) && Up(f, x, j) == Some(m)
    ensures OnCycle(f, m)
  {
    UpAdd(f, x, i, j - i);
  }

  lemma {:induction false} SelectCount(scan: seq<int>, roots: set<int>, x: int)
    ensures multiset(Select(scan, roots))[x] == if x in roots then multiset(scan)[x] else 0
  {
    if scan != [] {
      SelectCount(scan[1..], roots, x);
      assert scan == [scan[0]] + scan[1..];
    }
  }

  lemma SelectStored(f: Ids, scan: seq<int>, roots: set<int>)
    requires IsScan(f, scan)
    ensures Stored(f, Select(scan, roots))
    ensures forall x :: x in Select(scan, roots) <==> x in roots && x in f
  {
    forall x ensures x in Select(scan, roots) <==> x in roots && x in f {
      SelectCount(scan, roots, x);
      assert x in Select(scan, roots) <==> x in multiset(Select(scan, roots));
    }
  }

  /** x has an ancestor in the base, k or more steps up. */
  ghost predicate ReachedFrom(f: Ids, base: seq<int>, k: nat, x: int) {
    exists j: nat :: k <= j && Up(f, x, j).Some? && Up(f, x, j).value in base
  }

  lemma LevelMember(f: Ids, scan: seq<int>, base: seq<int>, k: nat, x: int)
    requires IsScan(f, scan) && Stored(f, base)
    ensures x in Level(f, scan, base, k) <==> Up(f, x, k).Some? && Up(f, x, k).value in base
  {
    LevelCount(f, scan, base, k, x);
    assert x in Level(f, scan, base, k) <==> x in multiset(Level(f, scan, base, k));
    if Up(f, x, k).Some? {
      assert Up(f, x, k).value in base <==> Up(f, x, k).value in multiset(base);
    }
  }

  lemma ReachedLater(f: Ids, scan: seq<int>, base: seq<int>, k: nat, x: int)
    requires IsScan(f, scan) && Stored(f, base)
    ensures ReachedFrom(f, base, k, x) <==>
            x in Level(f, scan, base, k) || ReachedFrom(f, base, k + 1, x)
    ensures Level(f, scan, base, k) == [] ==> !ReachedFrom(f, base, k, x)
  {
    LevelMember(f, scan, base, k, x);
    if j: nat :| k <= j && Up(f, x, j).Some? && Up(f, x, j).value in base {
      UpPrefix(f, x, j - k, j);
      UpAdd(f, x, j - k, k);
      LevelMember(f, scan, base, k, Up(f, x, j - k).value);
    }
  }

  lemma {:induction false} RoundsMember(f: Ids, scan: seq<int>, base: seq<int>, k: nat, x: int)
    requires IsScan(f, scan) && Stored(f, base) && OffCycles(f, base)
    ensures x in Rounds(f, scan, base, k) <==> ReachedFrom(f, base, k, x)
    decreases |f| - k
  {
    ReachedLater(f, scan, base, k, x);
    if Level(f, scan, base, k) != [] {
      LevelBound(f, scan, base, k);
      RoundsMember(f, scan, base, k + 1, x);
    }
  }

  lemma NotReachedAgain(f: Ids, m: int, k: nat, x: int)
    requires !OnCycle(f, m) && Up(f, x, k) == Some(m)
    ensures !ReachedFrom(f, [m], k + 1, x)
  {
    forall j: nat | k + 1 <= j ensures Up(f, x, j) != Some(m) {
      if Up(f, x, j) == Some(m) {
        MetTwice(f, m, x, k, j);
      }
    }
  }

  lemma OnceInLevel(f: Ids, scan: seq<int>, m: int, k: nat, x: int)
    requires IsScan(f, scan) && Stored(f, [m])
    ensures multiset(Level(f, scan, [m], k))[x] <= 1
  {
    LevelCount(f, scan, [m], k, x);
  }

  /** A row of round k is listed in no later round. */
  lemma NotListedAgain(f: Ids, scan: seq<int>, m: int, k: nat, x: int)
    requires IsScan(f, scan) && Stored(f, [m]) && OffCycles(f, [m]) && x in Level(f, scan, [m], k)
    ensures x !in Rounds(f, scan, [m], k + 1)
  {
    LevelMember(f, scan, [m], k, x);
    assert m in [m];
    NotReachedAgain(f, m, k, x);
    RoundsMember(f, scan, [m], k + 1, x);
  }

  lemma {:induction false} RoundsOnce(f: Ids, scan: seq<int>, m: int, k: nat, x: int)
    requires IsScan(f, scan) && Stored(f, [m]) && OffCycles(f, [m])
    ensures multiset(Rounds(f, scan, [m], k))[x] <= 1
    decreases |f| - k
  {
    var level := Level(f, scan, [m], k);
    if level != [] {
      LevelBound(f, scan, [m], k);
      OnceInLevel(f, scan, m, k, x);
      RoundsOnce(f, scan, m, k + 1, x);
      if x in level {
        NotListedAgain(f, scan, m, k, x);
      }
      assert x in level <==> x in multiset(level);
      assert x in Rounds(f, scan, [m], k + 1) <==> x in multiset(Rounds(f, scan, [m], k + 1));
    }
  }

  // ---- What the queries promise

  /** The descendant query lists m and every row below it, each exactly once, and nothing else. */
  lemma DescendantsExactlyOnce(f: Ids, scan: seq<int>, m: int, x: int)
    requires IsScan(f, scan) && !OnCycle(f, m)
    ensures multiset(DescendantIds(f, scan, m))[x] == if Above(f, m, x) then 1 else 0
  {
    if m in f {
      RoundsMember(f, scan, [m], 0, x);
      RoundsOnce(f, scan, m, 0, x);
      assert x in DescendantIds(f, scan, m) <==> multiset(DescendantIds(f, scan, m))[x] > 0;
    } else {
      assert Level(f, scan, [], 0) == [];
      assert DescendantIds(f, scan, m) == [];
    }
  }

  /** The batch query covers exactly what the single-root queries cover together. */
  lemma BatchIsUnion(f: Ids, scan: seq<int>, roots: set<int>, x: int)
    requires IsScan(f, scan) && RootsOffCycles(f, roots)
    ensures x in DescendantIdsBatch(f, scan, roots) <==> exists r :: r in roots && Above(f, r, x)
    ensures x in DescendantIdsBatch(f, scan, roots) <==>
            exists r :: r in roots && !OnCycle(f, r) && x in DescendantIds(f, scan, r)
  {
    SelectStored(f, scan, roots);
    var base := Select(scan, roots);
    RoundsMember(f, scan, base, 0, x);
    if ReachedFrom(f, base, 0, x) {
      var j: nat :| Up(f, x, j).Some? && Up(f, x, j).value in base;
      assert Above(f, Up(f, x, j).value, x);
    }
    forall r | r in roots ensures x in DescendantIds(f, scan, r) <==> Above(f, r, x) {
      DescendantsExactlyOnce(f, scan, r, x);
      assert x in DescendantIds(f, scan, r) <==> x in multiset(DescendantIds(f, scan, r));
    }
    if r :| r in roots && Above(f, r, x) {
      var j: nat :| Up(f, x, j) == Some(r);
      assert x in DescendantIdsBatch(f, scan, roots);
    }
  }

  lemma {:induction false} AncestorsFromMember(f: Ids, m: int, x: int, k: nat, a: int)
    requires Acyclic(f) && m in f
    requires x in f ==> Up(f, m, k) == Some(x)
    ensures a in AncestorsFrom(f, m, x, k) <==> Above(f, a, x)
    decreases |f| - k
  {
    if x in f {
      AcyclicShort(f, m, k);
      UpStep(f, m, k);
      if f[x].Some? {
        AncestorsFromMember(f, m, f[x].value, k + 1, a);
      }
      AboveStep(f, a, x);
    } else if n: nat :| Up(f, x, n) == Some(a) {
      assert false;
    }
  }

  lemma AboveStep(f: Ids, a: int, x: int)
    requires x in f
    ensures Above(f, a, x) <==> a == x || (f[x].Some? && Above(f, a, f[x].value))
  {
    if n: nat :| Up(f, x, n) == Some(a) {
      if n != 0 {
        assert Up(f, f[x].value, n - 1) == Some(a);
      }
    }
    if f[x].Some? && Above(f, a, f[x].value) {
      var n: nat :| Up(f, f[x].value, n) == Some(a);
      assert Up(f, x, n + 1) == Some(a);
    }
    assert Up(f, x, 0) == Some(x);
  }

  /** x is listed below m exactly when m is listed above x. */
  lemma DescendantsMirrorAncestors(f: Ids, scan: seq<int>, m: int, x: int)
    requires Acyclic(f) && IsScan(f, scan)
    ensures x in DescendantIds(f, scan, m) <==> m in AncestorIds(f, x)
  {
    DescendantsExactlyOnce(f, scan, m, x);
    assert x in DescendantIds(f, scan, m) <==> x in multiset(DescendantIds(f, scan, m));
    if x in f {
      AboveStep(f, m, x);
      if f[x].Some? {
        assert Up(f, x, 1) == Up(f, f[x].value, 0);
        AncestorsFromMember(f, x, f[x].value, 1, m);
      }
    }
  }

  /** The row count test finds descendants exactly when some row names m as its parent. */
  lemma HasDescendantsExact(f: Ids, scan: seq<int>, m: int)
    requires IsScan(f, scan) && m in f && !OnCycle(f, m)
    ensures HasDescendants(f, scan, m) <==> exists c :: HasParent(f, c, m)
  {
    var r := DescendantIds(f, scan, m);
    DescendantsExactlyOnce(f, scan, m, m);
    assert Up(f, m, 0) == Some(m);
    assert m in multiset(r);
    if c :| HasParent(f, c, m) {
      assert Up(f, c, 1) == Up(f, m, 0) == Some(m);
      DescendantsExactlyOnce(f, scan, m, c);
      assert c != m by { assert c == m ==> OnCycle(f, m); }
      assert {c, m} <= Elements(r) by { assert c in multiset(r); }
      if |r| == 1 {
        assert false;
      }
    } else if |r| > 1 {
      assert r == [r[0], r[1]] + r[2..];
      var x := r[1];
      DescendantsExactlyOnce(f, scan, m, x);
      assert x in multiset(r);
      var n: nat :| Up(f, x, n) == Some(m);
      UpPrefix(f, x, n - 1, n);
      UpStep(f, x, n - 1);
      assert HasParent(f, Up(f, x, n - 1).value, m);
    }
  }

  /** On any table the downward recursion from m stops exactly when m is not on a cycle. */
  lemma RecursionStopsUnlessOnCycle(f: Ids, scan: seq<int>, m: int)
    requires IsScan(f, scan) && m in f
    ensures (exists k: nat :: Level(f, scan, [m], k) == []) <==> !OnCycle(f, m)
  {
    if OnCycle(f, m) {
      forall k: nat ensures Level(f, scan, [m], k) != [] {
        var x := CycleReaches(f, m, k);
        LevelCount(f, scan, [m], k, x);
        assert multiset(Level(f, scan, [m], k))[x] > 0;
      }
    } else {
      var n: nat := |f|;
      var level := Level(f, scan, [m], n);
      if level != [] {
        var x := level[0];
        assert multiset(level)[x] > 0;
        LevelCount(f, scan, [m], n, x);
        LongWalkEndsOnCycle(f, x, n);
        assert false;
      } else {
        assert Level(f, scan, [m], n) == [];
      }
    }
  }

  lemma BatchStops(f: Ids, scan: seq<int>, roots: set<int>)
    requires IsScan(f, scan) && RootsOffCycles(f, roots)
    ensures Level(f, scan, Select(scan, roots), |f|) == []
  {
    SelectStored(f, scan, roots);
    var base := Select(scan, roots);
    if Level(f, scan, base, |f|) != [] {
      LevelBound(f, scan, base, |f|);
    }
  }

  /** The batch recursion stops exactly when no stored root is on a cycle. */
  lemma BatchStopsUnlessOnCycle(f: Ids, scan: seq<int>, roots: set<int>)
    requires IsScan(f, scan)
    ensures (exists k: nat :: Level(f, scan, Select(scan, roots), k) == []) <==> RootsOffCycles(f, roots)
  {
    SelectStored(f, scan, roots);
    var base := Select(scan, roots);
    if m :| m in roots && OnCycle(f, m) {
      assert m in f && m in multiset(base);
      forall k: nat ensures Level(f, scan, base, k) != [] {
        var x := CycleReaches(f, m, k);
        LevelCount(f, scan, base, k, x);
        assert multiset(Level(f, scan, base, k))[x] > 0;
      }
    } else {
      BatchStops(f, scan, roots);
    }
  }

  /** Some node of m's cycle lies exactly k steps below m: go round k times, then stop k steps short of m. */
  lemma CycleReaches(f: Ids, m: int, k: nat) returns (x: int)
    requires OnCycle(f, m)
    ensures Up(f, x, k) == Some(m)
  {
    var c: nat :| 0 < c && Up(f, m, c) == Some(m);
    var steps := c * k;
    Laps(f, m, c, k);
    LapsLarge(c, k);
    UpPrefix(f, m, steps - k, steps);
    x := Up(f, m, steps - k).value;
    UpAdd(f, m, steps - k, k);
  }

  lemma LapsLarge(c: nat, n: nat)
    requires 0 < c
    ensures c * n >= n
  {
  }

  lemma {:induction false} Laps(f: Ids, m: int, c: nat, n: nat)
    requires Up(f, m, c) == Some(m)
    ensures Up(f, m, c * n) == Some(m)
  {
    if n != 0 {
      Laps(f, m, c, n - 1);
      assert c * n == c * (n - 1) + c;
      UpAdd(f, m, c * (n - 1), c);
    } else {
      UpPrefix(f, m, 0, c);
    }
  }
}
