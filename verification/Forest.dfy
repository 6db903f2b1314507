/**
 The parent relation of the permission table, and of a manifest, as a map from a node to its
 optional parent. Everything about cycles, depths and re-parenting is proved here once, for
 keys of any type: row ids in the table and in the menu tree, codes in a manifest.
 */
module Forest {
  import opened Prelude

  type Parents<K(==)> = map<K, Option<K>>

  /** The n-th ancestor of x, as long as the walk stays inside the forest. */
  ghost function Up<K>(f: Parents<K>, x: K, n: nat): (r: Option<K>)
    ensures r.Some? ==> r.value in f
    decreases n
  {
    if x !in f then None
    else if n == 0 then Some(x)
    else if f[x].None? then None
    else Up(f, f[x].value, n - 1)
  }

  /** a is x itself or one of its ancestors. */
  ghost predicate Above<K>(f: Parents<K>, a: K, x: K) {
    exists n: nat :: Up(f, x, n) == Some(a)
  }

  ghost predicate OnCycle<K>(f: Parents<K>, x: K) {
    exists n: nat :: 0 < n && Up(f, x, n) == Some(x)
  }

  ghost predicate Acyclic<K(!new)>(f: Parents<K>) {
    forall x | x in f :: !OnCycle(f, x)
  }

  /** Every named parent is itself a node (the self-referential foreign key). */
  ghost predicate Closed<K>(f: Parents<K>) {
    forall x | x in f && f[x].Some? :: f[x].value in f
  }

  ghost predicate Part<K>(f: Parents<K>, g: Parents<K>) {
    forall x | x in f :: x in g && g[x] == f[x]
  }

  /** The walk up from x takes exactly d steps before it leaves the forest. */
  ghost predicate EndsAt<K>(f: Parents<K>, x: K, d: nat) {
    Up(f, x, d).Some? && Up(f, x, d + 1).None?
  }

  /** x lies exactly k steps below a node that has no parent. */
  ghost predicate AtDepth<K>(f: Parents<K>, x: K, k: nat) {
    Up(f, x, k).Some? && f[Up(f, x, k).value].None?
  }

  // ---- Walking up

  lemma {:induction false} UpAdd<K>(f: Parents<K>, x: K, m: nat, n: nat)
    requires Up(f, x, m).Some?
    ensures Up(f, x, m + n) == Up(f, Up(f, x, m).value, n)
    decreases m
  {
    if m != 0 {
      UpAdd(f, f[x].value, m - 1, n);
    }
  }

  lemma {:induction false} UpPrefix<K>(f: Parents<K>, x: K, m: nat, n: nat)
    requires m <= n && Up(f, x, n).Some?
    ensures Up(f, x, m).Some?
    decreases m
  {
    if m != 0 {
      UpPrefix(f, f[x].value, m - 1, n - 1);
    }
  }

  lemma UpStep<K>(f: Parents<K>, x: K, n: nat)
    requires Up(f, x, n).Some?
    ensures var y := Up(f, x, n).value;
            Up(f, x, n + 1) == if f[y].Some? && f[y].value in f then f[y] else None
  {
    UpAdd(f, x, n, 1);
    var y := Up(f, x, n).value;
    if f[y].Some? {
      assert Up(f, y, 1) == Up(f, f[y].value, 0);
    }
  }

  lemma AboveTransitive<K>(f: Parents<K>, a: K, b: K, c: K)
    requires Above(f, a, b) && Above(f, b, c)
    ensures Above(f, a, c)
  {
    var m: nat :| Up(f, b, m) == Some(a);
    var n: nat :| Up(f, c, n) == Some(b);
    UpAdd(f, c, n, m);
  }

  lemma Repeat<K>(f: Parents<K>, x: K, i: nat, j: nat)
    requires i < j && Up(f, x, j).Some? && Up(f, x, i) == Up(f, x, j)
    ensures OnCycle(f, Up(f, x, i).value)
  {
    UpAdd(f, x, i, j - i);
  }

  ghost function Walk<K>(f: Parents<K>, x: K, n: nat): (w: seq<K>)
    requires Up(f, x, n).Some?
    ensures |w| == n + 1
    ensures forall i :: 0 <= i <= n ==> Up(f, x, i) == Some(w[i])
  {
    if n == 0 then [x]
    else
      var rest := Walk(f, f[x].value, n - 1);
      [x] + rest
  }

  /** A walk of at least |f| steps meets some node twice. */
  lemma Collision<K(!new)>(f: Parents<K>, x: K, n: nat) returns (i: nat, j: nat)
    requires |f| <= n && Up(f, x, n).Some?
    ensures i < j <= n && Up(f, x, j).Some? && Up(f, x, i) == Up(f, x, j)
  {
    var w := Walk(f, x, n);
    if Distinct(w) {
      DistinctSize(w);
      forall y | y in Elements(w) ensures y in f.Keys {
        var k :| 0 <= k < |w| && w[k] == y;
        assert Up(f, x, k) == Some(y);
      }
      SubsetSize(Elements(w), f.Keys);
      assert false;
    }
    i, j :| 0 <= i < j < |w| && w[i] == w[j];
    assert Up(f, x, i) == Some(w[i]) && Up(f, x, j) == Some(w[j]);
  }

  lemma {:induction false} FirstMissing<K>(f: Parents<K>, x: K, n: nat) returns (d: nat)
    requires x in f && Up(f, x, n).None?
    ensures d < n && EndsAt(f, x, d)
    decreases n
  {
    assert Up(f, x, 0).Some?;
    if Up(f, x, n - 1).Some? {
      d := n - 1;
    } else {
      d := FirstMissing(f, x, n - 1);
    }
  }

  /** The walk from x either ends within |f| steps or runs into a cycle, never both. */
  lemma EndsUnlessBelowCycle<K(!new)>(f: Parents<K>, x: K)
    requires x in f
    ensures (exists d: nat :: d < |f| && EndsAt(f, x, d)) <==>
            !(exists y :: Above(f, y, x) && OnCycle(f, y))
  {
    if y, d: nat :| EndsAt(f, x, d) && Above(f, y, x) && OnCycle(f, y) {
      var n: nat :| Up(f, x, n) == Some(y);
      CycleNeverEnds(f, y, d + 1);
      UpAdd(f, x, n, d + 1);
      UpPrefix(f, x, d + 1, n + d + 1);
      assert false;
    }
    if Up(f, x, |f|).Some? {
      var i, j := Collision(f, x, |f|);
      var y := Up(f, x, i).value;
      Repeat(f, x, i, j);
      assert Above(f, y, x);
    } else {
      var d := FirstMissing(f, x, |f|);
    }
  }

  /** From a node on a cycle the walk goes on for ever. */
  lemma {:induction false} CycleNeverEnds<K>(f: Parents<K>, y: K, n: nat)
    requires OnCycle(f, y)
    ensures Up(f, y, n).Some?
    decreases n
  {
    var c: nat :| 0 < c && Up(f, y, c) == Some(y);
    if n <= c {
      UpPrefix(f, y, n, c);
    } else {
      CycleNeverEnds(f, y, n - c);
      UpAdd(f, y, c, n - c);
    }
  }

  /** In an acyclic forest no walk is as long as the forest is large. */
  lemma AcyclicShort<K(!new)>(f: Parents<K>, x: K, n: nat)
    requires Acyclic(f) && Up(f, x, n).Some?
    ensures n < |f|
  {
    if |f| <= n {
      var i, j := Collision(f, x, n);
      Repeat(f, x, i, j);
      assert false;
    }
  }

  /** A node lies at one depth only. */
  lemma DepthUnique<K>(f: Parents<K>, x: K, i: nat, j: nat)
    requires AtDepth(f, x, i) && AtDepth(f, x, j)
    ensures i == j
  {
    if i < j {
      UpStep(f, x, i);
      UpPrefix(f, x, i + 1, j);
    } else if j < i {
      UpStep(f, x, j);
      UpPrefix(f, x, j + 1, i);
    }
  }

  ghost predicate Ends<K>(f: Parents<K>, x: K) {
    exists n: nat :: Up(f, x, n).None?
  }

  /** At each depth a node has one ancestor at most. */
  lemma SameDepthAbove<K>(f: Parents<K>, a: K, b: K, d: nat, x: K)
    requires AtDepth(f, a, d) && AtDepth(f, b, d) && Above(f, a, x) && Above(f, b, x)
    ensures a == b
  {
    var m: nat :| Up(f, x, m) == Some(a);
    var n: nat :| Up(f, x, n) == Some(b);
    UpAdd(f, x, m, d);
    UpAdd(f, x, n, d);
    DepthUnique(f, x, m + d, n + d);
  }

  lemma StepBelow<K>(f: Parents<K>, a: K, x: K) returns (k: K)
    requires Above(f, a, x) && x != a
    ensures k in f && f[k] == Some(a) && Above(f, k, x)
  {
    var n: nat :| Up(f, x, n) == Some(a);
    UpPrefix(f, x, n - 1, n);
    UpStep(f, x, n - 1);
    k := Up(f, x, n - 1).value;
  }

  lemma ParentNotBelow<K>(f: Parents<K>, p: K, k: K, d: nat)
    requires AtDepth(f, p, d) && k in f && f[k] == Some(p)
    ensures !Above(f, k, p)
  {
    if n: nat :| Up(f, p, n) == Some(k) {
      assert AtDepth(f, k, d + 1);
      UpAdd(f, p, n, d + 1);
      DepthUnique(f, p, d, n + d + 1);
    }
  }

  /** A forest in which every walk ends has no cycle. */
  lemma EndingIsAcyclic<K(!new)>(f: Parents<K>)
    requires forall x | x in f :: Ends(f, x)
    ensures Acyclic(f)
  {
    forall x | x in f ensures !OnCycle(f, x) {
      var n: nat :| Up(f, x, n).None?;
      if OnCycle(f, x) {
        CycleNeverEnds(f, x, n);
      }
    }
  }

  // ---- Changing the forest

  /** Removing nodes can only cut walks short. */
  lemma {:induction false} UpInSubforest<K>(g: Parents<K>, f: Parents<K>, x: K, n: nat)
    requires Part(g, f)
    requires Up(g, x, n).Some?
    ensures Up(f, x, n) == Up(g, x, n)
    decreases n
  {
    if n != 0 {
      UpInSubforest(g, f, g[x].value, n - 1);
    }
  }

  lemma SubforestAcyclic<K(!new)>(g: Parents<K>, f: Parents<K>)
    requires Part(g, f)
    requires Acyclic(f)
    ensures Acyclic(g)
  {
    forall x | x in g ensures !OnCycle(g, x) {
      if n: nat :| 0 < n && Up(g, x, n) == Some(x) {
        UpInSubforest(g, f, x, n);
        assert OnCycle(f, x);
      }
    }
  }

  /** f has some nodes of g, each with its parent there or with none. */
  ghost predicate CutFrom<K>(f: Parents<K>, g: Parents<K>) {
    forall x | x in f :: x in g && (f[x].Some? ==> g[x] == f[x])
  }

  lemma {:induction false} UpInCut<K>(f: Parents<K>, g: Parents<K>, x: K, n: nat)
    requires CutFrom(f, g) && Up(f, x, n).Some?
    ensures Up(g, x, n) == Up(f, x, n)
    decreases n
  {
    if n != 0 {
      UpInCut(f, g, f[x].value, n - 1);
    }
  }

  /** Dropping nodes and links closes no cycle. */
  lemma CutAcyclic<K(!new)>(f: Parents<K>, g: Parents<K>)
    requires CutFrom(f, g) && Acyclic(g)
    ensures Acyclic(f)
  {
    forall x | x in f ensures !OnCycle(f, x) {
      forall n: nat | 0 < n ensures Up(f, x, n) != Some(x) {
        if Up(f, x, n) == Some(x) {
          UpInCut(f, g, x, n);
          assert OnCycle(g, x);
        }
      }
    }
  }

  /** A closed part of a forest keeps its walks when nodes are added around it. */
  lemma {:induction false} UpInClosedPart<K>(f: Parents<K>, g: Parents<K>, x: K, n: nat)
    requires Closed(f) && x in f
    requires Part(f, g)
    ensures Up(g, x, n) == Up(f, x, n)
    decreases n
  {
    if n != 0 && f[x].Some? {
      UpInClosedPart(f, g, f[x].value, n - 1);
    }
  }

  /** Walks that do not leave m upwards are the same after m is given another parent. */
  lemma {:induction false} UpAvoiding<K>(f: Parents<K>, m: K, p: Option<K>, x: K, n: nat)
    requires m in f
    requires forall i: nat | i < n :: Up(f, x, i) != Some(m)
    ensures Up(f[m := p], x, n) == Up(f, x, n)
    decreases n
  {
    if x in f && n != 0 {
      assert Up(f, x, 0) != Some(m);
      if f[x].Some? {
        forall i: nat | i < n - 1 ensures Up(f, f[x].value, i) != Some(m) {
          assert Up(f, x, i + 1) == Up(f, f[x].value, i);
        }
        UpAvoiding(f, m, p, f[x].value, n - 1);
      }
    }
  }

  lemma {:induction false} FirstVisit<K>(f: Parents<K>, x: K, m: K, n: nat) returns (k: nat)
    requires Up(f, x, n) == Some(m)
    ensures k <= n && Up(f, x, k) == Some(m)
    ensures forall i: nat | i < k :: Up(f, x, i) != Some(m)
    decreases n
  {
    if i: nat :| i < n && Up(f, x, i) == Some(m) {
      k := FirstVisit(f, x, m, i);
    } else {
      k := n;
    }
  }

  /** Giving m the parent p keeps the forest acyclic exactly when p is not m or below m. */
  lemma ReparentExact<K(!new)>(f: Parents<K>, m: K, p: K)
    requires Acyclic(f) && m in f && p in f
    ensures Acyclic(f[m := Some(p)]) <==> !Above(f, m, p)
  {
    var g := f[m := Some(p)];
    if Above(f, m, p) {
      var n: nat :| Up(f, p, n) == Some(m);
      var k := FirstVisit(f, p, m, n);
      UpAvoiding(f, m, Some(p), p, k);
      assert Up(g, m, k + 1) == Some(m);
      assert OnCycle(g, m);
    } else {
      assert g[m := f[m]] == f;
      forall x | x in g ensures !OnCycle(g, x) {
        if n: nat :| 0 < n && Up(g, x, n) == Some(x) {
          CycleMeets(f, m, Some(p), x, n);
          var k: nat :| Up(g, x, k) == Some(m);
          UpAdd(g, x, n, k);
          UpAdd(g, x, k, n);
          assert Up(g, m, n) == Some(m);
          assert Up(g, p, n - 1) == Some(m);
          var j := FirstVisit(g, p, m, n - 1);
          UpAvoiding(g, m, f[m], p, j);
          assert false;
        }
      }
    }
  }

  /** Any cycle that a new parent of m closes goes through m. */
  lemma CycleMeets<K(!new)>(f: Parents<K>, m: K, p: Option<K>, x: K, n: nat)
    requires Acyclic(f) && m in f
    requires 0 < n && Up(f[m := p], x, n) == Some(x)
    ensures Above(f[m := p], m, x)
  {
    var g := f[m := p];
    if forall i: nat | i < n :: Up(g, x, i) != Some(m) {
      UpAvoiding(g, m, f[m], x, n);
      assert g[m := f[m]] == f;
      assert OnCycle(f, x);
    }
  }

  /** Making m a root never closes a cycle. */
  lemma UprootAcyclic<K(!new)>(f: Parents<K>, m: K)
    requires Acyclic(f) && m in f
    ensures Acyclic(f[m := None])
  {
    var g := f[m := None];
    forall x | x in g ensures !OnCycle(g, x) {
      if n: nat :| 0 < n && Up(g, x, n) == Some(x) {
        CycleMeets(f, m, None, x, n);
        var k: nat :| Up(g, x, k) == Some(m);
        UpAdd(g, x, n, k);
        UpAdd(g, x, k, n);
        assert false;
      }
    }
  }

  lemma OldNodeEnds<K(!new)>(f: Parents<K>, g: Parents<K>, y: K)
    requires Acyclic(f) && Closed(f) && y in f
    requires Part(f, g)
    ensures Up(g, y, |f|).None?
  {
    UpInClosedPart(f, g, y, |f|);
    if Up(f, y, |f|).Some? {
      AcyclicShort(f, y, |f|);
    }
  }

  /** A fresh node keeps a closed forest acyclic exactly when it is not its own parent. */
  lemma AddNodeExact<K(!new)>(f: Parents<K>, x: K, p: Option<K>)
    requires Acyclic(f) && Closed(f) && x !in f
    requires p.Some? ==> p.value in f || p.value == x
    ensures Acyclic(f[x := p]) <==> p != Some(x)
  {
    var g := f[x := p];
    if p == Some(x) {
      assert Up(g, x, 1) == Up(g, x, 0);
      assert OnCycle(g, x);
    } else {
      forall y | y in g ensures Ends(g, y) {
        if y != x {
          OldNodeEnds(f, g, y);
        } else if p.Some? {
          OldNodeEnds(f, g, p.value);
          assert Up(g, x, |f| + 1) == Up(g, p.value, |f|);
        } else {
          assert Up(g, x, 1).None?;
        }
      }
      EndingIsAcyclic(g);
    }
  }
}
