/** Optional values, results, and the counting facts about sequences that several modules share. */
module Prelude {

  datatype Option<+T> = None | Some(value: T)

  datatype Result<+T, +E> = Ok(value: T) | Err(error: E)

  function ValueOr<T>(o: Option<T>, default: T): T {
    if o.Some? then o.value else default
  }

  /** The items keyed by code, as a dictionary built by going through them in order. */
  function Keyed<T>(items: seq<T>, code: T -> string): (m: map<string, T>)
    ensures forall c | c in m :: code(m[c]) == c && m[c] in items
    ensures forall it | it in items :: code(it) in m
  {
    if items == [] then map[]
    else
      var last := |items| - 1;
      Keyed(items[..last], code)[code(items[last]) := items[last]]
  }

  ghost predicate IsLastReport<T>(items: seq<T>, code: T -> string, i: nat) {
    i < |items| && forall j | i < j < |items| :: code(items[j]) != code(items[i])
  }

  /** Of several items that report one code the last one counts. */
  lemma {:induction false} LastReportWins<T>(items: seq<T>, code: T -> string, i: nat)
    requires IsLastReport(items, code, i)
    ensures code(items[i]) in Keyed(items, code) && Keyed(items, code)[code(items[i])] == items[i]
  {
    var last := |items| - 1;
    var before := items[..last];
    assert Keyed(items, code) == Keyed(before, code)[code(items[last]) := items[last]];
    if i < last {
      assert before[i] == items[i] && code(items[last]) != code(items[i]);
      assert IsLastReport(before, code, i);
      LastReportWins(before, code, i);
    }
  }

  ghost predicate Distinct<T(!new)>(s: seq<T>) {
    forall i, j :: 0 <= i < j < |s| ==> s[i] != s[j]
  }

  ghost function Elements<T>(s: seq<T>): set<T> {
    set x | x in s
  }

  /** A sequence without repetitions has as many entries as elements. */
  lemma {:induction false} DistinctSize<T(!new)>(s: seq<T>)
    requires Distinct(s)
    ensures |Elements(s)| == |s|
  {
    if s != [] {
      var last := |s| - 1;
      DistinctSize(s[..last]);
      assert Elements(s) == Elements(s[..last]) + {s[last]};
    }
  }

  lemma {:induction false} ElementsSize<T(!new)>(s: seq<T>)
    ensures |Elements(s)| <= |s|
    ensures |Elements(s)| == |s| ==> Distinct(s)
  {
    if s != [] {
      var last := |s| - 1;
      ElementsSize(s[..last]);
      assert Elements(s) == Elements(s[..last]) + {s[last]};
      if |Elements(s)| == |s| {
        assert s[last] !in Elements(s[..last]);
        StaysDistinct(s[..last], s[last]);
        assert s == s[..last] + [s[last]];
      }
    }
  }

  lemma StaysDistinct<T(!new)>(s: seq<T>, x: T)
    requires Distinct(s) && x !in Elements(s)
    ensures Distinct(s + [x])
  {
    forall i | 0 <= i < |s| ensures s[i] != x {
      assert s[i] in Elements(s);
    }
  }

  /** Sequences without repetitions over the same elements are permutations of each other. */
  lemma {:induction false} DistinctCount<T(!new)>(s: seq<T>, x: T)
    requires Distinct(s)
    ensures multiset(s)[x] == if x in s then 1 else 0
  {
    if s != [] {
      var last := |s| - 1;
      DistinctCount(s[..last], x);
      assert s == s[..last] + [s[last]];
    }
  }

  lemma TakeOneMore<T>(s: seq<T>, i: nat)
    requires i < |s|
    ensures s[..i + 1] == s[..i] + [s[i]]
  {
  }

  lemma InPrefix<T>(s: seq<T>, n: nat, x: T)
    requires n <= |s| && x in s[..n]
    ensures x in s
  {
    var i :| 0 <= i < n && s[..n][i] == x;
    assert s[i] == x;
  }

  lemma SubsetSize<T>(a: set<T>, b: set<T>)
    requires a <= b
    ensures |a| <= |b|
    ensures |a| == |b| ==> a == b
  {
    assert b == a + (b - a);
  }

  /** Going one step further through an ordering of a set. */
  lemma OneFurther<T(!new)>(order: seq<T>, i: nat)
    requires Distinct(order) && i < |order|
    ensures order[i] in Elements(order) && order[i] !in Elements(order[..i])
    ensures Elements(order[..i + 1]) == Elements(order[..i]) + {order[i]}
    ensures Elements(order[..i + 1]) <= Elements(order)
  {
    TakeOneMore(order, i);
  }

  lemma AllTaken<T>(s: seq<T>)
    ensures s[..|s|] == s
  {
  }

  /** Lists a set in an order that nothing may depend on, as iterating over a hash set does. */
  method AnyOrder<T(==, !new)>(s: set<T>) returns (order: seq<T>)
    ensures Distinct(order) && Elements(order) == s
  {
    order := [];
    var todo := s;
    while todo != {}
      invariant todo <= s && Distinct(order) && Elements(order) == s - todo
      decreases todo
    {
      var x :| x in todo;
      assert x !in Elements(order);
      assert Elements(order + [x]) == Elements(order) + {x};
      order, todo := order + [x], todo - {x};
    }
  }
}
