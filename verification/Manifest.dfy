/** A subsystem's permission manifest and its layering by parent code. */
module Manifest {
  import opened Prelude
  import opened Forest

  /** The columns that a sync compares and overwrites. */
  datatype Fields = Fields(
    name: string,
    kind: string,
    path: Option<string>,
    component: Option<string>,
    isExt: bool,
    extUrl: Option<string>,
    icon: Option<string>,
    sort: int,
    isVisible: bool,
    props: Option<string>)

  datatype Item = Item(code: string, parentCode: Option<string>, fields: Fields)

  /** The manifest keyed by code; a code that is reported twice keeps its last item. */
  function ByCode(items: seq<Item>): (m: map<string, Item>)
    ensures forall c | c in m :: m[c].code == c && m[c] in items
    ensures forall it | it in items :: it.code in m
  {
    Keyed(items, (it: Item) => it.code)
  }

  ghost predicate DistinctCodes(items: seq<Item>) {
    forall i, j :: 0 <= i < j < |items| ==> items[i].code != items[j].code
  }

  ghost function CodeForest(items: seq<Item>): (f: Parents<string>)
    requires DistinctCodes(items)
    ensures forall it | it in items :: it.code in f && f[it.code] == it.parentCode
    ensures forall c | c in f :: exists it :: it in items && it.code == c
  {
    map it | it in items :: it.code := it.parentCode
  }

  function Codes(items: seq<Item>): (q: seq<Option<string>>)
    ensures |q| == |items|
    ensures forall i | 0 <= i < |q| :: q[i] == Some(items[i].code)
  {
    seq(|items|, i requires 0 <= i < |items| => Some(items[i].code))
  }

  function ChildItems(items: seq<Item>, parent: Option<string>): (kids: seq<Item>)
    ensures forall it :: it in kids <==> it in items && it.parentCode == parent
  {
    if items == [] then []
    else
      var last := |items| - 1;
      var rest := ChildItems(items[..last], parent);
      assert items == items[..last] + [items[last]];
      if items[last].parentCode == parent then rest + [items[last]] else rest
  }

  lemma {:induction false} ChildItemsDistinct(items: seq<Item>, parent: Option<string>)
    requires DistinctCodes(items)
    ensures DistinctCodes(ChildItems(items, parent))
  {
    if items != [] {
      ChildItemsDistinct(items[..|items| - 1], parent);
    }
  }

  /** children_map: every item filed under its parent code. */
  method FileByParent(items: seq<Item>) returns (childrenMap: map<Option<string>, seq<Item>>)
    ensures FiledByParent(items, childrenMap)
  {
    childrenMap := map[];
    var i := 0;
    while i < |items|
      invariant 0 <= i <= |items|
      invariant FiledByParent(items[..i], childrenMap)
    {
      var p := items[i].parentCode;
      assert items[..i + 1][..i] == items[..i];
      childrenMap := childrenMap[p := (if p in childrenMap then childrenMap[p] else []) + [items[i]]];
      i := i + 1;
    }
    assert items[..i] == items;
  }

  /** The queue holds exactly the parent codes of the items at depth k. */
  ghost predicate Feeds(items: seq<Item>, queue: seq<Option<string>>, k: nat)
    requires DistinctCodes(items)
  {
    forall it | it in items :: it.parentCode in queue <==> AtDepth(CodeForest(items), it.code, k)
  }

  ghost predicate IsLayer(items: seq<Item>, layer: seq<Item>, k: nat)
    requires DistinctCodes(items)
  {
    && DistinctCodes(layer)
    && forall it :: it in layer <==> it in items && AtDepth(CodeForest(items), it.code, k)
  }

  ghost predicate FiledByParent(items: seq<Item>, childrenMap: map<Option<string>, seq<Item>>) {
    forall p :: ChildItems(items, p) == if p in childrenMap then childrenMap[p] else []
  }

  /** The layer holds the items whose parent code is queued, each once. */
  ghost predicate AreChildren(items: seq<Item>, queue: seq<Option<string>>, layer: seq<Item>) {
    && DistinctCodes(layer)
    && forall it :: it in layer <==> it in items && it.parentCode in queue
  }

  ghost predicate Layered(items: seq<Item>, layers: seq<seq<Item>>)
    requires DistinctCodes(items)
  {
    forall k | 0 <= k < |layers| :: layers[k] != [] && IsLayer(items, layers[k], k)
  }

  /** Every code outside `unvisited` lies at a depth that already has its layer. */
  ghost predicate Visited(items: seq<Item>, unvisited: set<string>, n: nat)
    requires DistinctCodes(items)
  {
    forall c | c in CodeForest(items) && c !in unvisited :: exists k: nat :: k < n && AtDepth(CodeForest(items), c, k)
  }

  method QueueChildren(kids: seq<Item>, layerBefore: seq<Item>, queueBefore: seq<Option<string>>)
      returns (layer: seq<Item>, queue: seq<Option<string>>)
    ensures layer == layerBefore + kids && queue == queueBefore + Codes(kids)
  {
    layer, queue := layerBefore, queueBefore;
    var i := 0;
    while i < |kids|
      invariant 0 <= i <= |kids|
      invariant layer == layerBefore + kids[..i] && queue == queueBefore + Codes(kids[..i])
    {
      assert Codes(kids[..i + 1]) == Codes(kids[..i]) + [Some(kids[i].code)];
      layer, queue := layer + [kids[i]], queue + [Some(kids[i].code)];
      i := i + 1;
    }
    assert kids[..i] == kids;
  }

  /** The pass over one layer: every queued code gives way to the codes of its children. */
  method DrainQueue(ghost items: seq<Item>, childrenMap: map<Option<string>, seq<Item>>, atStart: seq<Option<string>>)
      returns (layer: seq<Item>, queue: seq<Option<string>>)
    requires DistinctCodes(items) && Distinct(atStart) && FiledByParent(items, childrenMap)
    ensures AreChildren(items, atStart, layer) && queue == Codes(layer)
  {
    queue, layer := atStart, [];
    var layerSize := |queue|;
    var n := 0;
    while n < layerSize
      invariant 0 <= n <= layerSize
      invariant queue == atStart[n..] + Codes(layer)
      invariant AreChildren(items, atStart[..n], layer)
    {
      QueueHead(atStart, n, layer);
      var parentCode := queue[0];
      var kids := if parentCode in childrenMap then childrenMap[parentCode] else [];
      MoreChildren(items, atStart, n, layer, kids);
      QueueAfter(atStart, n, layer, kids);
      layer, queue := QueueChildren(kids, layer, queue[1..]);
      n := n + 1;
    }
    assert atStart[..n] == atStart;
  }

  lemma QueueHead(atStart: seq<Option<string>>, n: nat, layer: seq<Item>)
    requires n < |atStart|
    ensures |atStart[n..] + Codes(layer)| > 0 && (atStart[n..] + Codes(layer))[0] == atStart[n]
  {
  }

  lemma QueueAfter(atStart: seq<Option<string>>, n: nat, layer: seq<Item>, kids: seq<Item>)
    requires n < |atStart|
    ensures (atStart[n..] + Codes(layer))[1..] + Codes(kids) == atStart[n + 1..] + Codes(layer + kids)
  {
    assert Codes(layer + kids) == Codes(layer) + Codes(kids);
    assert (atStart[n..] + Codes(layer))[1..] == atStart[n + 1..] + Codes(layer);
  }

  lemma MoreChildren(items: seq<Item>, queue: seq<Option<string>>, n: nat, layer: seq<Item>, kids: seq<Item>)
    requires DistinctCodes(items) && Distinct(queue) && n < |queue|
    requires AreChildren(items, queue[..n], layer) && kids == ChildItems(items, queue[n])
    ensures AreChildren(items, queue[..n + 1], layer + kids)
  {
    assert queue[n] !in queue[..n];
    assert queue[..n + 1] == queue[..n] + [queue[n]];
    ChildItemsDistinct(items, queue[n]);
    AppendKidsDistinct(items, layer, kids);
  }

  /**
   Groups items into layers by distance from the root, starting from parent code None. Layer k
   holds exactly the items at depth k, none twice, and no layer is empty. Items whose parent
   chain does not end in a root item of the list appear in no layer.
   */
  method TopoSort(items: seq<Item>) returns (layers: seq<seq<Item>>)
    requires DistinctCodes(items)
    ensures Layered(items, layers)
    ensures forall it, k: nat | it in items && AtDepth(CodeForest(items), it.code, k) :: k < |layers|
  {
    var childrenMap := FileByParent(items);
    layers := [];
    var queue: seq<Option<string>> := [None];
    ghost var unvisited := CodeForest(items).Keys;
    RootsFeedFirstLayer(items);
    while queue != []
      invariant Distinct(queue) && Feeds(items, queue, |layers|)
      invariant Layered(items, layers)
      invariant Visited(items, unvisited, |layers|)
      decreases |unvisited|, |queue|
    {
      var layer, next := DrainQueue(items, childrenMap, queue);
      NextLayerFed(items, layer, |layers|);
      queue := next;
      if layer != [] {
        unvisited := Visit(items, layer, |layers|, unvisited);
        OneMoreLayer(items, layers, layer);
        layers := layers + [layer];
      }
    }
    NoDeeperItems(items, |layers|);
  }

  lemma OneMoreLayer(items: seq<Item>, layers: seq<seq<Item>>, layer: seq<Item>)
    requires DistinctCodes(items) && Layered(items, layers)
    requires layer != [] && IsLayer(items, layer, |layers|)
    ensures Layered(items, layers + [layer])
  {
  }

  lemma Visit(items: seq<Item>, layer: seq<Item>, k: nat, unvisited: set<string>) returns (rest: set<string>)
    requires DistinctCodes(items) && IsLayer(items, layer, k) && layer != []
    requires Visited(items, unvisited, k)
    ensures |rest| < |unvisited| && Visited(items, rest, k + 1)
  {
    var f := CodeForest(items);
    var met := set it | it in layer :: it.code;
    rest := unvisited - met;
    var first := layer[0];
    if first.code !in unvisited {
      var j: nat :| j < k && AtDepth(f, first.code, j);
      DepthUnique(f, first.code, j, k);
    }
    SubsetSize(rest, unvisited);
    forall c | c in f && c !in rest ensures exists j: nat :: j < k + 1 && AtDepth(f, c, j) {
      if c in met {
        assert AtDepth(f, c, k);
      } else {
        var j: nat :| j < k && AtDepth(f, c, j);
      }
    }
  }

  /** Once no item is left at depth n, there is none further down either. */
  lemma NoDeeperItems(items: seq<Item>, n: nat)
    requires DistinctCodes(items) && Feeds(items, [], n)
    ensures forall it, k: nat | it in items && AtDepth(CodeForest(items), it.code, k) :: k < n
  {
    var f := CodeForest(items);
    forall it, k: nat | it in items && AtDepth(f, it.code, k) ensures k < n {
      if n <= k {
        var c := DepthAbove(f, it.code, k, n);
        assert false;
      }
    }
  }

  lemma AppendKidsDistinct(items: seq<Item>, before: seq<Item>, kids: seq<Item>)
    requires DistinctCodes(items) && DistinctCodes(before) && DistinctCodes(kids)
    requires forall it | it in before || it in kids :: it in items
    requires forall it | it in kids :: it !in before
    ensures DistinctCodes(before + kids)
  {
    forall i, j | 0 <= i < j < |before + kids| ensures (before + kids)[i].code != (before + kids)[j].code {
      if i < |before| <= j {
        assert before[i] in before && kids[j - |before|] in kids;
      }
    }
  }

  lemma RootsFeedFirstLayer(items: seq<Item>)
    requires DistinctCodes(items)
    ensures Feeds(items, [None], 0)
  {
    var f := CodeForest(items);
    forall it | it in items ensures it.parentCode in [None] <==> AtDepth(f, it.code, 0) {
      assert Up(f, it.code, 0) == Some(it.code);
    }
  }

  /** The codes of layer k are the parent codes of the items at depth k + 1. */
  lemma NextLayerFed(items: seq<Item>, layer: seq<Item>, k: nat)
    requires DistinctCodes(items) && IsLayer(items, layer, k)
    ensures Feeds(items, Codes(layer), k + 1)
    ensures Distinct(Codes(layer))
  {
    var f := CodeForest(items);
    forall it | it in items ensures it.parentCode in Codes(layer) <==> AtDepth(f, it.code, k + 1) {
      if it.parentCode.Some? {
        var p := it.parentCode.value;
        assert AtDepth(f, it.code, k + 1) <==> AtDepth(f, p, k);
        if AtDepth(f, p, k) {
          var parent :| parent in items && parent.code == p;
          assert parent in layer;
          var i :| 0 <= i < |layer| && layer[i] == parent;
          assert Codes(layer)[i] == it.parentCode;
        }
      }
    }
  }

  /** Above an item at depth d there is one at every smaller depth. */
  lemma DepthAbove(f: Parents<string>, c: string, d: nat, k: nat) returns (a: string)
    requires AtDepth(f, c, d) && k <= d
    ensures AtDepth(f, a, k)
  {
    UpPrefix(f, c, d - k, d);
    a := Up(f, c, d - k).value;
    UpAdd(f, c, d - k, k);
  }

  /** Every item of a later layer has its parent in the layer just before. */
  lemma ParentOneLayerUp(items: seq<Item>, layers: seq<seq<Item>>, k: nat, it: Item)
    requires DistinctCodes(items)
    requires forall j | 0 <= j < |layers| :: IsLayer(items, layers[j], j)
    requires k < |layers| && it in layers[k]
    ensures k == 0 <==> it.parentCode == None
    ensures 0 < k ==> exists p :: p in layers[k - 1] && it.parentCode == Some(p.code)
  {
    var f := CodeForest(items);
    if 0 < k {
      assert f[it.code].Some?;
      var p := it.parentCode.value;
      assert AtDepth(f, p, k - 1);
      var parent :| parent in items && parent.code == p;
      assert parent in layers[k - 1];
    }
  }

  /** The first layer holds every item without a parent, and each later one every child of the layer before. */
  lemma LayersComplete(items: seq<Item>, layers: seq<seq<Item>>, it: Item)
    requires DistinctCodes(items) && Layered(items, layers) && it in items
    requires forall it, k: nat | it in items && AtDepth(CodeForest(items), it.code, k) :: k < |layers|
    ensures it.parentCode.None? ==> 0 < |layers| && it in layers[0]
    ensures forall k, p | 0 <= k < |layers| && p in layers[k] && it.parentCode == Some(p.code) ::
              k + 1 < |layers| && it in layers[k + 1]
  {
    var f := CodeForest(items);
    assert f[it.code] == it.parentCode;
    if it.parentCode.None? {
      assert Up(f, it.code, 0) == Some(it.code);
      assert AtDepth(f, it.code, 0);
      assert IsLayer(items, layers[0], 0);
    }
    forall k, p | 0 <= k < |layers| && p in layers[k] && it.parentCode == Some(p.code)
      ensures k + 1 < |layers| && it in layers[k + 1]
    {
      assert IsLayer(items, layers[k], k);
      assert Up(f, it.code, k + 1) == Up(f, p.code, k);
      assert AtDepth(f, it.code, k + 1);
      assert IsLayer(items, layers[k + 1], k + 1);
    }
  }
}
