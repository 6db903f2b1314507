/**
 The nested menu tree. The program links freshly made nodes in two passes, appending each node to
 the children of the node its row names as parent. Here the linked nodes are shown to represent a
 tree value, and that value is shown to hold every menu row exactly once.
 */
module MenuTree {
  import opened Prelude
  import opened Forest
  import opened RecursiveQueries
  import opened Permissions

  datatype MenuItem = MenuItem(
    id: int, parent: Option<int>, name: string, path: Option<string>, component: Option<string>,
    isExt: bool, extUrl: Option<string>,
    title: string, icon: Option<string>, order: int, kind: string, keepAlive: bool)

  datatype Tree = Tree(item: MenuItem, children: seq<Tree>)

  class Node {
    const item: MenuItem
    var children: seq<Node>

    constructor (item: MenuItem)
      ensures this.item == item && children == []
    {
      this.item := item;
      children := [];
    }
  }

  function ItemOf(r: Row): (v: MenuItem)
    ensures v.id == r.id
  {
    var f := r.fields;
    MenuItem(r.id, r.parent, f.name, f.path, f.component, f.isExt, f.extUrl, f.name, f.icon, f.sort, f.kind, true)
  }

  /** Directories, menus and external links are nodes of the tree. */
  predicate IsMenu(r: Row) {
    r.fields.kind == "M" || r.fields.kind == "C" || r.fields.kind == "L"
  }

  predicate IsButton(r: Row) {
    r.fields.kind == "F" && r.code != ""
  }

  ghost predicate DistinctIds(rows: seq<Row>) {
    forall i, j :: 0 <= i < j < |rows| ==> rows[i].id != rows[j].id
  }

  ghost predicate Sorted(rows: seq<Row>) {
    forall i, j :: 0 <= i < j < |rows| ==> rows[i].fields.sort <= rows[j].fields.sort
  }

  function MenuRows(rows: seq<Row>): seq<Row> {
    if rows == [] then []
    else
      var last := |rows| - 1;
      var before := MenuRows(rows[..last]);
      if IsMenu(rows[last]) then before + [rows[last]] else before
  }

  function IdsOf(rows: seq<Row>): set<int> {
    set r | r in rows :: r.id
  }

  /** The node below which a row hangs: its parent, if that is a menu row of the list. */
  function ParentNode(ids: set<int>, r: Row): Option<int> {
    if r.parent.Some? && r.parent.value != 0 && r.parent.value in ids then r.parent else None
  }

  /** The rows that hang below p, or the roots if p is None, in input order. */
  function Under(menu: seq<Row>, ids: set<int>, p: Option<int>): seq<Row> {
    if menu == [] then []
    else
      var last := |menu| - 1;
      var before := Under(menu[..last], ids, p);
      if ParentNode(ids, menu[last]) == p then before + [menu[last]] else before
  }

  ghost function Kids(menu: seq<Row>, r: Row): seq<Row> {
    Under(menu, IdsOf(menu), Some(r.id))
  }

  ghost function Roots(menu: seq<Row>): seq<Row> {
    Under(menu, IdsOf(menu), None)
  }

  function ButtonCodes(rows: seq<Row>): set<string> {
    set r | r in rows && IsButton(r) :: r.code
  }

  lemma {:induction false} UnderMembers(menu: seq<Row>, ids: set<int>, p: Option<int>)
    ensures forall r :: r in Under(menu, ids, p) <==> r in menu && ParentNode(ids, r) == p
  {
    if menu != [] {
      UnderMembers(menu[..|menu| - 1], ids, p);
      assert menu == menu[..|menu| - 1] + [menu[|menu| - 1]];
    }
  }

  lemma {:induction false} MenuRowsMembers(rows: seq<Row>)
    ensures forall r :: r in MenuRows(rows) <==> r in rows && IsMenu(r)
  {
    if rows != [] {
      MenuRowsMembers(rows[..|rows| - 1]);
      assert rows == rows[..|rows| - 1] + [rows[|rows| - 1]];
    }
  }

  lemma AppendDistinct(rows: seq<Row>, r: Row)
    requires DistinctIds(rows) && forall q | q in rows :: q.id != r.id
    ensures DistinctIds(rows + [r])
  {
  }

  lemma {:induction false} MenuRowsDistinct(rows: seq<Row>)
    requires DistinctIds(rows)
    ensures DistinctIds(MenuRows(rows))
  {
    if rows != [] {
      var last := |rows| - 1;
      MenuRowsDistinct(rows[..last]);
      MenuRowsMembers(rows[..last]);
      if IsMenu(rows[last]) {
        AppendDistinct(MenuRows(rows[..last]), rows[last]);
      }
    }
  }

  // ---- Linking the nodes

  /** The nodes in the list are those of the rows, in the same order. */
  ghost predicate Names(nodes: map<int, Node>, ns: seq<Node>, rows: seq<Row>) {
    |ns| == |rows| && forall i | 0 <= i < |rows| :: rows[i].id in nodes && ns[i] == nodes[rows[i].id]
  }

  /** Distinct nodes, one for each row, carrying that row's item. */
  ghost predicate Pool(nodes: map<int, Node>, menu: seq<Row>) {
    && (forall id :: id in nodes <==> id in IdsOf(menu))
    && (forall r {:trigger r in menu} | r in menu :: r.id in nodes && nodes[r.id].item == ItemOf(r))
    && (forall i, j | i in nodes && j in nodes && i != j :: nodes[i] != nodes[j])
  }

  /** Every node's children, and the roots, are the nodes of the rows attached so far. */
  ghost predicate Attached(nodes: map<int, Node>, part: seq<Row>, roots: seq<Node>)
    reads nodes.Values
  {
    && (forall p | p in nodes :: Names(nodes, nodes[p].children, Under(part, nodes.Keys, Some(p))))
    && Names(nodes, roots, Under(part, nodes.Keys, None))
  }

  lemma OneMoreNode(nodes: map<int, Node>, order: seq<Node>, menu: seq<Row>, r: Row, n: Node)
    requires Pool(nodes, menu) && Names(nodes, order, menu)
    requires r.id !in nodes && n.item == ItemOf(r) && n !in nodes.Values
    ensures Pool(nodes[r.id := n], menu + [r]) && Names(nodes[r.id := n], order + [n], menu + [r])
  {
  }

  lemma OneMoreButton(rows: seq<Row>, r: Row)
    ensures ButtonCodes(rows + [r]) == ButtonCodes(rows) + if IsButton(r) then {r.code} else {}
    ensures MenuRows(rows + [r]) == if IsMenu(r) then MenuRows(rows) + [r] else MenuRows(rows)
  {
  }

  /** What the first pass has made of the first rows. */
  ghost predicate Made(rows: seq<Row>, nodes: map<int, Node>, order: seq<Node>, codes: set<string>) {
    Pool(nodes, MenuRows(rows)) && Names(nodes, order, MenuRows(rows)) && codes == ButtonCodes(rows)
  }

  lemma MadeMenuRow(rows: seq<Row>, r: Row, nodes: map<int, Node>, order: seq<Node>, codes: set<string>, n: Node)
    requires DistinctIds(rows + [r]) && IsMenu(r) && Made(rows, nodes, order, codes)
    requires n.item == ItemOf(r) && n !in nodes.Values
    ensures Made(rows + [r], nodes[r.id := n], order + [n], codes)
    ensures forall k | k in nodes[r.id := n].Values :: k in nodes.Values || k == n
  {
    OneMoreButton(rows, r);
    MenuRowsMembers(rows);
    forall q | q in rows ensures q.id != r.id {
      var i :| 0 <= i < |rows| && rows[i] == q;
      assert (rows + [r])[i] == q && (rows + [r])[|rows|] == r;
    }
    OneMoreNode(nodes, order, MenuRows(rows), r, n);
  }

  lemma MadeOtherRow(rows: seq<Row>, r: Row, nodes: map<int, Node>, order: seq<Node>, codes: set<string>)
    requires !IsMenu(r) && Made(rows, nodes, order, codes)
    ensures Made(rows + [r], nodes, order, if IsButton(r) then codes + {r.code} else codes)
  {
    OneMoreButton(rows, r);
  }

  lemma PrefixDistinct(rows: seq<Row>, i: nat)
    requires DistinctIds(rows) && i < |rows|
    ensures DistinctIds(rows[..i] + [rows[i]])
  {
    TakeOneMore(rows, i);
  }

  /** First pass: one node for every menu row, in input order, and the button codes. */
  method MakeNodes(rows: seq<Row>) returns (nodes: map<int, Node>, order: seq<Node>, codes: set<string>)
    requires DistinctIds(rows)
    ensures Made(rows, nodes, order, codes)
    ensures forall n | n in nodes.Values :: fresh(n) && n.children == []
  {
    nodes, order, codes := map[], [], {};
    for i := 0 to |rows|
      invariant Made(rows[..i], nodes, order, codes)
      invariant forall n | n in nodes.Values :: fresh(n) && n.children == []
    {
      var p := rows[i];
      TakeOneMore(rows, i);
      if !IsMenu(p) {
        MadeOtherRow(rows[..i], p, nodes, order, codes);
      }
      if p.fields.kind == "F" {
        if p.code != "" {
          codes := codes + {p.code};
        }
      } else if p.fields.kind == "M" || p.fields.kind == "C" || p.fields.kind == "L" {
        var node := new Node(ItemOf(p));
        PrefixDistinct(rows, i);
        MadeMenuRow(rows[..i], p, nodes, order, codes, node);
        nodes, order := nodes[p.id := node], order + [node];
      }
    }
    assert rows[..|rows|] == rows;
  }

  lemma UnderOneMore(part: seq<Row>, r: Row, ids: set<int>, p: Option<int>)
    ensures Under(part + [r], ids, p) == if ParentNode(ids, r) == p then Under(part, ids, p) + [r] else Under(part, ids, p)
  {
    assert (part + [r])[..|part|] == part;
  }

  ghost predicate InjectivePool(nodes: map<int, Node>) {
    forall i, j | i in nodes && j in nodes && i != j :: nodes[i] != nodes[j]
  }

  /** A node joins the children of the node that its row names as parent, or else the roots. */
  method AttachNode(nodes: map<int, Node>, node: Node, ghost r: Row, ghost part: seq<Row>, before: seq<Node>)
      returns (roots: seq<Node>)
    requires InjectivePool(nodes) && Attached(nodes, part, before)
    requires r.id in nodes && node == nodes[r.id] && node.item == ItemOf(r)
    modifies nodes.Values
    ensures Attached(nodes, part + [r], roots)
  {
    roots := before;
    var parentId := node.item.parent;
    if parentId.Some? && parentId.value != 0 && parentId.value in nodes {
      var parent := nodes[parentId.value];
      parent.children := parent.children + [node];
    } else {
      roots := roots + [node];
    }
    forall p | p in nodes ensures Names(nodes, nodes[p].children, Under(part + [r], nodes.Keys, Some(p))) {
      NamesOneMore(nodes, old(nodes[p].children), part, r, Some(p));
    }
    NamesOneMore(nodes, before, part, r, None);
  }

  lemma NamesOneMore(nodes: map<int, Node>, ns: seq<Node>, part: seq<Row>, r: Row, p: Option<int>)
    requires r.id in nodes && Names(nodes, ns, Under(part, nodes.Keys, p))
    ensures Names(nodes, if ParentNode(nodes.Keys, r) == p then ns + [nodes[r.id]] else ns,
                  Under(part + [r], nodes.Keys, p))
  {
    UnderOneMore(part, r, nodes.Keys, p);
  }

  /** Second pass over the nodes of the first. */
  method BuildMenuTree(rows: seq<Row>) returns (roots: seq<Node>, buttons: set<string>, ghost nodes: map<int, Node>)
    requires DistinctIds(rows)
    ensures Pool(nodes, MenuRows(rows)) && Attached(nodes, MenuRows(rows), roots)
    ensures forall n | n in nodes.Values :: fresh(n)
    ensures buttons == ButtonCodes(rows)
  {
    ghost var menu := MenuRows(rows);
    var menuDict, order, codes := MakeNodes(rows);
    nodes := menuDict;
    roots := [];
    for i := 0 to |order|
      invariant Attached(nodes, menu[..i], roots)
      invariant forall n | n in menuDict.Values :: fresh(n)
    {
      TakeOneMore(menu, i);
      assert menu[i] in menu;
      roots := AttachNode(menuDict, order[i], menu[i], menu[..i], roots);
    }
    assert menu[..|order|] == menu;
    buttons := codes;
  }

  // ---- The tree that the nodes represent

  /** The parent relation among the menu rows. */
  ghost function MenuForest(menu: seq<Row>): (f: Ids)
    requires DistinctIds(menu)
    ensures forall id :: id in f <==> id in IdsOf(menu)
    ensures forall r {:trigger r in menu} | r in menu :: r.id in f && f[r.id] == ParentNode(IdsOf(menu), r)
  {
    map r | r in menu :: r.id := ParentNode(IdsOf(menu), r)
  }

  lemma MenuForestClosed(menu: seq<Row>)
    requires DistinctIds(menu)
    ensures Closed(MenuForest(menu))
  {
    var f := MenuForest(menu);
    forall id | id in f && f[id].Some? ensures f[id].value in f {
      var r :| r in menu && r.id == id;
    }
  }

  lemma DepthBound(f: Ids, x: int, d: nat)
    requires AtDepth(f, x, d)
    ensures d < |f|
  {
    if |f| <= d {
      var i, j := Collision(f, x, d);
      var y := Up(f, x, i).value;
      UpAdd(f, x, i, d - i);
      UpAdd(f, x, j, d - j);
      DepthUnique(f, y, d - i, d - j);
    }
  }

  ghost predicate AllAtDepth(menu: seq<Row>, rs: seq<Row>, d: nat)
    requires DistinctIds(menu)
  {
    forall r {:trigger r in rs} | r in rs :: r in menu && AtDepth(MenuForest(menu), r.id, d)
  }

  lemma SplitLast(menu: seq<Row>, rs: seq<Row>, d: nat)
    requires DistinctIds(menu) && AllAtDepth(menu, rs, d) && rs != []
    ensures AllAtDepth(menu, rs[..|rs| - 1], d)
    ensures rs[|rs| - 1] in menu && AtDepth(MenuForest(menu), rs[|rs| - 1].id, d)
  {
    assert rs[|rs| - 1] in rs;
    forall r | r in rs[..|rs| - 1] ensures r in menu && AtDepth(MenuForest(menu), r.id, d) {
      InPrefix(rs, |rs| - 1, r);
    }
  }

  lemma ChildrenOneDeeper(menu: seq<Row>, r: Row, d: nat)
    requires DistinctIds(menu) && r in menu && AtDepth(MenuForest(menu), r.id, d)
    ensures AllAtDepth(menu, Kids(menu, r), d + 1)
    ensures d < |MenuForest(menu)|
  {
    UnderMembers(menu, IdsOf(menu), Some(r.id));
    DepthBound(MenuForest(menu), r.id, d);
  }

  lemma RootsAtDepthZero(menu: seq<Row>)
    requires DistinctIds(menu)
    ensures AllAtDepth(menu, Roots(menu), 0)
  {
    UnderMembers(menu, IdsOf(menu), None);
    var f := MenuForest(menu);
    forall r | r in Roots(menu) ensures r in menu && AtDepth(f, r.id, 0) {
      assert Up(f, r.id, 0) == Some(r.id);
    }
  }

  /** The subtrees of rows that lie at depth d. */
  ghost function Trees(menu: seq<Row>, rs: seq<Row>, d: nat): (ts: seq<Tree>)
    requires DistinctIds(menu) && AllAtDepth(menu, rs, d)
    decreases |MenuForest(menu)| - d, 2, |rs|
  {
    if rs == [] then []
    else
      var last := |rs| - 1;
      SplitLast(menu, rs, d);
      Trees(menu, rs[..last], d) + [TreeOf(menu, rs[last], d)]
  }

  ghost function TreeOf(menu: seq<Row>, r: Row, d: nat): Tree
    requires DistinctIds(menu) && r in menu && AtDepth(MenuForest(menu), r.id, d)
    decreases |MenuForest(menu)| - d, 1
  {
    ChildrenOneDeeper(menu, r, d);
    Tree(ItemOf(r), Trees(menu, Kids(menu, r), d + 1))
  }

  /** The menu tree of a list of rows. */
  ghost function MenuTreeOf(rows: seq<Row>): seq<Tree>
    requires DistinctIds(rows)
  {
    var menu := MenuRows(rows);
    MenuRowsDistinct(rows);
    RootsAtDepthZero(menu);
    Trees(menu, Roots(menu), 0)
  }

  /** The children lists of the nodes at one moment. */
  type Links = map<Node, seq<Node>>

  ghost function LinksOf(nodes: map<int, Node>): (links: Links)
    reads nodes.Values
    ensures links.Keys == nodes.Values
    ensures forall n | n in nodes.Values :: links[n] == n.children
  {
    map n | n in nodes.Values :: n.children
  }

  /** Serialising the linked node n gives t. */
  ghost predicate Represents(links: Links, n: Node, t: Tree)
    decreases t
  {
    n in links && n.item == t.item && RepresentAll(links, links[n], t.children)
  }

  ghost predicate RepresentAll(links: Links, ns: seq<Node>, ts: seq<Tree>)
    decreases ts
  {
    && |ns| == |ts|
    && (ts != [] ==> var last := |ts| - 1;
                     RepresentAll(links, ns[..last], ts[..last]) && Represents(links, ns[last], ts[last]))
  }

  /** Every row's node carries its item and links to the nodes of the rows below it, in input order. */
  ghost predicate Linked(links: Links, nodes: map<int, Node>, menu: seq<Row>) {
    forall r {:trigger r in menu} | r in menu ::
      && r.id in nodes && nodes[r.id] in links
      && nodes[r.id].item == ItemOf(r)
      && Names(nodes, links[nodes[r.id]], Kids(menu, r))
  }

  /** The nodes ns stand for rows at depth d. */
  ghost predicate StandFor(links: Links, nodes: map<int, Node>, menu: seq<Row>, rs: seq<Row>, ns: seq<Node>, d: nat) {
    DistinctIds(menu) && Linked(links, nodes, menu) && AllAtDepth(menu, rs, d) && Names(nodes, ns, rs)
  }

  lemma StandForInit(links: Links, nodes: map<int, Node>, menu: seq<Row>, rs: seq<Row>, ns: seq<Node>, d: nat)
    requires StandFor(links, nodes, menu, rs, ns, d) && rs != []
    ensures StandFor(links, nodes, menu, rs[..|rs| - 1], ns[..|rs| - 1], d)
    ensures var r, n := rs[|rs| - 1], ns[|rs| - 1];
            r in menu && AtDepth(MenuForest(menu), r.id, d) && r.id in nodes && n == nodes[r.id]
  {
    SplitLast(menu, rs, d);
  }

  lemma StandForKids(links: Links, nodes: map<int, Node>, menu: seq<Row>, r: Row, d: nat)
    requires DistinctIds(menu) && Linked(links, nodes, menu) && r in menu && AtDepth(MenuForest(menu), r.id, d)
    ensures d < |MenuForest(menu)|
    ensures r.id in nodes && nodes[r.id] in links && nodes[r.id].item == ItemOf(r)
    ensures StandFor(links, nodes, menu, Kids(menu, r), links[nodes[r.id]], d + 1)
  {
    ChildrenOneDeeper(menu, r, d);
  }

  lemma StandForLast(links: Links, nodes: map<int, Node>, menu: seq<Row>, rs: seq<Row>, ns: seq<Node>, d: nat)
    requires StandFor(links, nodes, menu, rs, ns, d) && rs != []
    ensures StandFor(links, nodes, menu, rs[..|rs| - 1], ns[..|rs| - 1], d)
    ensures var r, n := rs[|rs| - 1], ns[|rs| - 1];
            && r in menu && AtDepth(MenuForest(menu), r.id, d) && d < |MenuForest(menu)|
            && n in links && n.item == ItemOf(r)
            && StandFor(links, nodes, menu, Kids(menu, r), links[n], d + 1)
  {
    StandForInit(links, nodes, menu, rs, ns, d);
    StandForKids(links, nodes, menu, rs[|rs| - 1], d);
  }

  lemma {:induction false} TreesRepresented(links: Links, nodes: map<int, Node>, menu: seq<Row>,
                                            rs: seq<Row>, ns: seq<Node>, d: nat)
    requires StandFor(links, nodes, menu, rs, ns, d)
    ensures RepresentAll(links, ns, Trees(menu, rs, d))
    decreases |MenuForest(menu)| - d, |rs|
  {
    if rs != [] {
      var last := |rs| - 1;
      StandForLast(links, nodes, menu, rs, ns, d);
      TreesRepresented(links, nodes, menu, rs[..last], ns[..last], d);
      TreesRepresented(links, nodes, menu, Kids(menu, rs[last]), links[ns[last]], d + 1);
      Assemble(links, ns, Trees(menu, rs[..last], d), ItemOf(rs[last]), Trees(menu, Kids(menu, rs[last]), d + 1));
    }
  }

  lemma Assemble(links: Links, ns: seq<Node>, before: seq<Tree>, item: MenuItem, kids: seq<Tree>)
    requires ns != [] && RepresentAll(links, ns[..|ns| - 1], before)
    requires ns[|ns| - 1] in links && ns[|ns| - 1].item == item && RepresentAll(links, links[ns[|ns| - 1]], kids)
    ensures RepresentAll(links, ns, before + [Tree(item, kids)])
  {
    var t := Tree(item, kids);
    assert (before + [t])[..|before|] == before;
    assert Represents(links, ns[|ns| - 1], t);
  }

  /** The nested structure that the two passes return is the menu tree of the rows, whatever the rows. */
  lemma BuiltTreeIsMenuTree(rows: seq<Row>, nodes: map<int, Node>, roots: seq<Node>)
    requires DistinctIds(rows)
    requires Pool(nodes, MenuRows(rows)) && Attached(nodes, MenuRows(rows), roots)
    ensures RepresentAll(LinksOf(nodes), roots, MenuTreeOf(rows))
  {
    var menu := MenuRows(rows);
    MenuRowsDistinct(rows);
    RootsAtDepthZero(menu);
    LinkedAfterPasses(nodes, menu, roots);
    TreesRepresented(LinksOf(nodes), nodes, menu, Roots(menu), roots, 0);
  }

  lemma LinkedAfterPasses(nodes: map<int, Node>, menu: seq<Row>, roots: seq<Node>)
    requires Pool(nodes, menu) && Attached(nodes, menu, roots)
    ensures Linked(LinksOf(nodes), nodes, menu) && Names(nodes, roots, Roots(menu))
  {
    assert nodes.Keys == IdsOf(menu) by {
      forall id ensures id in nodes.Keys <==> id in IdsOf(menu) {
      }
    }
  }

  // ---- What the tree contains

  ghost function Flatten(ts: seq<Tree>): seq<MenuItem>
    decreases ts
  {
    if ts == [] then []
    else
      var last := |ts| - 1;
      Flatten(ts[..last]) + [ts[last].item] + Flatten(ts[last].children)
  }

  function ItemIds(vs: seq<MenuItem>): (ids: seq<int>)
    ensures |ids| == |vs| && forall i | 0 <= i < |vs| :: ids[i] == vs[i].id
  {
    seq(|vs|, i requires 0 <= i < |vs| => vs[i].id)
  }

  ghost predicate AnyAbove(f: Ids, rs: seq<Row>, x: int) {
    exists q {:trigger q in rs} :: q in rs && Above(f, q.id, x)
  }

  lemma {:induction false} UnderDistinct(menu: seq<Row>, ids: set<int>, p: Option<int>)
    requires DistinctIds(menu)
    ensures DistinctIds(Under(menu, ids, p))
  {
    if menu != [] {
      var last := |menu| - 1;
      UnderDistinct(menu[..last], ids, p);
      UnderMembers(menu[..last], ids, p);
      if ParentNode(ids, menu[last]) == p {
        AppendDistinct(Under(menu[..last], ids, p), menu[last]);
      }
    }
  }

  lemma AboveByKid(menu: seq<Row>, r: Row, d: nat, x: int)
    requires DistinctIds(menu) && r in menu && AtDepth(MenuForest(menu), r.id, d)
    ensures Above(MenuForest(menu), r.id, x) <==> x == r.id || AnyAbove(MenuForest(menu), Kids(menu, r), x)
    ensures !AnyAbove(MenuForest(menu), Kids(menu, r), r.id)
  {
    var f := MenuForest(menu);
    UnderMembers(menu, IdsOf(menu), Some(r.id));
    assert Up(f, r.id, 0) == Some(r.id);
    if Above(f, r.id, x) && x != r.id {
      var k := StepBelow(f, r.id, x);
      var row :| row in menu && row.id == k;
      assert row in Kids(menu, r);
    }
    if q :| q in Kids(menu, r) && Above(f, q.id, x) {
      assert Up(f, q.id, 1) == Up(f, r.id, 0);
      AboveTransitive(f, r.id, q.id, x);
    }
    if q :| q in Kids(menu, r) && Above(f, q.id, r.id) {
      ParentNotBelow(f, r.id, q.id, d);
    }
  }

  ghost function Occurs(ts: seq<Tree>, x: int): nat {
    multiset(ItemIds(Flatten(ts)))[x]
  }

  lemma ItemIdsAppend(a: seq<MenuItem>, b: seq<MenuItem>)
    ensures ItemIds(a + b) == ItemIds(a) + ItemIds(b)
  {
  }

  lemma FlattenLast(ts: seq<Tree>, t: Tree)
    ensures Flatten(ts + [t]) == Flatten(ts) + [t.item] + Flatten(t.children)
  {
    assert (ts + [t])[..|ts|] == ts;
  }

  lemma OccursLast(ts: seq<Tree>, t: Tree, x: int)
    ensures Occurs(ts + [t], x) == Occurs(ts, x) + (if t.item.id == x then 1 else 0) + Occurs(t.children, x)
  {
    FlattenLast(ts, t);
    ItemIdsAppend(Flatten(ts) + [t.item], Flatten(t.children));
    ItemIdsAppend(Flatten(ts), [t.item]);
    assert ItemIds([t.item]) == [t.item.id];
  }

  lemma AnyAboveLast(f: Ids, rs: seq<Row>, x: int)
    requires rs != []
    ensures AnyAbove(f, rs, x) <==> AnyAbove(f, rs[..|rs| - 1], x) || Above(f, rs[|rs| - 1].id, x)
  {
    var last := |rs| - 1;
    assert rs[last] in rs;
    if q :| q in rs[..last] && Above(f, q.id, x) {
      InPrefix(rs, last, q);
    }
    if q :| q in rs && Above(f, q.id, x) {
      assert rs == rs[..last] + [rs[last]];
      assert q in rs[..last] || q == rs[last];
    }
  }

  lemma LastExclusive(menu: seq<Row>, rs: seq<Row>, d: nat, x: int)
    requires Fits(menu, rs, d) && rs != []
    ensures !(AnyAbove(MenuForest(menu), rs[..|rs| - 1], x) && Above(MenuForest(menu), rs[|rs| - 1].id, x))
  {
    var f, last := MenuForest(menu), |rs| - 1;
    if q :| q in rs[..last] && Above(f, q.id, x) {
      if Above(f, rs[last].id, x) {
        InPrefix(rs, last, q);
        assert rs[last] in rs;
        SameDepthAbove(f, q.id, rs[last].id, d, x);
        NotLast(rs, q);
      }
    }
  }

  lemma NotLast(rs: seq<Row>, q: Row)
    requires DistinctIds(rs) && rs != [] && q in rs[..|rs| - 1]
    ensures q.id != rs[|rs| - 1].id
  {
    var i :| 0 <= i < |rs| - 1 && rs[..|rs| - 1][i] == q;
    assert rs[i] == q;
  }

  ghost predicate CountedOnce(f: Ids, rs: seq<Row>, ts: seq<Tree>, x: int) {
    Occurs(ts, x) == if AnyAbove(f, rs, x) then 1 else 0
  }

  lemma CountStep(menu: seq<Row>, rs: seq<Row>, d: nat, before: seq<Tree>, kids: seq<Tree>, x: int)
    requires Fits(menu, rs, d) && rs != []
    requires CountedOnce(MenuForest(menu), rs[..|rs| - 1], before, x)
    requires CountedOnce(MenuForest(menu), Kids(menu, rs[|rs| - 1]), kids, x)
    ensures CountedOnce(MenuForest(menu), rs, before + [Tree(ItemOf(rs[|rs| - 1]), kids)], x)
  {
    var r := rs[|rs| - 1];
    SplitLast(menu, rs, d);
    AboveByKid(menu, r, d, x);
    AnyAboveLast(MenuForest(menu), rs, x);
    LastExclusive(menu, rs, d, x);
    OccursLast(before, Tree(ItemOf(r), kids), x);
  }

  /** Rows at depth d, none twice. */
  ghost predicate Fits(menu: seq<Row>, rs: seq<Row>, d: nat) {
    DistinctIds(menu) && AllAtDepth(menu, rs, d) && DistinctIds(rs)
  }

  lemma FitsInit(menu: seq<Row>, rs: seq<Row>, d: nat)
    requires Fits(menu, rs, d) && rs != []
    ensures Fits(menu, rs[..|rs| - 1], d)
    ensures rs[|rs| - 1] in menu && AtDepth(MenuForest(menu), rs[|rs| - 1].id, d)
  {
    SplitLast(menu, rs, d);
  }

  lemma FitsKids(menu: seq<Row>, r: Row, d: nat)
    requires DistinctIds(menu) && r in menu && AtDepth(MenuForest(menu), r.id, d)
    ensures Fits(menu, Kids(menu, r), d + 1) && d < |MenuForest(menu)|
  {
    ChildrenOneDeeper(menu, r, d);
    UnderDistinct(menu, IdsOf(menu), Some(r.id));
  }

  lemma FitsLast(menu: seq<Row>, rs: seq<Row>, d: nat)
    requires Fits(menu, rs, d) && rs != []
    ensures Fits(menu, rs[..|rs| - 1], d)
    ensures rs[|rs| - 1] in menu && AtDepth(MenuForest(menu), rs[|rs| - 1].id, d)
    ensures Fits(menu, Kids(menu, rs[|rs| - 1]), d + 1) && d < |MenuForest(menu)|
  {
    FitsInit(menu, rs, d);
    FitsKids(menu, rs[|rs| - 1], d);
  }

  lemma {:induction false} FlattenCount(menu: seq<Row>, rs: seq<Row>, d: nat, x: int)
    requires Fits(menu, rs, d)
    ensures CountedOnce(MenuForest(menu), rs, Trees(menu, rs, d), x)
    decreases |MenuForest(menu)| - d, |rs|
  {
    if rs == [] {
      assert Flatten([]) == [];
    } else {
      var last := |rs| - 1;
      FitsLast(menu, rs, d);
      FlattenCount(menu, rs[..last], d, x);
      FlattenCount(menu, Kids(menu, rs[last]), d + 1, x);
      CountStep(menu, rs, d, Trees(menu, rs[..last], d), Trees(menu, Kids(menu, rs[last]), d + 1), x);
    }
  }

  ghost predicate ReachesRoot(f: Ids, x: int) {
    exists d: nat :: AtDepth(f, x, d)
  }

  lemma BelowSomeRoot(menu: seq<Row>, x: int)
    requires DistinctIds(menu)
    ensures AnyAbove(MenuForest(menu), Roots(menu), x) <==> ReachesRoot(MenuForest(menu), x)
  {
    var f := MenuForest(menu);
    RootsAtDepthZero(menu);
    if q :| q in Roots(menu) && Above(f, q.id, x) {
      var n: nat :| Up(f, x, n) == Some(q.id);
      UpAdd(f, x, n, 0);
      assert AtDepth(f, x, n);
    }
    if d: nat :| AtDepth(f, x, d) {
      var top := Up(f, x, d).value;
      var q :| q in menu && q.id == top;
      UnderMembers(menu, IdsOf(menu), None);
      assert q in Roots(menu) && Above(f, q.id, x);
    }
  }

  /** The ids in the tree: every menu row that reaches a root appears exactly once, nothing else appears. */
  lemma TreeHoldsEachRowOnce(rows: seq<Row>, x: int)
    requires DistinctIds(rows)
    ensures DistinctIds(MenuRows(rows))
    ensures Occurs(MenuTreeOf(rows), x) == if ReachesRoot(MenuForest(MenuRows(rows)), x) then 1 else 0
  {
    var menu := MenuRows(rows);
    MenuRowsDistinct(rows);
    RootsAtDepthZero(menu);
    UnderDistinct(menu, IdsOf(menu), None);
    FlattenCount(menu, Roots(menu), 0, x);
    BelowSomeRoot(menu, x);
  }

  lemma EndsIsDepth(f: Ids, x: int)
    requires Closed(f) && x in f
    ensures ReachesRoot(f, x) <==> exists d: nat :: d < |f| && EndsAt(f, x, d)
  {
    if d: nat :| AtDepth(f, x, d) {
      UpStep(f, x, d);
      DepthBound(f, x, d);
      assert EndsAt(f, x, d);
    }
    if d: nat :| d < |f| && EndsAt(f, x, d) {
      UpStep(f, x, d);
      assert AtDepth(f, x, d);
    }
  }

  /** The menu rows missing from the tree are exactly those on or below a cycle. */
  lemma MissingExactlyBelowCycles(rows: seq<Row>, x: int)
    requires DistinctIds(rows) && DistinctIds(MenuRows(rows)) && x in IdsOf(MenuRows(rows))
    ensures var f := MenuForest(MenuRows(rows));
            Occurs(MenuTreeOf(rows), x) == 0 <==> exists y :: Above(f, y, x) && OnCycle(f, y)
  {
    var f := MenuForest(MenuRows(rows));
    TreeHoldsEachRowOnce(rows, x);
    MenuForestClosed(MenuRows(rows));
    EndsIsDepth(f, x);
    EndsUnlessBelowCycle(f, x);
  }

  /** Every item in the tree is the item of a menu row. */
  lemma {:induction false} ItemsGenuine(menu: seq<Row>, rs: seq<Row>, d: nat, v: MenuItem)
    requires Fits(menu, rs, d) && v in Flatten(Trees(menu, rs, d))
    ensures exists r {:trigger ItemOf(r)} :: r in menu && v == ItemOf(r)
    decreases |MenuForest(menu)| - d, |rs|
  {
    var last := |rs| - 1;
    FitsLast(menu, rs, d);
    var before, kids := Trees(menu, rs[..last], d), Trees(menu, Kids(menu, rs[last]), d + 1);
    FlattenLast(before, Tree(ItemOf(rs[last]), kids));
    if v in Flatten(before) {
      ItemsGenuine(menu, rs[..last], d, v);
    } else if v in Flatten(kids) {
      ItemsGenuine(menu, Kids(menu, rs[last]), d + 1, v);
    }
  }

  lemma {:induction false} ItemCount(vs: seq<MenuItem>, v: MenuItem)
    requires forall w | w in vs && w.id == v.id :: w == v
    ensures multiset(vs)[v] == multiset(ItemIds(vs))[v.id]
  {
    if vs != [] {
      var last := |vs| - 1;
      assert vs == vs[..last] + [vs[last]] && vs[last] in vs;
      ItemCount(vs[..last], v);
      ItemIdsAppend(vs[..last], [vs[last]]);
      assert ItemIds([vs[last]]) == [vs[last].id];
    }
  }

  /** Flattening the tree gives the item of each menu row once if the row reaches a root, and no other item. */
  lemma TreeItemsExact(rows: seq<Row>, v: MenuItem)
    requires DistinctIds(rows) && DistinctIds(MenuRows(rows))
    ensures multiset(Flatten(MenuTreeOf(rows)))[v] ==
            if (exists r {:trigger ItemOf(r)} :: r in MenuRows(rows) && v == ItemOf(r))
               && ReachesRoot(MenuForest(MenuRows(rows)), v.id) then 1 else 0
  {
    var menu := MenuRows(rows);
    var vs := Flatten(MenuTreeOf(rows));
    RootsAtDepthZero(menu);
    UnderDistinct(menu, IdsOf(menu), None);
    if r :| r in menu && v == ItemOf(r) {
      forall w | w in vs && w.id == v.id ensures w == v {
        ItemsGenuine(menu, Roots(menu), 0, w);
        var q :| q in menu && w == ItemOf(q);
        SameRow(menu, q, r);
      }
      ItemCount(vs, v);
      TreeHoldsEachRowOnce(rows, v.id);
    } else if v in vs {
      ItemsGenuine(menu, Roots(menu), 0, v);
    }
  }

  lemma SameRow(menu: seq<Row>, a: Row, b: Row)
    requires DistinctIds(menu) && a in menu && b in menu && a.id == b.id
    ensures a == b
  {
    var i :| 0 <= i < |menu| && menu[i] == a;
    var j :| 0 <= j < |menu| && menu[j] == b;
  }

  function ItemsOf(menu: seq<Row>): (vs: seq<MenuItem>)
    ensures |vs| == |menu| && forall i | 0 <= i < |menu| :: vs[i] == ItemOf(menu[i])
  {
    seq(|menu|, i requires 0 <= i < |menu| => ItemOf(menu[i]))
  }

  lemma ItemsOfCount(menu: seq<Row>, v: MenuItem)
    requires DistinctIds(menu)
    ensures multiset(ItemsOf(menu))[v] == if exists r {:trigger ItemOf(r)} :: r in menu && v == ItemOf(r) then 1 else 0
  {
    var vs := ItemsOf(menu);
    forall i, j | 0 <= i < j < |vs| ensures vs[i] != vs[j] {
      assert vs[i].id == menu[i].id && vs[j].id == menu[j].id;
    }
    DistinctCount(vs, v);
    if r :| r in menu && v == ItemOf(r) {
      var i :| 0 <= i < |menu| && menu[i] == r;
      assert vs[i] == v;
    }
    if v in vs {
      var i :| 0 <= i < |vs| && vs[i] == v;
      assert menu[i] in menu && ItemOf(menu[i]) == v;
    }
  }

  /** On acyclic rows the flattened tree is a permutation of the menu rows. */
  lemma AcyclicTreeIsPermutation(rows: seq<Row>)
    requires DistinctIds(rows) && DistinctIds(MenuRows(rows)) && Acyclic(MenuForest(MenuRows(rows)))
    ensures multiset(Flatten(MenuTreeOf(rows))) == multiset(ItemsOf(MenuRows(rows)))
  {
    var menu := MenuRows(rows);
    forall v ensures multiset(Flatten(MenuTreeOf(rows)))[v] == multiset(ItemsOf(menu))[v] {
      TreeItemsExact(rows, v);
      ItemsOfCount(menu, v);
      if r :| r in menu && v == ItemOf(r) {
        AcyclicReachesRoot(menu, r);
      }
    }
  }

  lemma AcyclicReachesRoot(menu: seq<Row>, r: Row)
    requires DistinctIds(menu) && Acyclic(MenuForest(menu)) && r in menu
    ensures ReachesRoot(MenuForest(menu), r.id)
  {
    var f := MenuForest(menu);
    MenuForestClosed(menu);
    EndsIsDepth(f, r.id);
    EndsUnlessBelowCycle(f, r.id);
  }

  ghost predicate DrawnFrom(menu: seq<Row>, t: Table) {
    forall r {:trigger r in menu} | r in menu :: r.id in t && t[r.id] == r
  }

  lemma MenuParentIsTableParent(menu: seq<Row>, t: Table, x: int)
    requires DistinctIds(menu) && DrawnFrom(menu, t) && x in MenuForest(menu)
    ensures x in t && (MenuForest(menu)[x].Some? ==> ParentsOf(t)[x] == MenuForest(menu)[x])
  {
    var r :| r in menu && r.id == x;
  }

  /** Rows of an acyclic table have an acyclic menu forest, whichever of them are selected. */
  lemma MenuForestAcyclic(menu: seq<Row>, t: Table)
    requires DistinctIds(menu) && DrawnFrom(menu, t) && Acyclic(ParentsOf(t))
    ensures Acyclic(MenuForest(menu))
  {
    forall x | x in MenuForest(menu)
      ensures x in t && (MenuForest(menu)[x].Some? ==> ParentsOf(t)[x] == MenuForest(menu)[x])
    {
      MenuParentIsTableParent(menu, t, x);
    }
    CutAcyclic(MenuForest(menu), ParentsOf(t));
  }

  // ---- Filtering by grants

  function Granted(rows: seq<Row>, g: set<int>): seq<Row> {
    if rows == [] then []
    else
      var last := |rows| - 1;
      var before := Granted(rows[..last], g);
      if rows[last].id in g then before + [rows[last]] else before
  }

  ghost function Pruned(ts: seq<Tree>, g: set<int>): seq<Tree>
    decreases ts
  {
    if ts == [] then []
    else
      var last := |ts| - 1;
      var before := Pruned(ts[..last], g);
      if ts[last].item.id in g then before + [Tree(ts[last].item, Pruned(ts[last].children, g))] else before
  }

  /** Whoever is granted a menu row is granted the menu row it hangs below. */
  ghost predicate ClosedUpward(menu: seq<Row>, g: set<int>) {
    forall r {:trigger r in menu} | r in menu && r.id in g && ParentNode(IdsOf(menu), r).Some? ::
      ParentNode(IdsOf(menu), r).value in g
  }

  lemma {:induction false} GrantedMembers(rows: seq<Row>, g: set<int>)
    ensures forall r :: r in Granted(rows, g) <==> r in rows && r.id in g
  {
    if rows != [] {
      GrantedMembers(rows[..|rows| - 1], g);
      assert rows == rows[..|rows| - 1] + [rows[|rows| - 1]];
    }
  }

  lemma {:induction false} GrantedDistinct(rows: seq<Row>, g: set<int>)
    requires DistinctIds(rows)
    ensures DistinctIds(Granted(rows, g))
  {
    if rows != [] {
      var last := |rows| - 1;
      GrantedDistinct(rows[..last], g);
      GrantedMembers(rows[..last], g);
      if rows[last].id in g {
        AppendDistinct(Granted(rows[..last], g), rows[last]);
      }
    }
  }

  /** Selecting menu rows and selecting granted rows commute. */
  lemma {:induction false} GrantedMenuRows(rows: seq<Row>, g: set<int>)
    ensures MenuRows(Granted(rows, g)) == Granted(MenuRows(rows), g)
  {
    if rows != [] {
      var last := |rows| - 1;
      GrantedMenuRows(rows[..last], g);
      if rows[last].id in g {
        OneMoreButton(Granted(rows[..last], g), rows[last]);
      }
      if IsMenu(rows[last]) {
        GrantedLast(MenuRows(rows[..last]), rows[last], g);
      }
    }
  }

  lemma GrantedLast(rows: seq<Row>, r: Row, g: set<int>)
    ensures Granted(rows + [r], g) == if r.id in g then Granted(rows, g) + [r] else Granted(rows, g)
  {
    assert (rows + [r])[..|rows|] == rows;
  }

  /** The parent node of a granted row is the same among the granted rows as among all. */
  lemma ParentNodeGranted(menu: seq<Row>, g: set<int>, r: Row)
    requires ClosedUpward(menu, g) && r in menu && r.id in g
    ensures ParentNode(IdsOf(Granted(menu, g)), r) == ParentNode(IdsOf(menu), r)
  {
    GrantedMembers(menu, g);
    if ParentNode(IdsOf(menu), r).Some? {
      var p := r.parent.value;
      var q :| q in menu && q.id == p;
      assert q in Granted(menu, g) && p in IdsOf(Granted(menu, g));
    } else if r.parent.Some? && r.parent.value in IdsOf(Granted(menu, g)) {
      var q :| q in Granted(menu, g) && q.id == r.parent.value;
      assert q.id in IdsOf(menu);
    }
  }

  lemma {:induction false} UnderGranted(menu: seq<Row>, g: set<int>, part: seq<Row>, p: Option<int>)
    requires ClosedUpward(menu, g) && part <= menu
    ensures Under(Granted(part, g), IdsOf(Granted(menu, g)), p) == Granted(Under(part, IdsOf(menu), p), g)
  {
    if part != [] {
      var last := |part| - 1;
      var r := part[last];
      UnderGranted(menu, g, part[..last], p);
      assert part[..last] + [r] == part;
      GrantedLast(part[..last], r, g);
      UnderOneMore(part[..last], r, IdsOf(menu), p);
      GrantedLast(Under(part[..last], IdsOf(menu), p), r, g);
      if r.id in g {
        assert r in menu by { assert menu[last] == r; }
        ParentNodeGranted(menu, g, r);
        UnderOneMore(Granted(part[..last], g), r, IdsOf(Granted(menu, g)), p);
      }
    }
  }

  /** On the nodes of g the forests agree, and g is closed upward. */
  ghost predicate AgreeUpward(f: Ids, f': Ids, g: set<int>) {
    forall x {:trigger x in g} | x in g && x in f :: x in f' && f'[x] == f[x] && (f[x].Some? ==> f[x].value in g)
  }

  lemma {:induction false} DepthAgrees(f: Ids, f': Ids, g: set<int>, x: int, d: nat)
    requires AgreeUpward(f, f', g) && x in g && AtDepth(f, x, d)
    ensures AtDepth(f', x, d)
    decreases d
  {
    if d != 0 {
      DepthAgrees(f, f', g, f[x].value, d - 1);
    }
  }

  lemma ForestsAgree(menu: seq<Row>, g: set<int>)
    requires DistinctIds(menu) && DistinctIds(Granted(menu, g)) && ClosedUpward(menu, g)
    ensures AgreeUpward(MenuForest(menu), MenuForest(Granted(menu, g)), g)
  {
    var f, f' := MenuForest(menu), MenuForest(Granted(menu, g));
    GrantedMembers(menu, g);
    forall x | x in g && x in f ensures x in f' && f'[x] == f[x] && (f[x].Some? ==> f[x].value in g) {
      var r :| r in menu && r.id == x;
      assert r in Granted(menu, g);
      ParentNodeGranted(menu, g, r);
    }
  }

  lemma DepthGranted(menu: seq<Row>, g: set<int>, r: Row, d: nat)
    requires DistinctIds(menu) && DistinctIds(Granted(menu, g)) && ClosedUpward(menu, g)
    requires r in menu && r.id in g && AtDepth(MenuForest(menu), r.id, d)
    ensures r in Granted(menu, g) && AtDepth(MenuForest(Granted(menu, g)), r.id, d)
  {
    GrantedMembers(menu, g);
    ForestsAgree(menu, g);
    DepthAgrees(MenuForest(menu), MenuForest(Granted(menu, g)), g, r.id, d);
  }

  /** Rows at depth d whose granted part is to be cut out. */
  ghost predicate Cuttable(menu: seq<Row>, g: set<int>, rs: seq<Row>, d: nat) {
    DistinctIds(menu) && DistinctIds(Granted(menu, g)) && ClosedUpward(menu, g) && AllAtDepth(menu, rs, d)
  }

  lemma CutFits(menu: seq<Row>, g: set<int>, rs: seq<Row>, d: nat)
    requires Cuttable(menu, g, rs, d)
    ensures AllAtDepth(Granted(menu, g), Granted(rs, g), d)
  {
    GrantedMembers(rs, g);
    forall r | r in Granted(rs, g)
      ensures r in Granted(menu, g) && AtDepth(MenuForest(Granted(menu, g)), r.id, d)
    {
      DepthGranted(menu, g, r, d);
    }
  }

  lemma CutLast(menu: seq<Row>, g: set<int>, rs: seq<Row>, d: nat)
    requires Cuttable(menu, g, rs, d) && rs != []
    ensures Cuttable(menu, g, rs[..|rs| - 1], d)
    ensures rs[|rs| - 1] in menu && AtDepth(MenuForest(menu), rs[|rs| - 1].id, d)
    ensures Cuttable(menu, g, Kids(menu, rs[|rs| - 1]), d + 1) && d < |MenuForest(menu)|
    ensures Kids(Granted(menu, g), rs[|rs| - 1]) == Granted(Kids(menu, rs[|rs| - 1]), g)
  {
    SplitLast(menu, rs, d);
    ChildrenOneDeeper(menu, rs[|rs| - 1], d);
    UnderGranted(menu, g, menu, Some(rs[|rs| - 1].id));
  }

  lemma {:induction false} TreesCommute(menu: seq<Row>, g: set<int>, rs: seq<Row>, d: nat)
    requires Cuttable(menu, g, rs, d) && AllAtDepth(Granted(menu, g), Granted(rs, g), d)
    ensures Trees(Granted(menu, g), Granted(rs, g), d) == Pruned(Trees(menu, rs, d), g)
    decreases |MenuForest(menu)| - d, |rs|
  {
    if rs != [] {
      var init, r := rs[..|rs| - 1], rs[|rs| - 1];
      CutLast(menu, g, rs, d);
      CutFits(menu, g, init, d);
      CutFits(menu, g, Kids(menu, r), d + 1);
      TreesCommute(menu, g, init, d);
      TreesCommute(menu, g, Kids(menu, r), d + 1);
      CommuteStep(menu, g, rs, d);
    }
  }

  lemma CommuteStep(menu: seq<Row>, g: set<int>, rs: seq<Row>, d: nat)
    requires Cuttable(menu, g, rs, d) && AllAtDepth(Granted(menu, g), Granted(rs, g), d) && rs != []
    requires AllAtDepth(menu, rs[..|rs| - 1], d) && AllAtDepth(Granted(menu, g), Granted(rs[..|rs| - 1], g), d)
    requires AllAtDepth(menu, Kids(menu, rs[|rs| - 1]), d + 1)
    requires AllAtDepth(Granted(menu, g), Granted(Kids(menu, rs[|rs| - 1]), g), d + 1)
    requires Kids(Granted(menu, g), rs[|rs| - 1]) == Granted(Kids(menu, rs[|rs| - 1]), g)
    requires Trees(Granted(menu, g), Granted(rs[..|rs| - 1], g), d) == Pruned(Trees(menu, rs[..|rs| - 1], d), g)
    requires Trees(Granted(menu, g), Granted(Kids(menu, rs[|rs| - 1]), g), d + 1)
             == Pruned(Trees(menu, Kids(menu, rs[|rs| - 1]), d + 1), g)
    ensures Trees(Granted(menu, g), Granted(rs, g), d) == Pruned(Trees(menu, rs, d), g)
  {
  }

  /**
   Building the tree of the granted rows gives the full tree cut down to the granted rows, when
   the grants are closed upward among the menu rows.
   */
  lemma FilterCommutes(rows: seq<Row>, g: set<int>)
    requires DistinctIds(rows) && ClosedUpward(MenuRows(rows), g)
    ensures DistinctIds(Granted(rows, g))
    ensures MenuTreeOf(Granted(rows, g)) == Pruned(MenuTreeOf(rows), g)
  {
    var menu := MenuRows(rows);
    MenuRowsDistinct(rows);
    GrantedDistinct(rows, g);
    GrantedDistinct(menu, g);
    GrantedMenuRows(rows, g);
    RootsAtDepthZero(menu);
    RootsAtDepthZero(Granted(menu, g));
    UnderGranted(menu, g, menu, None);
    CutFits(menu, g, Roots(menu), 0);
    TreesCommute(menu, g, Roots(menu), 0);
  }

  /** Whatever the grants, on acyclic rows a user sees no node and no button that the full tree lacks. */
  lemma FilterShowsNoMore(rows: seq<Row>, g: set<int>, v: MenuItem)
    requires DistinctIds(rows) && DistinctIds(Granted(rows, g)) && DistinctIds(MenuRows(rows))
    requires Acyclic(MenuForest(MenuRows(rows)))
    ensures v in Flatten(MenuTreeOf(Granted(rows, g))) ==> v in Flatten(MenuTreeOf(rows))
    ensures ButtonCodes(Granted(rows, g)) <= ButtonCodes(rows)
  {
    var menu := MenuRows(rows);
    GrantedMembers(rows, g);
    GrantedMembers(menu, g);
    GrantedMenuRows(rows, g);
    MenuRowsDistinct(Granted(rows, g));
    if v in Flatten(MenuTreeOf(Granted(rows, g))) {
      TreeItemsExact(Granted(rows, g), v);
      TreeItemsExact(rows, v);
      var r :| r in MenuRows(Granted(rows, g)) && v == ItemOf(r);
      assert r in menu;
      AcyclicReachesRoot(menu, r);
      assert v in multiset(Flatten(MenuTreeOf(rows)));
    }
  }

  /** The id appears in the tree of the granted rows. */
  ghost predicate Shown(rows: seq<Row>, g: set<int>, x: int)
    requires DistinctIds(rows)
  {
    GrantedDistinct(rows, g);
    Occurs(MenuTreeOf(Granted(rows, g)), x) > 0
  }

  /** The menu rows that reach no root are all their own parents. */
  ghost predicate OnlySelfLoops(menu: seq<Row>)
    requires DistinctIds(menu)
  {
    forall r {:trigger r in menu} | r in menu && !ReachesRoot(MenuForest(menu), r.id) ::
      ParentNode(IdsOf(menu), r) == Some(r.id)
  }

  lemma SelfLoopReachesNoRoot(f: Ids, x: int)
    requires x in f && f[x] == Some(x)
    ensures !ReachesRoot(f, x)
  {
    assert Up(f, x, 1) == Up(f, x, 0) == Some(x);
    assert OnCycle(f, x);
    forall d: nat ensures !AtDepth(f, x, d) {
      CycleNeverEnds(f, x, d + 1);
      UpStep(f, x, d);
    }
  }

  lemma ShownExactly(rows: seq<Row>, g: set<int>, x: int)
    requires DistinctIds(rows)
    ensures DistinctIds(Granted(MenuRows(rows), g))
    ensures Shown(rows, g, x) <==> ReachesRoot(MenuForest(Granted(MenuRows(rows), g)), x)
  {
    GrantedDistinct(rows, g);
    GrantedMenuRows(rows, g);
    MenuRowsDistinct(Granted(rows, g));
    TreeHoldsEachRowOnce(Granted(rows, g), x);
  }

  lemma RowOf(menu: seq<Row>, g: set<int>, x: int) returns (r: Row)
    requires DistinctIds(menu) && DistinctIds(Granted(menu, g)) && ReachesRoot(MenuForest(Granted(menu, g)), x)
    ensures r in menu && r in Granted(menu, g) && r.id == x
  {
    var f := MenuForest(Granted(menu, g));
    var d: nat :| AtDepth(f, x, d);
    assert x in f;
    r :| r in Granted(menu, g) && r.id == x;
    GrantedMembers(menu, g);
  }

  lemma SelfLoopGranted(menu: seq<Row>, g: set<int>, r: Row)
    requires DistinctIds(menu) && DistinctIds(Granted(menu, g)) && r in Granted(menu, g)
    requires ParentNode(IdsOf(menu), r) == Some(r.id)
    ensures !ReachesRoot(MenuForest(Granted(menu, g)), r.id)
  {
    assert r.id in IdsOf(Granted(menu, g));
    SelfLoopReachesNoRoot(MenuForest(Granted(menu, g)), r.id);
  }

  lemma GrantedAloneIsShown(rows: seq<Row>, r: Row)
    requires DistinctIds(rows) && DistinctIds(MenuRows(rows)) && r in MenuRows(rows)
    requires ParentNode(IdsOf(MenuRows(rows)), r) != Some(r.id)
    ensures Shown(rows, {r.id}, r.id)
  {
    var menu := MenuRows(rows);
    ShownExactly(rows, {r.id}, r.id);
    GrantedMembers(menu, {r.id});
    var alone := Granted(menu, {r.id});
    assert r in alone && IdsOf(alone) == {r.id};
    assert r.id in IdsOf(menu);
    assert MenuForest(alone)[r.id] == None;
    assert Up(MenuForest(alone), r.id, 0) == Some(r.id);
    assert AtDepth(MenuForest(alone), r.id, 0);
  }

  lemma ShownIsInTree(rows: seq<Row>, g: set<int>, x: int)
    requires DistinctIds(rows) && DistinctIds(MenuRows(rows)) && OnlySelfLoops(MenuRows(rows)) && Shown(rows, g, x)
    ensures Occurs(MenuTreeOf(rows), x) > 0
  {
    ShownExactly(rows, g, x);
    TreeHoldsEachRowOnce(rows, x);
    var r := RowOf(MenuRows(rows), g, x);
    if ParentNode(IdsOf(MenuRows(rows)), r) == Some(r.id) {
      SelfLoopGranted(MenuRows(rows), g, r);
    }
  }

  lemma ShownOutsideTree(rows: seq<Row>) returns (g: set<int>, x: int)
    requires DistinctIds(rows) && DistinctIds(MenuRows(rows)) && !OnlySelfLoops(MenuRows(rows))
    ensures Shown(rows, g, x) && Occurs(MenuTreeOf(rows), x) == 0
  {
    var menu := MenuRows(rows);
    var r :| r in menu && !ReachesRoot(MenuForest(menu), r.id) && ParentNode(IdsOf(menu), r) != Some(r.id);
    GrantedAloneIsShown(rows, r);
    TreeHoldsEachRowOnce(rows, r.id);
    g, x := {r.id}, r.id;
  }

  /**
   Exact: no selection of grants shows a row that the full tree lacks if and only if every row the
   full tree lacks is its own parent. On a longer cycle a granted row whose parent is not granted
   turns into a root.
   */
  lemma FilterShowsNoMoreExactly(rows: seq<Row>)
    requires DistinctIds(rows) && DistinctIds(MenuRows(rows))
    ensures (forall g, x | Shown(rows, g, x) :: Occurs(MenuTreeOf(rows), x) > 0) <==> OnlySelfLoops(MenuRows(rows))
  {
    if OnlySelfLoops(MenuRows(rows)) {
      forall g, x | Shown(rows, g, x) ensures Occurs(MenuTreeOf(rows), x) > 0 {
        ShownIsInTree(rows, g, x);
      }
    } else {
      var g, x := ShownOutsideTree(rows);
    }
  }

  /** A row that is its own parent and one below it: the second is no self loop, so granting it alone shows too much. */
  lemma RowBelowSelfLoop(a: Row, b: Row)
    requires a.id == 1 && a.parent == Some(1) && a.fields.kind == "M"
    requires b.id == 2 && b.parent == Some(1) && b.fields.kind == "M"
    ensures DistinctIds([a, b]) && DistinctIds(MenuRows([a, b])) && !OnlySelfLoops(MenuRows([a, b]))
    ensures Shown([a, b], {2}, 2) && Occurs(MenuTreeOf([a, b]), 2) == 0
  {
    var rows := [a, b];
    assert rows[..1] == [a] && [a][..0] == [];
    assert MenuRows([a]) == [a] && MenuRows(rows) == [a, b];
    var f := MenuForest([a, b]);
    assert a in [a, b] && b in [a, b];
    SelfLoopReachesNoRoot(f, 1);
    forall d: nat ensures !AtDepth(f, 2, d) {
      if 0 < d {
        assert !AtDepth(f, 1, d - 1);
      }
    }
    TreeHoldsEachRowOnce(rows, 2);
    GrantedAloneIsShown(rows, b);
  }

  // ---- What determines the tree

  ghost predicate AllIn(ts: seq<Tree>, g: set<int>) {
    forall v | v in Flatten(ts) :: v.id in g
  }

  lemma AllInLast(ts: seq<Tree>, g: set<int>)
    requires AllIn(ts, g) && ts != []
    ensures AllIn(ts[..|ts| - 1], g) && AllIn(ts[|ts| - 1].children, g) && ts[|ts| - 1].item.id in g
  {
    var last := ts[|ts| - 1];
    forall v | v in Flatten(ts[..|ts| - 1]) ensures v in Flatten(ts) {
    }
    forall v | v in Flatten(last.children) ensures v in Flatten(ts) {
    }
    assert last.item in Flatten(ts);
  }

  /** Cutting a tree down to a set that holds all its ids leaves it as it is. */
  lemma {:induction false} PrunedWhole(ts: seq<Tree>, g: set<int>)
    requires AllIn(ts, g)
    ensures Pruned(ts, g) == ts
    decreases ts
  {
    if ts != [] {
      var last := |ts| - 1;
      AllInLast(ts, g);
      PrunedWhole(ts[..last], g);
      PrunedWhole(ts[last].children, g);
      assert ts == ts[..last] + [Tree(ts[last].item, ts[last].children)];
    }
  }

  /** The ids of the menu rows that reach a root. */
  ghost function Reaching(menu: seq<Row>): set<int>
    requires DistinctIds(menu)
  {
    set id | id in MenuForest(menu) && ReachesRoot(MenuForest(menu), id)
  }

  lemma ReachingClosed(menu: seq<Row>)
    requires DistinctIds(menu)
    ensures ClosedUpward(menu, Reaching(menu))
  {
    var f := MenuForest(menu);
    forall r | r in menu && r.id in Reaching(menu) && ParentNode(IdsOf(menu), r).Some?
      ensures ParentNode(IdsOf(menu), r).value in Reaching(menu)
    {
      var d: nat :| AtDepth(f, r.id, d);
      assert f[r.id] == ParentNode(IdsOf(menu), r);
      assert AtDepth(f, f[r.id].value, d - 1);
    }
  }

  lemma TreeIdsReach(rows: seq<Row>, v: MenuItem)
    requires DistinctIds(rows) && DistinctIds(MenuRows(rows)) && v in Flatten(MenuTreeOf(rows))
    ensures v.id in Reaching(MenuRows(rows))
  {
    assert v in multiset(Flatten(MenuTreeOf(rows)));
    TreeItemsExact(rows, v);
    var d: nat :| AtDepth(MenuForest(MenuRows(rows)), v.id, d);
  }

  /** Rows that reach no root do not matter: without them the tree is the same. */
  lemma TreeOfReaching(rows: seq<Row>)
    requires DistinctIds(rows) && DistinctIds(MenuRows(rows))
    ensures DistinctIds(Granted(rows, Reaching(MenuRows(rows))))
    ensures MenuTreeOf(Granted(rows, Reaching(MenuRows(rows)))) == MenuTreeOf(rows)
  {
    var g := Reaching(MenuRows(rows));
    ReachingClosed(MenuRows(rows));
    FilterCommutes(rows, g);
    forall v | v in Flatten(MenuTreeOf(rows)) ensures v.id in g {
      TreeIdsReach(rows, v);
    }
    PrunedWhole(MenuTreeOf(rows), g);
  }

  /** The rows show the same items, position by position. */
  ghost predicate SameItems(xs: seq<Row>, ys: seq<Row>) {
    |xs| == |ys| && forall i | 0 <= i < |xs| :: ItemOf(xs[i]) == ItemOf(ys[i])
  }

  lemma SameItemsLast(xs: seq<Row>, ys: seq<Row>)
    requires SameItems(xs, ys) && xs != []
    ensures ItemOf(xs[|xs| - 1]) == ItemOf(ys[|ys| - 1]) && SameItems(xs[..|xs| - 1], ys[..|ys| - 1])
  {
  }

  lemma SameItemsAppend(xs: seq<Row>, ys: seq<Row>, x: Row, y: Row)
    requires SameItems(xs, ys) && ItemOf(x) == ItemOf(y)
    ensures SameItems(xs + [x], ys + [y])
  {
  }

  lemma SameItemsIds(xs: seq<Row>, ys: seq<Row>)
    requires SameItems(xs, ys)
    ensures IdsOf(xs) == IdsOf(ys)
  {
    forall id ensures id in IdsOf(xs) <==> id in IdsOf(ys) {
      if r :| r in xs && r.id == id {
        var i :| 0 <= i < |xs| && xs[i] == r;
        assert ItemOf(xs[i]) == ItemOf(ys[i]) && ys[i] in ys;
      }
      if r :| r in ys && r.id == id {
        var i :| 0 <= i < |ys| && ys[i] == r;
        assert ItemOf(xs[i]) == ItemOf(ys[i]) && xs[i] in xs;
      }
    }
  }

  lemma SameParentNode(ids: set<int>, x: Row, y: Row)
    requires ItemOf(x) == ItemOf(y)
    ensures ParentNode(ids, x) == ParentNode(ids, y) && x.id == y.id
  {
    assert ItemOf(x).parent == ItemOf(y).parent;
  }

  lemma {:induction false} SameUnder(xs: seq<Row>, ys: seq<Row>, ids: set<int>, p: Option<int>)
    requires SameItems(xs, ys)
    ensures SameItems(Under(xs, ids, p), Under(ys, ids, p))
  {
    if xs != [] {
      var last := |xs| - 1;
      SameItemsLast(xs, ys);
      SameUnder(xs[..last], ys[..last], ids, p);
      SameParentNode(ids, xs[last], ys[last]);
      SameItemsAppend(Under(xs[..last], ids, p), Under(ys[..last], ids, p), xs[last], ys[last]);
    }
  }

  /** rs and rs' are rows at depth d of two menus that show the same items. */
  ghost predicate Paired(xs: seq<Row>, ys: seq<Row>, rs: seq<Row>, rs': seq<Row>, d: nat) {
    && DistinctIds(xs) && DistinctIds(ys) && SameItems(xs, ys) && SameItems(rs, rs')
    && AllAtDepth(xs, rs, d) && AllAtDepth(ys, rs', d)
  }

  lemma PairedInit(xs: seq<Row>, ys: seq<Row>, rs: seq<Row>, rs': seq<Row>, d: nat)
    requires Paired(xs, ys, rs, rs', d) && rs != []
    ensures Paired(xs, ys, rs[..|rs| - 1], rs'[..|rs'| - 1], d)
    ensures var x, y := rs[|rs| - 1], rs'[|rs'| - 1];
            && x in xs && AtDepth(MenuForest(xs), x.id, d)
            && y in ys && AtDepth(MenuForest(ys), y.id, d) && ItemOf(x) == ItemOf(y)
  {
    SplitLast(xs, rs, d);
    SplitLast(ys, rs', d);
    SameItemsLast(rs, rs');
  }

  lemma PairedKids(xs: seq<Row>, ys: seq<Row>, x: Row, y: Row, d: nat)
    requires DistinctIds(xs) && DistinctIds(ys) && SameItems(xs, ys) && ItemOf(x) == ItemOf(y)
    requires x in xs && AtDepth(MenuForest(xs), x.id, d)
    requires y in ys && AtDepth(MenuForest(ys), y.id, d)
    ensures d < |MenuForest(xs)| && Paired(xs, ys, Kids(xs, x), Kids(ys, y), d + 1)
  {
    ChildrenOneDeeper(xs, x, d);
    ChildrenOneDeeper(ys, y, d);
    SameItemsIds(xs, ys);
    SameParentNode({}, x, y);
    SameUnder(xs, ys, IdsOf(xs), Some(x.id));
  }

  lemma PairedLast(xs: seq<Row>, ys: seq<Row>, rs: seq<Row>, rs': seq<Row>, d: nat)
    requires Paired(xs, ys, rs, rs', d) && rs != []
    ensures Paired(xs, ys, rs[..|rs| - 1], rs'[..|rs'| - 1], d)
    ensures var x, y := rs[|rs| - 1], rs'[|rs'| - 1];
            && x in xs && AtDepth(MenuForest(xs), x.id, d) && d < |MenuForest(xs)|
            && y in ys && AtDepth(MenuForest(ys), y.id, d)
            && ItemOf(x) == ItemOf(y) && Paired(xs, ys, Kids(xs, x), Kids(ys, y), d + 1)
  {
    PairedInit(xs, ys, rs, rs', d);
    PairedKids(xs, ys, rs[|rs| - 1], rs'[|rs'| - 1], d);
  }

  lemma {:induction false} SameTrees(xs: seq<Row>, ys: seq<Row>, rs: seq<Row>, rs': seq<Row>, d: nat)
    requires Paired(xs, ys, rs, rs', d)
    ensures Trees(xs, rs, d) == Trees(ys, rs', d)
    decreases |MenuForest(xs)| - d, |rs|
  {
    if rs != [] {
      var x, y := rs[|rs| - 1], rs'[|rs'| - 1];
      PairedLast(xs, ys, rs, rs', d);
      SameTrees(xs, ys, rs[..|rs| - 1], rs'[..|rs'| - 1], d);
      SameTrees(xs, ys, Kids(xs, x), Kids(ys, y), d + 1);
      assert TreeOf(xs, x, d) == TreeOf(ys, y, d);
    }
  }

  /** Rows whose menu rows show the same items in the same order give the same tree. */
  lemma SameItemsSameTree(rows: seq<Row>, rows': seq<Row>)
    requires DistinctIds(rows) && DistinctIds(rows') && SameItems(MenuRows(rows), MenuRows(rows'))
    ensures MenuTreeOf(rows) == MenuTreeOf(rows')
  {
    var xs, ys := MenuRows(rows), MenuRows(rows');
    MenuRowsDistinct(rows);
    MenuRowsDistinct(rows');
    RootsAtDepthZero(xs);
    RootsAtDepthZero(ys);
    SameItemsIds(xs, ys);
    SameUnder(xs, ys, IdsOf(xs), None);
    SameTrees(xs, ys, Roots(xs), Roots(ys), 0);
  }

  // ---- Nesting, read off the parents

  /** Below a menu row hang exactly the menu rows that name it as parent; an id of 0 never counts as a parent. */
  lemma KidsExactly(menu: seq<Row>, q: Row, r: Row)
    requires q in menu && r in menu
    ensures r in Kids(menu, q) <==> r.parent == Some(q.id) && q.id != 0
  {
    UnderMembers(menu, IdsOf(menu), Some(q.id));
    assert q.id in IdsOf(menu);
  }

  /** At the top stand exactly the menu rows without a parent among the menu rows. */
  lemma RootsExactly(menu: seq<Row>, r: Row)
    requires r in menu
    ensures r in Roots(menu) <==>
            r.parent.None? || r.parent.value == 0 || forall p | p in menu :: p.id != r.parent.value
  {
    UnderMembers(menu, IdsOf(menu), None);
    if r.parent.Some? && r.parent.value in IdsOf(menu) {
      var p :| p in menu && p.id == r.parent.value;
    }
  }

  /** Column by column, the item that a row becomes, and which rows are nodes and which are buttons. */
  lemma ItemColumns(r: Row)
    ensures var v, f := ItemOf(r), r.fields;
            && v.id == r.id && v.parent == r.parent && v.name == f.name && v.path == f.path && v.component == f.component
            && v.isExt == f.isExt && v.extUrl == f.extUrl
            && v.title == f.name && v.icon == f.icon && v.order == f.sort && v.kind == f.kind && v.keepAlive
    ensures IsMenu(r) <==> r.fields.kind in ["M", "C", "L"]
    ensures IsButton(r) <==> r.fields.kind == "F" && r.code != ""
  {
    assert ["M", "C", "L"][0] == "M" && ["M", "C", "L"][1] == "C" && ["M", "C", "L"][2] == "L";
  }

  ghost predicate ItemAmong(menu: seq<Row>, v: MenuItem) {
    exists r {:trigger ItemOf(r)} :: r in menu && ItemOf(r) == v
  }

  ghost predicate Tops(ts: seq<Tree>, v: MenuItem) {
    exists i :: 0 <= i < |ts| && ts[i].item == v
  }

  /** The trees stand for the rows, position by position. */
  ghost predicate StandsFor(ts: seq<Tree>, rs: seq<Row>) {
    |ts| == |rs| && forall i | 0 <= i < |rs| :: ts[i].item == ItemOf(rs[i])
  }

  lemma StandsForAppend(ts: seq<Tree>, rs: seq<Row>, t: Tree, r: Row)
    requires StandsFor(ts, rs) && t.item == ItemOf(r)
    ensures StandsFor(ts + [t], rs + [r])
  {
  }

  lemma LastTree(menu: seq<Row>, rs: seq<Row>, d: nat)
    requires DistinctIds(menu) && AllAtDepth(menu, rs, d) && rs != [] && AllAtDepth(menu, rs[..|rs| - 1], d)
    requires rs[|rs| - 1] in menu && AtDepth(MenuForest(menu), rs[|rs| - 1].id, d)
    ensures var last := |rs| - 1;
            && rs == rs[..last] + [rs[last]]
            && Trees(menu, rs, d) == Trees(menu, rs[..last], d) + [TreeOf(menu, rs[last], d)]
            && TreeOf(menu, rs[last], d).item == ItemOf(rs[last])
  {
  }

  lemma {:induction false} TreesTops(menu: seq<Row>, rs: seq<Row>, d: nat)
    requires DistinctIds(menu) && AllAtDepth(menu, rs, d)
    ensures StandsFor(Trees(menu, rs, d), rs)
    decreases |rs|
  {
    if rs != [] {
      var last := |rs| - 1;
      SplitLast(menu, rs, d);
      TreesTops(menu, rs[..last], d);
      LastTree(menu, rs, d);
      StandsForAppend(Trees(menu, rs[..last], d), rs[..last], TreeOf(menu, rs[last], d), rs[last]);
    }
  }

  lemma TopsAreRows(menu: seq<Row>, rs: seq<Row>, d: nat, v: MenuItem)
    requires DistinctIds(menu) && AllAtDepth(menu, rs, d)
    ensures Tops(Trees(menu, rs, d), v) <==> ItemAmong(rs, v)
  {
    TreesTops(menu, rs, d);
    StandingTops(Trees(menu, rs, d), rs, v);
  }

  lemma StandingTops(ts: seq<Tree>, rs: seq<Row>, v: MenuItem)
    requires StandsFor(ts, rs)
    ensures Tops(ts, v) <==> ItemAmong(rs, v)
  {
    if r :| r in rs && ItemOf(r) == v {
      var i :| 0 <= i < |rs| && rs[i] == r;
      assert ts[i].item == v;
    }
    if i :| 0 <= i < |ts| && ts[i].item == v {
      assert rs[i] in rs && ItemOf(rs[i]) == v;
    }
  }

  /** t is one of the trees or lies somewhere inside one of them. */
  ghost predicate Within(t: Tree, ts: seq<Tree>)
    decreases ts
  {
    ts != [] && var last := |ts| - 1; t == ts[last] || Within(t, ts[last].children) || Within(t, ts[..last])
  }

  lemma WithinLast(ts: seq<Tree>, top: Tree, t: Tree)
    requires Within(t, ts + [top])
    ensures t == top || Within(t, top.children) || Within(t, ts)
  {
    assert (ts + [top])[..|ts|] == ts;
  }

  lemma LastOfTrees(menu: seq<Row>, rs: seq<Row>, d: nat, t: Tree)
    requires DistinctIds(menu) && AllAtDepth(menu, rs, d) && rs != [] && Within(t, Trees(menu, rs, d))
    ensures var r := rs[|rs| - 1];
            && AllAtDepth(menu, rs[..|rs| - 1], d)
            && r in menu && AtDepth(MenuForest(menu), r.id, d) && d < |MenuForest(menu)|
            && AllAtDepth(menu, Kids(menu, r), d + 1)
            && (t == Tree(ItemOf(r), Trees(menu, Kids(menu, r), d + 1)) || Within(t, Trees(menu, Kids(menu, r), d + 1)) || Within(t, Trees(menu, rs[..|rs| - 1], d)))
  {
    var r := rs[|rs| - 1];
    SplitLast(menu, rs, d);
    ChildrenOneDeeper(menu, r, d);
    WithinLast(Trees(menu, rs[..|rs| - 1], d), TreeOf(menu, r, d), t);
  }

  /** Whatever lies inside the trees of a menu is the tree of one of its rows. */
  lemma {:induction false} WithinIsTreeOf(menu: seq<Row>, rs: seq<Row>, d: nat, t: Tree) returns (r: Row, k: nat)
    requires DistinctIds(menu) && AllAtDepth(menu, rs, d) && Within(t, Trees(menu, rs, d))
    ensures r in menu && AllAtDepth(menu, Kids(menu, r), k) && t == Tree(ItemOf(r), Trees(menu, Kids(menu, r), k))
    decreases |MenuForest(menu)| - d, |rs|
  {
    r, k := rs[|rs| - 1], d + 1;
    LastOfTrees(menu, rs, d, t);
    if t != Tree(ItemOf(r), Trees(menu, Kids(menu, r), d + 1)) {
      if Within(t, Trees(menu, Kids(menu, r), d + 1)) {
        r, k := WithinIsTreeOf(menu, Kids(menu, r), d + 1, t);
      } else {
        r, k := WithinIsTreeOf(menu, rs[..|rs| - 1], d, t);
      }
    }
  }

  lemma KidItems(menu: seq<Row>, q: Row, v: MenuItem)
    requires q in menu
    ensures ItemAmong(Kids(menu, q), v) <==> v.parent == Some(q.id) && q.id != 0 && ItemAmong(menu, v)
  {
    UnderMembers(menu, IdsOf(menu), Some(q.id));
    if r :| r in menu && ItemOf(r) == v {
      KidsExactly(menu, q, r);
    }
    if r :| r in Kids(menu, q) && ItemOf(r) == v {
      KidsExactly(menu, q, r);
    }
  }

  /** Anywhere in a menu tree, the children of a node are exactly the items whose parent is the node's id. */
  lemma ChildrenExactly(rows: seq<Row>, t: Tree, v: MenuItem)
    requires DistinctIds(rows) && Within(t, MenuTreeOf(rows))
    ensures Tops(t.children, v) <==> v.parent == Some(t.item.id) && t.item.id != 0 && ItemAmong(MenuRows(rows), v)
  {
    var menu := MenuRows(rows);
    MenuRowsDistinct(rows);
    RootsAtDepthZero(menu);
    var q, k := WithinIsTreeOf(menu, Roots(menu), 0, t);
    KidTops(menu, q, k, v);
  }

  lemma KidTops(menu: seq<Row>, q: Row, d: nat, v: MenuItem)
    requires DistinctIds(menu) && q in menu && AllAtDepth(menu, Kids(menu, q), d)
    ensures Tops(Trees(menu, Kids(menu, q), d), v) <==> v.parent == Some(q.id) && q.id != 0 && ItemAmong(menu, v)
  {
    TopsAreRows(menu, Kids(menu, q), d, v);
    KidItems(menu, q, v);
  }

  /** At the top of a menu tree stand exactly the items without a parent among the menu rows. */
  lemma TopExactly(rows: seq<Row>, v: MenuItem)
    requires DistinctIds(rows)
    ensures Tops(MenuTreeOf(rows), v) <==>
            && ItemAmong(MenuRows(rows), v)
            && (v.parent.None? || v.parent.value == 0 || forall p | p in MenuRows(rows) :: p.id != v.parent.value)
  {
    var menu := MenuRows(rows);
    MenuRowsDistinct(rows);
    RootsAtDepthZero(menu);
    TopsAreRows(menu, Roots(menu), 0, v);
    UnderMembers(menu, IdsOf(menu), None);
    if r :| r in menu && ItemOf(r) == v {
      RootsExactly(menu, r);
    }
    if r :| r in Roots(menu) && ItemOf(r) == v {
      RootsExactly(menu, r);
    }
  }

  lemma SortedAppend(rows: seq<Row>, r: Row)
    requires Sorted(rows) && forall q | q in rows :: q.fields.sort <= r.fields.sort
    ensures Sorted(rows + [r])
  {
  }

  lemma SortedLast(rows: seq<Row>)
    requires Sorted(rows) && rows != []
    ensures Sorted(rows[..|rows| - 1])
    ensures forall q | q in rows[..|rows| - 1] :: q.fields.sort <= rows[|rows| - 1].fields.sort
  {
  }

  /** Siblings keep the order of the input: sorted rows have sorted children. */
  lemma {:induction false} UnderSorted(menu: seq<Row>, ids: set<int>, p: Option<int>)
    requires Sorted(menu)
    ensures Sorted(Under(menu, ids, p))
  {
    if menu != [] {
      var last := |menu| - 1;
      SortedLast(menu);
      UnderSorted(menu[..last], ids, p);
      UnderMembers(menu[..last], ids, p);
      SortedAppend(Under(menu[..last], ids, p), menu[last]);
    }
  }

  lemma AmongNodes(nodes: map<int, Node>, ns: seq<Node>, rs: seq<Row>, menu: seq<Row>, r: Row)
    requires Pool(nodes, menu) && Names(nodes, ns, rs) && r in menu && (forall q | q in rs :: q in menu) && DistinctIds(menu)
    ensures r.id in nodes && (nodes[r.id] in ns <==> r in rs)
  {
    if r in rs {
      var i :| 0 <= i < |rs| && rs[i] == r;
      assert ns[i] == nodes[r.id];
    }
    if nodes[r.id] in ns {
      var i :| 0 <= i < |ns| && ns[i] == nodes[r.id];
      assert rs[i] in rs && rs[i].id == r.id;
      SameRow(menu, rs[i], r);
    }
  }

  /** After both passes a row's node is among another's children exactly if the row names that row as parent. */
  lemma NestedNodes(rows: seq<Row>, nodes: map<int, Node>, roots: seq<Node>, q: Row, r: Row)
    requires DistinctIds(rows) && Pool(nodes, MenuRows(rows)) && Attached(nodes, MenuRows(rows), roots)
    requires q in MenuRows(rows) && r in MenuRows(rows)
    ensures q.id in nodes && r.id in nodes
    ensures nodes[r.id] in nodes[q.id].children <==> r.parent == Some(q.id) && q.id != 0
    ensures nodes[r.id] in roots <==>
            r.parent.None? || r.parent.value == 0 || forall p | p in MenuRows(rows) :: p.id != r.parent.value
  {
    var menu := MenuRows(rows);
    MenuRowsDistinct(rows);
    LinkedAfterPasses(nodes, menu, roots);
    UnderMembers(menu, IdsOf(menu), Some(q.id));
    UnderMembers(menu, IdsOf(menu), None);
    AmongNodes(nodes, LinksOf(nodes)[nodes[q.id]], Kids(menu, q), menu, r);
    AmongNodes(nodes, roots, Roots(menu), menu, r);
    KidsExactly(menu, q, r);
    RootsExactly(menu, r);
  }

  ghost predicate OrderedTops(ts: seq<Tree>) {
    forall i, j :: 0 <= i < j < |ts| ==> ts[i].item.order <= ts[j].item.order
  }

  lemma StandingOrdered(ts: seq<Tree>, rs: seq<Row>)
    requires StandsFor(ts, rs) && Sorted(rs)
    ensures OrderedTops(ts)
  {
    forall i | 0 <= i < |ts| ensures ts[i].item.order == rs[i].fields.sort {
      assert ts[i].item == ItemOf(rs[i]);
    }
  }

  lemma {:induction false} MenuRowsSorted(rows: seq<Row>)
    requires Sorted(rows)
    ensures Sorted(MenuRows(rows))
  {
    if rows != [] {
      var last := |rows| - 1;
      SortedLast(rows);
      MenuRowsSorted(rows[..last]);
      MenuRowsMembers(rows[..last]);
      SortedAppend(MenuRows(rows[..last]), rows[last]);
    }
  }

  /** Sorted rows give sorted siblings everywhere in the tree. */
  lemma TreeSorted(rows: seq<Row>, t: Tree)
    requires DistinctIds(rows) && Sorted(rows)
    ensures OrderedTops(MenuTreeOf(rows))
    ensures Within(t, MenuTreeOf(rows)) ==> OrderedTops(t.children)
  {
    var menu := MenuRows(rows);
    MenuRowsDistinct(rows);
    MenuRowsSorted(rows);
    RootsAtDepthZero(menu);
    LevelOrdered(menu, None, Roots(menu), 0);
    if Within(t, MenuTreeOf(rows)) {
      var q, k := WithinIsTreeOf(menu, Roots(menu), 0, t);
      LevelOrdered(menu, Some(q.id), Kids(menu, q), k);
    }
  }

  lemma LevelOrdered(menu: seq<Row>, p: Option<int>, rs: seq<Row>, d: nat)
    requires DistinctIds(menu) && Sorted(menu) && AllAtDepth(menu, rs, d) && rs == Under(menu, IdsOf(menu), p)
    ensures OrderedTops(Trees(menu, rs, d))
  {
    UnderSorted(menu, IdsOf(menu), p);
    TreesTops(menu, rs, d);
    StandingOrdered(Trees(menu, rs, d), rs);
  }
}
