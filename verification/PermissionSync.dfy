/**
 The full permission sync of one app: insert what is new, overwrite what is common, take what is
 no longer reported offline together with everything below it.
 */
module PermissionSync {
  import opened Prelude
  import opened Forest
  import opened RecursiveQueries
  import opened Manifest
  import opened Permissions

  type Items = map<string, Item>
  type Index = map<string, int>

  datatype SyncError = MissingParent(code: string) | Database(error: DbError)
  datatype SyncResult = SyncResult(created: nat, updated: nat, pruned: nat, same: nat)

  // ---- What a sync is meant to do

  function AppCodes(t: Table, app: string): set<string> {
    set id | id in t && t[id].app == app :: t[id].code
  }

  /** code_to_id, as read from the table. */
  function IndexOf(t: Table, app: string): (index: Index)
    requires UniqueCodes(t)
    ensures forall id | id in t && t[id].app == app :: t[id].code in index && index[t[id].code] == id
    ensures forall c | c in index :: index[c] in t && t[index[c]].app == app && t[index[c]].code == c
    ensures index.Keys == AppCodes(t, app)
  {
    map id | id in t && t[id].app == app :: t[id].code := id
  }

  /** The parent relation among the reported codes that the app does not have yet. */
  ghost function FreshForest(t: Table, app: string, m: Items): Parents<string> {
    map c | c in m && c !in AppCodes(t, app) :: m[c].parentCode
  }

  ghost predicate ReachedBefore(t: Table, app: string, m: Items, c: string, n: nat) {
    exists k: nat :: k < n && AtDepth(FreshForest(t, app, m), c, k)
  }

  /** A new code whose parent chain runs through new codes only and ends in a root item. */
  ghost predicate Reached(t: Table, app: string, m: Items, c: string) {
    exists k: nat :: AtDepth(FreshForest(t, app, m), c, k)
  }

  ghost predicate Dropped(t: Table, app: string, m: Items, id: int) {
    id in t && t[id].app == app && t[id].code !in m
  }

  /** A row of the app that is no longer reported, or any row below one. */
  ghost predicate Pruned(t: Table, app: string, m: Items, id: int) {
    exists a :: Dropped(t, app, m, a) && Above(ParentsOf(t), a, id)
  }

  predicate Common(t: Table, app: string, m: Items, id: int) {
    id in t && t[id].app == app && t[id].code in m
  }

  predicate NeedsUpdate(t: Table, app: string, m: Items, id: int) {
    Common(t, app, m, id) && (t[id].fields != m[t[id].code].fields || !t[id].active)
  }

  function Refreshed(t: Table, app: string, m: Items, now: int, id: int): Row
    requires id in t
  {
    if Common(t, app, m, id) then t[id].(fields := m[t[id].code].fields, active := true, synced := Some(now))
    else t[id]
  }

  /** What becomes of a row that was stored before the sync. */
  ghost function Settled(t: Table, app: string, m: Items, now: int, later: int, id: int): Row
    requires id in t
  {
    var r := Refreshed(t, app, m, now, id);
    if Pruned(t, app, m, id) then r.(active := false, synced := Some(later)) else r
  }

  predicate NoParent(parentCode: Option<string>) {
    parentCode.None? || parentCode.value == ""
  }

  predicate ParentKnown(index: Index, it: Item) {
    NoParent(it.parentCode) || it.parentCode.value in index
  }

  /** The row that an item becomes when its parent's id is looked up in the index. */
  function Draft(app: string, it: Item, index: Index, now: int, id: int): Row
    requires ParentKnown(index, it)
  {
    var parent := if NoParent(it.parentCode) then None else Some(index[it.parentCode.value]);
    Row(id, app, it.code, parent, it.fields, true, Some(now))
  }

  /** `ids` numbers the added rows by code: each carries its manifest fields and hangs below another added row. */
  ghost predicate AddedRows(t: Table, t': Table, app: string, m: Items, now: int, ids: Index) {
    && (forall c | c in ids :: c in m && m[c].code == c && ParentKnown(ids, m[c]))
    && (forall c | c in ids :: ids[c] in t' && ids[c] !in t && t'[ids[c]] == Draft(app, m[c], ids, now, ids[c]))
    && (forall id | id in t' && id !in t :: t'[id].code in ids && ids[t'[id].code] == id)
  }

  /** The table after a successful sync: every old row settled, one new row for each reached code, nothing else. */
  ghost predicate SyncedBy(t: Table, app: string, m: Items, now: int, later: int, ids: Index, t': Table) {
    && Consistent(t')
    && (forall id | id in t :: id in t' && t'[id] == Settled(t, app, m, now, later, id))
    && AddedRows(t, t', app, m, now, ids)
    && (forall c :: c in ids <==> Reached(t, app, m, c))
  }

  /** Another app already uses a code that this sync has to insert. */
  ghost predicate Blocked(t: Table, app: string, m: Items) {
    exists id :: id in t && Reached(t, app, m, t[id].code)
  }

  // ---- Phase one: insert, layer by layer

  /** The table after the layers above depth n have been inserted under the given ids. */
  ghost predicate Grown(t: Table, t': Table, app: string, m: Items, now: int, ids: Index, n: nat) {
    && Keeps(t, t')
    && AddedRows(t, t', app, m, now, ids)
    && NumbersLayers(t, app, m, ids, n)
  }

  ghost predicate NumbersLayers(t: Table, app: string, m: Items, ids: Index, n: nat) {
    forall c :: c in ids <==> ReachedBefore(t, app, m, c, n)
  }

  ghost predicate Drafts(layer: seq<Item>, app: string, index: Index, now: int, drafts: seq<Row>) {
    && |drafts| == |layer|
    && forall i | 0 <= i < |layer| :: ParentKnown(index, layer[i]) && drafts[i] == Draft(app, layer[i], index, now, 0)
  }

  method DraftLayer(app: string, layer: seq<Item>, index: Index, now: int) returns (res: Result<seq<Row>, SyncError>)
    ensures res.Ok? <==> forall it | it in layer :: ParentKnown(index, it)
    ensures res.Ok? ==> Drafts(layer, app, index, now, res.value)
  {
    var drafts := [];
    for i := 0 to |layer|
      invariant Drafts(layer[..i], app, index, now, drafts)
      invariant forall it | it in layer[..i] :: ParentKnown(index, it)
    {
      if !ParentKnown(index, layer[i]) {
        return Err(MissingParent(layer[i].code));
      }
      drafts := drafts + [Draft(app, layer[i], index, now, 0)];
    }
    assert layer[..|layer|] == layer;
    res := Ok(drafts);
  }

  function Filed(before: Index, created: seq<Row>): Index {
    if created == [] then before
    else
      var last := |created| - 1;
      Filed(before, created[..last])[created[last].code := created[last].id]
  }

  method IndexCreated(created: seq<Row>, before: Index) returns (index: Index)
    ensures index == Filed(before, created)
  {
    index := before;
    for i := 0 to |created|
      invariant index == Filed(before, created[..i])
    {
      assert created[..i + 1][..i] == created[..i];
      index := index[created[i].code := created[i].id];
    }
    assert created[..|created|] == created;
  }

  /** The items at depth k among the new codes, each once. */
  ghost predicate LayerFor(t: Table, app: string, m: Items, layer: seq<Item>, k: nat) {
    && DistinctCodes(layer)
    && (forall it | it in layer :: it.code in m && m[it.code] == it && AtDepth(FreshForest(t, app, m), it.code, k))
    && (forall c | AtDepth(FreshForest(t, app, m), c, k) :: c in m && m[c] in layer && m[c].code == c)
  }

  /** Items whose parents are numbered already and which are not numbered themselves. */
  ghost predicate Ready(m: Items, ids: Index, layer: seq<Item>) {
    && DistinctCodes(layer)
    && forall it | it in layer :: it.code in m && m[it.code] == it && it.code !in ids && ParentKnown(ids, it)
  }

  ghost predicate CreatedFrom(created: seq<Row>, layer: seq<Item>, app: string, ids: Index, now: int, first: int) {
    && |created| == |layer|
    && forall i | 0 <= i < |layer| ::
         ParentKnown(ids, layer[i]) && created[i] == Draft(app, layer[i], ids, now, first + i)
  }

  /** Adding one row under a new number. */
  lemma RowAdded(t: Table, t1: Table, app: string, m: Items, now: int, ids: Index, it: Item, r: Row)
    requires Keeps(t, t1) && AddedRows(t, t1, app, m, now, ids)
    requires it.code in m && m[it.code] == it && it.code !in ids && ParentKnown(ids, it)
    requires r.id !in t1 && r == Draft(app, it, ids, now, r.id)
    ensures Keeps(t, t1[r.id := r]) && AddedRows(t, t1[r.id := r], app, m, now, ids[it.code := r.id])
  {
  }

  ghost predicate SameCodes(created: seq<Row>, layer: seq<Item>) {
    |created| == |layer| && forall i | 0 <= i < |layer| :: created[i].code == layer[i].code
  }

  /** The index after filing a layer numbers its codes too, and what it numbered before stays. */
  lemma {:induction false} FiledKeys(ids: Index, layer: seq<Item>, created: seq<Row>, c: string)
    requires SameCodes(created, layer)
    ensures c in Filed(ids, created) <==> c in ids || exists it :: it in layer && it.code == c
    ensures c in ids && (forall it | it in layer :: it.code != c) ==> Filed(ids, created)[c] == ids[c]
  {
    if created != [] {
      var last := |created| - 1;
      FiledKeys(ids, layer[..last], created[..last], c);
      assert layer == layer[..last] + [layer[last]];
    }
  }

  lemma {:induction false} FiledSize(ids: Index, layer: seq<Item>, created: seq<Row>)
    requires SameCodes(created, layer) && DistinctCodes(layer)
    requires forall it | it in layer :: it.code !in ids
    ensures |Filed(ids, created)| == |ids| + |layer|
  {
    if created != [] {
      var last := |created| - 1;
      FiledSize(ids, layer[..last], created[..last]);
      FiledKeys(ids, layer[..last], created[..last], layer[last].code);
    }
  }

  lemma {:induction false} FiledOver(old_: Index, ids: Index, created: seq<Row>)
    ensures Filed(old_ + ids, created) == old_ + Filed(ids, created)
  {
    if created != [] {
      FiledOver(old_, ids, created[..|created| - 1]);
    }
  }

  lemma {:induction false} RowsAdded(t: Table, t1: Table, app: string, m: Items, now: int, ids: Index,
                                     layer: seq<Item>, first: int, created: seq<Row>)
    requires Keeps(t, t1) && AddedRows(t, t1, app, m, now, ids) && Numbered(t1, first)
    requires Ready(m, ids, layer) && CreatedFrom(created, layer, app, ids, now, first)
    ensures Keeps(t, StoreAll(t1, created)) && AddedRows(t, StoreAll(t1, created), app, m, now, Filed(ids, created))
  {
    if created != [] {
      var last := |created| - 1;
      var it, r := layer[last], created[last];
      var before, made := layer[..last], created[..last];
      assert it in layer;
      RowsAdded(t, t1, app, m, now, ids, before, first, made);
      StoredNumbers(t1, first, made);
      FiledKeys(ids, before, made, it.code);
      ParentStaysKnown(ids, m, layer, before, made, it);
      RowAdded(t, StoreAll(t1, made), app, m, now, Filed(ids, made), it, r);
    }
  }

  lemma ParentStaysKnown(ids: Index, m: Items, layer: seq<Item>, before: seq<Item>, made: seq<Row>, it: Item)
    requires Ready(m, ids, layer) && before <= layer && SameCodes(made, before) && it in layer
    ensures ParentKnown(Filed(ids, made), it)
    ensures !NoParent(it.parentCode) ==> Filed(ids, made)[it.parentCode.value] == ids[it.parentCode.value]
  {
    if !NoParent(it.parentCode) {
      FiledKeys(ids, before, made, it.parentCode.value);
      forall b | b in before ensures b.code != it.parentCode.value {
        assert b in layer;
      }
    }
  }

  /** The parent of an item at depth k was numbered one layer earlier, so the missing-parent error cannot occur. */
  lemma LayerReady(t: Table, app: string, m: Items, ids: Index, k: nat, layer: seq<Item>)
    requires NumbersLayers(t, app, m, ids, k) && LayerFor(t, app, m, layer, k)
    ensures Ready(m, ids, layer)
  {
    var f := FreshForest(t, app, m);
    forall it | it in layer ensures it.code !in ids && ParentKnown(ids, it) {
      if it.code in ids {
        var j: nat :| j < k && AtDepth(f, it.code, j);
        DepthUnique(f, it.code, j, k);
        assert false;
      }
      if !NoParent(it.parentCode) {
        var p := it.parentCode.value;
        assert AtDepth(f, p, k - 1);
        assert ReachedBefore(t, app, m, p, k);
      }
    }
  }

  lemma NextLayerNumbered(t: Table, app: string, m: Items, ids: Index, k: nat, layer: seq<Item>, created: seq<Row>)
    requires NumbersLayers(t, app, m, ids, k) && LayerFor(t, app, m, layer, k) && SameCodes(created, layer)
    ensures NumbersLayers(t, app, m, Filed(ids, created), k + 1)
  {
    var f := FreshForest(t, app, m);
    forall c ensures c in Filed(ids, created) <==> ReachedBefore(t, app, m, c, k + 1) {
      FiledKeys(ids, layer, created, c);
      if c in ids {
        var j: nat :| j < k && AtDepth(f, c, j);
      } else if it :| it in layer && it.code == c {
        assert AtDepth(f, c, k);
      } else if j: nat :| j < k + 1 && AtDepth(f, c, j) {
        assert false;
      }
    }
  }

  lemma {:induction false} StoreAllKeepsFree(t: Table, created: seq<Row>, code: string)
    requires CodeFree(t, code) && forall r | r in created :: r.code != code
    ensures CodeFree(StoreAll(t, created), code)
  {
    if created != [] {
      var last := |created| - 1;
      assert created[last] in created;
      StoreAllKeepsFree(t, created[..last], code);
    }
  }

  lemma {:induction false} StoreAllKeepsIds(t: Table, created: seq<Row>)
    ensures t.Keys <= StoreAll(t, created).Keys
  {
    if created != [] {
      StoreAllKeepsIds(t, created[..|created| - 1]);
    }
  }

  ghost predicate Insertable(t: Table, created: seq<Row>) {
    forall r | r in created :: CodeFree(t, r.code) && (r.parent.Some? ==> r.parent.value in t)
  }

  /** Rows with new, pairwise distinct codes and stored parents can always be inserted together. */
  lemma {:induction false} InsertableBatch(t: Table, first: int, created: seq<Row>, layer: seq<Item>)
    requires Consistent(t) && Numbered(t, first) && CountsFrom(created, first)
    requires SameCodes(created, layer) && DistinctCodes(layer) && Insertable(t, created)
    ensures Consistent(StoreAll(t, created))
  {
    if created != [] {
      var last := |created| - 1;
      var r, made := created[last], created[..last];
      assert r in created;
      InsertableBatch(t, first, made, layer[..last]);
      StoredNumbers(t, first, made);
      StoreAllKeepsIds(t, made);
      StoreAllKeepsFree(t, made, r.code);
      InsertableRow(StoreAll(t, made), r);
    }
  }

  /** Unless another app holds a code of the layer, its rows can be inserted. */
  lemma UnblockedLayerInserts(t: Table, t1: Table, app: string, m: Items, now: int, ids: Index, k: nat,
                              layer: seq<Item>, first: int, created: seq<Row>)
    requires Consistent(t1) && Numbered(t1, first) && Grown(t, t1, app, m, now, ids, k)
    requires LayerFor(t, app, m, layer, k) && Ready(m, ids, layer)
    requires CreatedFrom(created, layer, app, ids, now, first)
    ensures !Blocked(t, app, m) ==> Consistent(StoreAll(t1, created))
  {
    if !Blocked(t, app, m) {
      forall r | r in created ensures CodeFree(t1, r.code) && (r.parent.Some? ==> r.parent.value in t1) {
        var i :| 0 <= i < |created| && created[i] == r;
        assert layer[i] in layer;
        assert Reached(t, app, m, r.code);
      }
      InsertableBatch(t1, first, created, layer);
    }
  }

  /** Looking parents up among all known codes finds the same ids as among the added ones. */
  lemma DraftsAreCreated(old_: Index, ids: Index, layer: seq<Item>, app: string, now: int, first: int, drafts: seq<Row>)
    requires Drafts(layer, app, old_ + ids, now, drafts)
    requires forall it | it in layer :: ParentKnown(ids, it)
    ensures CreatedFrom(Placed(drafts, first), layer, app, ids, now, first)
  {
    forall i | 0 <= i < |layer|
      ensures ParentKnown(ids, layer[i]) && Placed(drafts, first)[i] == Draft(app, layer[i], ids, now, first + i)
    {
      assert layer[i] in layer;
    }
  }

  /** One insert batch: either all rows of the layer arrive, or another app holds one of their codes. */
  method InsertLayer(repo: PermissionRepository, ghost t: Table, app: string, ghost m: Items, ghost ids: Index,
                     ghost k: nat, layer: seq<Item>, index: Index, now: int)
      returns (res: Result<nat, SyncError>, index': Index, ghost ids': Index)
    requires repo.Valid() && UniqueCodes(t) && Grown(t, repo.rows, app, m, now, ids, k)
    requires LayerFor(t, app, m, layer, k) && index == IndexOf(t, app) + ids
    modifies repo
    ensures repo.Valid() && repo.nextId >= old(repo.nextId)
    ensures res.Err? ==> res.error.Database? && Blocked(t, app, m)
    ensures res.Ok? ==> Grown(t, repo.rows, app, m, now, ids', k + 1) && index' == IndexOf(t, app) + ids'
    ensures res.Ok? ==> |ids'| == |ids| + res.value
  {
    index', ids' := index, ids;
    LayerReady(t, app, m, ids, k, layer);
    var drafts := DraftLayer(app, layer, index, now);
    if drafts.Err? {
      assert false;
    }
    ghost var t1, first := repo.rows, repo.nextId;
    ghost var created := Placed(drafts.value, first);
    DraftsAreCreated(IndexOf(t, app), ids, layer, app, now, first, drafts.value);
    UnblockedLayerInserts(t, t1, app, m, now, ids, k, layer, first, created);
    var inserted := repo.BatchCreate(drafts.value);
    if inserted.Err? {
      return Err(Database(inserted.error)), index, ids;
    }
    RowsAdded(t, t1, app, m, now, ids, layer, first, created);
    NextLayerNumbered(t, app, m, ids, k, layer, created);
    FiledSize(ids, layer, created);
    FiledOver(IndexOf(t, app), ids, created);
    ids' := Filed(ids, created);
    index' := IndexCreated(inserted.value, index);
    res := Ok(|inserted.value|);
  }

  /** The new items, in whatever order the set of new codes is iterated. */
  ghost predicate ListsFresh(items: seq<Item>, t: Table, app: string, m: Items) {
    && DistinctCodes(items)
    && (forall it | it in items :: it.code in m && m[it.code] == it)
    && CodeForest(items) == FreshForest(t, app, m)
  }

  method InsertPhase(repo: PermissionRepository, app: string, ghost m: Items, newItems: seq<Item>, now: int)
      returns (res: Result<nat, SyncError>, ghost ids: Index)
    requires repo.Valid() && ListsFresh(newItems, repo.rows, app, m)
    modifies repo
    ensures repo.Valid() && repo.nextId >= old(repo.nextId)
    ensures res.Ok? <==> !Blocked(old(repo.rows), app, m)
    ensures res.Err? ==> res.error.Database?
    ensures res.Ok? ==> Keeps(old(repo.rows), repo.rows) && AddedRows(old(repo.rows), repo.rows, app, m, now, ids)
    ensures res.Ok? ==> forall c :: c in ids <==> Reached(old(repo.rows), app, m, c)
    ensures res.Ok? ==> res.value == |ids|
  {
    ghost var t := repo.rows;
    var layers := TopoSort(newItems);
    var index := IndexOf(repo.rows, app);
    var created := 0;
    ids := map[];
    for k := 0 to |layers|
      invariant repo.Valid() && repo.nextId >= old(repo.nextId)
      invariant Grown(t, repo.rows, app, m, now, ids, k)
      invariant index == IndexOf(t, app) + ids
      invariant created == |ids|
    {
      LayerOfCodes(newItems, layers[k], t, app, m, k);
      var layerRes;
      layerRes, index, ids := InsertLayer(repo, t, app, m, ids, k, layers[k], index, now);
      if layerRes.Err? {
        return Err(layerRes.error), ids;
      }
      created := created + layerRes.value;
    }
    AllInLayers(newItems, t, app, m, ids, |layers|);
    NotBlocked(t, repo.rows, app, m, now, ids);
    res := Ok(created);
  }

  lemma LayerOfCodes(items: seq<Item>, layer: seq<Item>, t: Table, app: string, m: Items, k: nat)
    requires ListsFresh(items, t, app, m) && IsLayer(items, layer, k)
    ensures LayerFor(t, app, m, layer, k)
  {
    forall c | AtDepth(FreshForest(t, app, m), c, k) ensures c in m && m[c] in layer && m[c].code == c {
      assert c in CodeForest(items);
      var it :| it in items && it.code == c;
    }
  }

  lemma AllInLayers(items: seq<Item>, t: Table, app: string, m: Items, ids: Index, n: nat)
    requires ListsFresh(items, t, app, m) && NumbersLayers(t, app, m, ids, n)
    requires forall it, k: nat | it in items && AtDepth(CodeForest(items), it.code, k) :: k < n
    ensures forall c :: c in ids <==> Reached(t, app, m, c)
  {
    forall c ensures c in ids <==> Reached(t, app, m, c) {
      if d: nat :| AtDepth(FreshForest(t, app, m), c, d) {
        assert c in CodeForest(items);
      }
    }
  }

  lemma NotBlocked(t: Table, t': Table, app: string, m: Items, now: int, ids: Index)
    requires Consistent(t') && Keeps(t, t') && AddedRows(t, t', app, m, now, ids)
    requires forall c :: c in ids <==> Reached(t, app, m, c)
    ensures !Blocked(t, app, m)
  {
    forall id | id in t ensures t[id].code !in ids {
    }
  }

  // ---- Phase two: overwrite what is common

  /** The table with the common rows whose codes are in `done` refreshed. */
  ghost predicate RefreshedFor(t: Table, t1: Table, app: string, m: Items, now: int, done: set<string>, t2: Table) {
    && t2.Keys == t1.Keys
    && forall id | id in t1 ::
         t2[id] == if Common(t, app, m, id) && t[id].code in done then Refreshed(t, app, m, now, id) else t1[id]
  }

  ghost function UpdatedIds(t: Table, app: string, m: Items): set<int> {
    set id | id in t && NeedsUpdate(t, app, m, id)
  }

  ghost function UntouchedIds(t: Table, app: string, m: Items): set<int> {
    set id | id in t && Common(t, app, m, id) && !NeedsUpdate(t, app, m, id)
  }

  ghost function PrunedIds(t: Table, app: string, m: Items): set<int> {
    set id | id in t && Pruned(t, app, m, id)
  }

  ghost function WithCodes(t: Table, ids: set<int>, done: set<string>): set<int> {
    set id | id in ids && id in t && t[id].code in done
  }

  lemma WithOneMore(t: Table, app: string, ids: set<int>, done: set<string>, id: int)
    requires UniqueCodes(t) && id in t && t[id].code !in done
    ensures WithCodes(t, ids, done + {t[id].code}) == WithCodes(t, ids, done) + if id in ids then {id} else {}
    ensures id !in WithCodes(t, ids, done)
  {
    var code := t[id].code;
    forall x ensures x in WithCodes(t, ids, done + {code}) <==> x in WithCodes(t, ids, done) || (x == id && id in ids) {
    }
  }

  method UpdateRow(repo: PermissionRepository, id: int, item: Item, now: int) returns (updated: bool)
    requires id in repo.rows
    modifies repo`rows
    ensures repo.rows == old(repo.rows)[id := old(repo.rows)[id].(fields := item.fields, active := true, synced := Some(now))]
    ensures updated <==> old(repo.rows)[id].fields != item.fields || !old(repo.rows)[id].active
  {
    var existing := repo.rows[id];
    if existing.fields != item.fields {
      var active := if existing.active then existing.active else true;
      repo.rows := repo.rows[id := existing.(fields := item.fields, synced := Some(now), active := active)];
      updated := true;
    } else if !existing.active {
      repo.rows := repo.rows[id := existing.(active := true, synced := Some(now))];
      updated := true;
    } else {
      repo.rows := repo.rows[id := existing.(synced := Some(now))];
      updated := false;
    }
  }

  lemma OneMoreRefreshed(t: Table, t1: Table, app: string, m: Items, now: int, done: set<string>, t2: Table, id: int)
    requires UniqueCodes(t) && Keeps(t, t1) && Common(t, app, m, id) && t[id].code !in done
    requires RefreshedFor(t, t1, app, m, now, done, t2)
    ensures t2[id] == t[id]
    ensures RefreshedFor(t, t1, app, m, now, done + {t[id].code}, t2[id := Refreshed(t, app, m, now, id)])
  {
  }

  /** How far the update phase has come, with its two counters. */
  ghost predicate Updating(t: Table, t1: Table, app: string, m: Items, now: int, done: set<string>, t2: Table,
                           updated: nat, same: nat)
  {
    && RefreshedFor(t, t1, app, m, now, done, t2)
    && updated == |WithCodes(t, UpdatedIds(t, app, m), done)|
    && same == |WithCodes(t, UntouchedIds(t, app, m), done)|
  }

  lemma NextToUpdate(t: Table, t1: Table, app: string, m: Items, now: int, done: set<string>, t2: Table, code: string)
    requires UniqueCodes(t) && Keeps(t, t1) && code in m && code in AppCodes(t, app) && code !in done
    requires RefreshedFor(t, t1, app, m, now, done, t2)
    ensures var id := IndexOf(t, app)[code];
            id in t && t[id].code == code && Common(t, app, m, id) && id in t2 && t2[id] == t[id]
  {
  }

  /** Going one code further adds one to the counter whose group the row belongs to. */
  lemma CountOneUpdate(t: Table, app: string, m: Items, done: set<string>, id: int)
    requires UniqueCodes(t) && Common(t, app, m, id) && t[id].code !in done
    ensures var hit := if NeedsUpdate(t, app, m, id) then 1 else 0;
            && |WithCodes(t, UpdatedIds(t, app, m), done + {t[id].code})| == |WithCodes(t, UpdatedIds(t, app, m), done)| + hit
            && |WithCodes(t, UntouchedIds(t, app, m), done + {t[id].code})| == |WithCodes(t, UntouchedIds(t, app, m), done)| + 1 - hit
  {
    WithOneMore(t, app, UpdatedIds(t, app, m), done, id);
    WithOneMore(t, app, UntouchedIds(t, app, m), done, id);
  }

  lemma UpdatingStep(t: Table, t1: Table, app: string, m: Items, now: int, todo: set<string>, t2: Table,
                     updated: nat, same: nat, code: string)
    requires UniqueCodes(t) && Keeps(t, t1) && code in todo && todo <= m.Keys * AppCodes(t, app)
    requires Updating(t, t1, app, m, now, m.Keys * AppCodes(t, app) - todo, t2, updated, same)
    ensures IndexOf(t, app)[code] in t2 && t2[IndexOf(t, app)[code]] == t[IndexOf(t, app)[code]]
    ensures var id := IndexOf(t, app)[code];
            var hit := if NeedsUpdate(t, app, m, id) then 1 else 0;
            Updating(t, t1, app, m, now, m.Keys * AppCodes(t, app) - (todo - {code}),
                     t2[id := Refreshed(t, app, m, now, id)], updated + hit, same + 1 - hit)
  {
    var id := IndexOf(t, app)[code];
    var done := m.Keys * AppCodes(t, app) - todo;
    NextToUpdate(t, t1, app, m, now, done, t2, code);
    assert m.Keys * AppCodes(t, app) - (todo - {code}) == done + {code};
    OneMoreRefreshed(t, t1, app, m, now, done, t2, id);
    CountOneUpdate(t, app, m, done, id);
  }

  method UpdatePhase(repo: PermissionRepository, ghost t: Table, app: string, m: Items, common: set<string>,
                     index: Index, now: int) returns (updated: nat, same: nat)
    requires UniqueCodes(t) && Keeps(t, repo.rows) && index == IndexOf(t, app)
    requires common == m.Keys * AppCodes(t, app)
    modifies repo`rows
    ensures RefreshedFor(t, old(repo.rows), app, m, now, common, repo.rows)
    ensures updated == |UpdatedIds(t, app, m)| && same == |UntouchedIds(t, app, m)|
  {
    updated, same := 0, 0;
    var todo := common;
    while todo != {}
      invariant todo <= common
      invariant Updating(t, old(repo.rows), app, m, now, common - todo, repo.rows, updated, same)
      decreases todo
    {
      var code :| code in todo;
      var id := index[code];
      UpdatingStep(t, old(repo.rows), app, m, now, todo, repo.rows, updated, same, code);
      var changed := UpdateRow(repo, id, m[code], now);
      if changed {
        updated := updated + 1;
      } else {
        same := same + 1;
      }
      todo := todo - {code};
    }
    assert common - todo == common;
    AllCommonDone(t, app, m, common);
  }

  lemma AllCommonDone(t: Table, app: string, m: Items, common: set<string>)
    requires common == m.Keys * AppCodes(t, app)
    ensures WithCodes(t, UpdatedIds(t, app, m), common) == UpdatedIds(t, app, m)
    ensures WithCodes(t, UntouchedIds(t, app, m), common) == UntouchedIds(t, app, m)
  {
  }

  // ---- Phase three: take what is gone offline

  /** Every ancestor of an added row is an added row. */
  lemma {:induction false} AddedAboveAdded(t: Table, t': Table, app: string, m: Items, now: int, ids: Index, x: int, n: nat)
    requires AddedRows(t, t', app, m, now, ids) && x in t' && x !in t
    requires Up(ParentsOf(t'), x, n).Some?
    ensures Up(ParentsOf(t'), x, n).value !in t
    decreases n
  {
    if n != 0 {
      AddedAboveAdded(t, t', app, m, now, ids, t'[x].parent.value, n - 1);
    }
  }

  /** An added row is no deeper in the table than its code is among the new codes. */
  lemma {:induction false} AddedEnds(t: Table, t': Table, app: string, m: Items, now: int, ids: Index, c: string, k: nat)
    requires AddedRows(t, t', app, m, now, ids) && c in ids
    requires AtDepth(FreshForest(t, app, m), c, k)
    ensures Up(ParentsOf(t'), ids[c], k + 1).None?
    decreases k
  {
    var x := ids[c];
    if t'[x].parent.Some? {
      AddedEnds(t, t', app, m, now, ids, m[c].parentCode.value, k - 1);
    }
  }

  /** Adding the reached rows keeps the table acyclic. */
  lemma AddedAcyclic(t: Table, t': Table, app: string, m: Items, now: int, ids: Index)
    requires Acyclic(ParentsOf(t)) && ParentsStored(t)
    requires KeepsParents(t, t') && AddedRows(t, t', app, m, now, ids)
    requires forall c | c in ids :: Reached(t, app, m, c)
    ensures Acyclic(ParentsOf(t'))
  {
    var f, f' := ParentsOf(t), ParentsOf(t');
    ParentsClosed(t);
    ParentsKept(t, t');
    forall x | x in f' ensures Ends(f', x) {
      if x in t {
        OldNodeEnds(f, f', x);
      } else {
        var c := t'[x].code;
        var k: nat :| AtDepth(FreshForest(t, app, m), c, k);
        AddedEnds(t, t', app, m, now, ids, c, k);
      }
    }
    EndingIsAcyclic(f');
  }

  /** Below a dropped row the recursion finds the rows it found before the inserts, and no added row. */
  lemma PrunedAfterInserts(t: Table, t': Table, app: string, m: Items, now: int, ids: Index, x: int)
    requires ParentsStored(t)
    requires KeepsParents(t, t') && AddedRows(t, t', app, m, now, ids)
    ensures (exists a :: Dropped(t, app, m, a) && Above(ParentsOf(t'), a, x)) <==> Pruned(t, app, m, x)
    ensures Pruned(t, app, m, x) ==> x in t
  {
    var f, f' := ParentsOf(t), ParentsOf(t');
    ParentsClosed(t);
    ParentsKept(t, t');
    if a, n: nat :| Dropped(t, app, m, a) && Up(f', x, n) == Some(a) {
      if x !in t {
        AddedAboveAdded(t, t', app, m, now, ids, x, n);
        assert false;
      }
      UpInClosedPart(f, f', x, n);
      assert Above(f, a, x);
    }
    if a, n: nat :| Dropped(t, app, m, a) && Up(f, x, n) == Some(a) {
      UpInClosedPart(f, f', x, n);
      assert Above(f', a, x);
    }
  }

  lemma DirectAreDropped(t: Table, app: string, m: Items, direct: set<int>)
    requires UniqueCodes(t)
    requires direct == set c | c in AppCodes(t, app) - m.Keys :: IndexOf(t, app)[c]
    ensures forall a :: a in direct <==> Dropped(t, app, m, a)
  {
    forall a ensures a in direct <==> Dropped(t, app, m, a) {
      if Dropped(t, app, m, a) {
        assert t[a].code in AppCodes(t, app) - m.Keys && IndexOf(t, app)[t[a].code] == a;
      }
    }
  }

  lemma ToPrune(t: Table, t': Table, app: string, m: Items, now: int, ids: Index, direct: set<int>, below: seq<int>)
    requires ParentsStored(t) && KeepsParents(t, t') && AddedRows(t, t', app, m, now, ids)
    requires forall a :: a in direct <==> Dropped(t, app, m, a)
    requires forall x :: x in below <==> exists r :: r in direct && Above(ParentsOf(t'), r, x)
    ensures direct + (Elements(below) - direct) == PrunedIds(t, app, m)
    ensures PrunedIds(t, app, m) <= t'.Keys
  {
    forall x ensures x in direct + (Elements(below) - direct) <==> x in PrunedIds(t, app, m) {
      PrunedAfterInserts(t, t', app, m, now, ids, x);
      if x in direct {
        assert Up(ParentsOf(t'), x, 0) == Some(x);
        assert Above(ParentsOf(t'), x, x);
      }
    }
  }

  lemma NothingToPrune(t: Table, app: string, m: Items, t': Table, later: int)
    requires AppCodes(t, app) - m.Keys == {}
    ensures PrunedIds(t, app, m) == {} && SoftDeleted(t', PrunedIds(t, app, m), later) == t'
  {
    assert forall c | c in AppCodes(t, app) :: c in m by {
      assert forall c | c in AppCodes(t, app) && c !in m :: c in AppCodes(t, app) - m.Keys;
    }
    forall id | id in t ensures !Pruned(t, app, m, id) {
      if a :| Dropped(t, app, m, a) {
        assert false;
      }
    }
  }

  lemma AfterPruning(t: Table, ids: set<int>, later: int, t': Table)
    requires t'.Keys == t.Keys && ids <= t.Keys
    requires forall id | id in ids && id in t' :: t'[id] == t[id].(active := false, synced := Some(later))
    requires forall id | id !in ids && id in t' :: t'[id] == t[id]
    ensures t' == SoftDeleted(t, ids, later)
    ensures |t'.Keys| - |t'.Keys - ids| == |ids|
  {
    WentOffline(t, ids, later, t');
    assert ids + (t.Keys - ids) == t.Keys;
  }

  /** The recursion below the dropped rows stops. */
  ghost predicate DroppedOffCycles(t: Table, app: string, m: Items) {
    forall a | Dropped(t, app, m, a) :: !OnCycle(ParentsOf(t), a)
  }

  lemma RootsStayOffCycles(t: Table, t': Table, app: string, m: Items, direct: set<int>)
    requires ParentsStored(t) && KeepsParents(t, t') && DroppedOffCycles(t, app, m)
    requires forall a :: a in direct <==> Dropped(t, app, m, a)
    ensures RootsOffCycles(ParentsOf(t'), direct)
  {
    ParentsClosed(t);
    ParentsKept(t, t');
    forall a | a in direct ensures !OnCycle(ParentsOf(t'), a) {
      assert Dropped(t, app, m, a);
      forall n: nat | 0 < n ensures Up(ParentsOf(t'), a, n) != Some(a) {
        UpInClosedPart(ParentsOf(t), ParentsOf(t'), a, n);
      }
    }
  }

  /** Takes the dropped rows and everything below them offline. */
  method PruneBelow(repo: PermissionRepository, ghost t: Table, app: string, ghost m: Items, ghost ids: Index,
                    ghost now: int, direct: set<int>, later: int) returns (pruned: nat)
    requires repo.Valid() && DroppedOffCycles(t, app, m) && Consistent(t)
    requires KeepsParents(t, repo.rows) && AddedRows(t, repo.rows, app, m, now, ids)
    requires forall a :: a in direct <==> Dropped(t, app, m, a)
    modifies repo`rows
    ensures repo.Valid()
    ensures repo.rows == SoftDeleted(old(repo.rows), PrunedIds(t, app, m), later)
    ensures pruned == |PrunedIds(t, app, m)|
  {
    RootsStayOffCycles(t, repo.rows, app, m, direct);
    var all := repo.GetDescendantIdsBatch(direct);
    var descendantOnly := (set x | x in all) - direct;
    ToPrune(t, repo.rows, app, m, now, ids, direct, all);
    ghost var before := repo.rows;
    pruned := repo.BatchSoftDelete(direct + descendantOnly, later);
    AfterPruning(before, PrunedIds(t, app, m), later, repo.rows);
  }

  method PrunePhase(repo: PermissionRepository, ghost t: Table, app: string, ghost m: Items, ghost ids: Index,
                    ghost now: int, index: Index, prunedCodes: set<string>, later: int) returns (pruned: nat)
    requires repo.Valid() && DroppedOffCycles(t, app, m) && Consistent(t) && index == IndexOf(t, app)
    requires KeepsParents(t, repo.rows) && AddedRows(t, repo.rows, app, m, now, ids)
    requires prunedCodes == AppCodes(t, app) - m.Keys
    modifies repo`rows
    ensures repo.Valid()
    ensures repo.rows == SoftDeleted(old(repo.rows), PrunedIds(t, app, m), later)
    ensures pruned == |PrunedIds(t, app, m)|
  {
    pruned := 0;
    if prunedCodes != {} {
      var direct := set c | c in prunedCodes :: index[c];
      DirectAreDropped(t, app, m, direct);
      pruned := PruneBelow(repo, t, app, m, ids, now, direct, later);
    } else {
      NothingToPrune(t, app, m, repo.rows, later);
    }
  }

  // ---- The whole sync

  lemma FreshListed(t: Table, app: string, m: Items, newCodes: set<string>, order: seq<string>, items: seq<Item>)
    requires newCodes == m.Keys - AppCodes(t, app) && Distinct(order) && Elements(order) == newCodes
    requires forall c | c in m :: m[c].code == c
    requires |items| == |order| && forall i | 0 <= i < |order| :: order[i] in m && items[i] == m[order[i]]
    ensures ListsFresh(items, t, app, m)
  {
    forall it | it in items ensures it.code in newCodes && m[it.code] == it {
      var i :| 0 <= i < |items| && items[i] == it;
      assert order[i] in Elements(order);
    }
    forall c | c in newCodes ensures m[c] in items {
      var i :| 0 <= i < |order| && order[i] == c;
      assert items[i] == m[c];
    }
    assert CodeForest(items).Keys == newCodes;
  }

  method ListNewItems(ghost t: Table, ghost app: string, m: Items, newCodes: set<string>) returns (items: seq<Item>)
    requires newCodes == m.Keys - AppCodes(t, app)
    requires forall c | c in m :: m[c].code == c
    ensures ListsFresh(items, t, app, m)
  {
    var order := AnyOrder(newCodes);
    forall i | 0 <= i < |order| ensures order[i] in m {
      assert order[i] in Elements(order);
    }
    items := seq(|order|, i requires 0 <= i < |order| => m[order[i]]);
    FreshListed(t, app, m, newCodes, order, items);
  }

  /** Rows change neither id nor code nor parent. */
  ghost predicate SameShape(t: Table, t': Table) {
    && t'.Keys == t.Keys
    && forall id | id in t :: t'[id].id == t[id].id && t'[id].code == t[id].code && t'[id].parent == t[id].parent
  }

  lemma SameShapeConsistent(t: Table, t': Table)
    requires Consistent(t) && SameShape(t, t')
    ensures Consistent(t')
  {
  }

  lemma AfterUpdate(t: Table, t1: Table, app: string, m: Items, now: int, ids: Index, t2: Table)
    requires Consistent(t1) && Keeps(t, t1) && AddedRows(t, t1, app, m, now, ids)
    requires RefreshedFor(t, t1, app, m, now, m.Keys * AppCodes(t, app), t2)
    ensures Consistent(t2) && KeepsParents(t, t2) && AddedRows(t, t2, app, m, now, ids)
    ensures forall id | id in t :: id in t2 && t2[id] == Refreshed(t, app, m, now, id)
  {
    forall id | id in t1 ensures t2[id] == if Common(t, app, m, id) then Refreshed(t, app, m, now, id) else t1[id] {
    }
    SameShapeConsistent(t1, t2);
  }

  lemma AfterPrune(t: Table, t2: Table, app: string, m: Items, now: int, later: int, ids: Index)
    requires Consistent(t2) && AddedRows(t, t2, app, m, now, ids)
    requires forall id | id in t :: id in t2 && t2[id] == Refreshed(t, app, m, now, id)
    requires forall c :: c in ids <==> Reached(t, app, m, c)
    ensures SyncedBy(t, app, m, now, later, ids, SoftDeleted(t2, PrunedIds(t, app, m), later))
  {
    var t3 := SoftDeleted(t2, PrunedIds(t, app, m), later);
    SameShapeConsistent(t2, t3);
    forall id | id in t ensures t3[id] == Settled(t, app, m, now, later, id) {
    }
  }

  lemma SyncedKeepsParents(t: Table, app: string, m: Items, now: int, later: int, ids: Index, t': Table)
    requires SyncedBy(t, app, m, now, later, ids, t')
    ensures KeepsParents(t, t')
  {
    forall id | id in t ensures id in t' && t'[id].parent == t[id].parent {
      assert t'[id] == Settled(t, app, m, now, later, id);
    }
  }

  lemma SyncAddsNoCycle(t: Table, app: string, m: Items, now: int, later: int, ids: Index, t': Table)
    requires ParentsStored(t) && SyncedBy(t, app, m, now, later, ids, t')
    ensures Acyclic(ParentsOf(t)) ==> Acyclic(ParentsOf(t'))
  {
    SyncedKeepsParents(t, app, m, now, later, ids, t');
    if Acyclic(ParentsOf(t)) {
      AddedAcyclic(t, t', app, m, now, ids);
    }
  }

  /**
   sync_permissions. Any failure restores the table; the only possible failure is that another app
   holds a code that has to be inserted. No dropped row may lie on a cycle, or the query for the
   rows below it would not end. The statement holds for every order in which the code
   sets are iterated and the table is scanned.
   */
  method SyncPermissions(repo: PermissionRepository, app: string, items: seq<Item>, now: int, later: int)
      returns (res: Result<SyncResult, SyncError>, ghost ids: Index)
    requires repo.Valid() && DroppedOffCycles(repo.rows, app, ByCode(items))
    modifies repo
    ensures repo.Valid() && repo.nextId >= old(repo.nextId)
    ensures Acyclic(ParentsOf(old(repo.rows))) ==> Acyclic(ParentsOf(repo.rows))
    ensures res.Ok? <==> !Blocked(old(repo.rows), app, ByCode(items))
    ensures res.Err? ==> res.error.Database? && repo.rows == old(repo.rows)
    ensures res.Ok? ==> SyncedBy(old(repo.rows), app, ByCode(items), now, later, ids, repo.rows)
    ensures res.Ok? ==> res.value == SyncResult(|ids|, |UpdatedIds(old(repo.rows), app, ByCode(items))|,
                                                |PrunedIds(old(repo.rows), app, ByCode(items))|,
                                                |UntouchedIds(old(repo.rows), app, ByCode(items))|)
  {
    ghost var t := repo.rows;
    var saved := repo.rows;
    var m := ByCode(items);
    var index := IndexOf(repo.rows, app);
    var newItems := ListNewItems(t, app, m, m.Keys - index.Keys);
    var insertRes;
    insertRes, ids := InsertPhase(repo, app, m, newItems, now);
    if insertRes.Err? {
      repo.rows := saved;
      return Err(insertRes.error), ids;
    }
    ghost var t1 := repo.rows;
    var updated, same := UpdatePhase(repo, t, app, m, m.Keys * index.Keys, index, now);
    AfterUpdate(t, t1, app, m, now, ids, repo.rows);
    ghost var t2 := repo.rows;
    var pruned := PrunePhase(repo, t, app, m, ids, now, index, index.Keys - m.Keys, later);
    AfterPrune(t, t2, app, m, now, later, ids);
    SyncAddsNoCycle(t, app, m, now, later, ids, repo.rows);
    res := Ok(SyncResult(insertRes.value, updated, pruned, same));
  }

  // ---- What a sync means

  /** A sync keeps the table sound: no cycle, every parent stored, codes unique. */
  lemma SyncKeepsSound(t: Table, app: string, m: Items, now: int, later: int, ids: Index, t': Table)
    requires Consistent(t) && Acyclic(ParentsOf(t)) && SyncedBy(t, app, m, now, later, ids, t')
    ensures Consistent(t') && Acyclic(ParentsOf(t'))
  {
    SyncAddsNoCycle(t, app, m, now, later, ids, t');
  }

  lemma DroppedBefore(t: Table, app: string, m: Items, now: int, later: int, ids: Index, t': Table, a: int)
    requires SyncedBy(t, app, m, now, later, ids, t')
    ensures Dropped(t', app, m, a) <==> Dropped(t, app, m, a)
  {
    if a in t {
      assert t'[a] == Settled(t, app, m, now, later, a);
    }
  }

  lemma PrunedBefore(t: Table, app: string, m: Items, now: int, later: int, ids: Index, t': Table, x: int)
    requires ParentsStored(t) && SyncedBy(t, app, m, now, later, ids, t')
    ensures Pruned(t', app, m, x) <==> Pruned(t, app, m, x)
    ensures Pruned(t, app, m, x) ==> x in t
  {
    SyncedKeepsParents(t, app, m, now, later, ids, t');
    PrunedAfterInserts(t, t', app, m, now, ids, x);
    forall a {
      DroppedBefore(t, app, m, now, later, ids, t', a);
    }
  }

  /** Column by column, what a sync stores for a row that was not there. */
  lemma AddedRowExactly(t: Table, app: string, m: Items, now: int, later: int, ids: Index, t': Table, x: int)
    requires SyncedBy(t, app, m, now, later, ids, t') && x in t' && x !in t
    ensures var r := t'[x];
            && r.id == x && r.app == app && r.code in m && r.fields == m[r.code].fields
            && r.active && r.synced == Some(now)
    ensures var reported := m[t'[x].code].parentCode;
            if reported.None? || reported.value == "" then t'[x].parent.None?
            else
              && t'[x].parent.Some? && t'[x].parent.value in t'
              && t'[t'[x].parent.value].app == app && t'[t'[x].parent.value].code == reported.value
  {
    var c := t'[x].code;
    assert c in ids && ids[c] == x;
    if !(m[c].parentCode.None? || m[c].parentCode.value == "") {
      var p := m[c].parentCode.value;
      assert p in ids && t'[ids[p]].code == p;
    }
  }

  /** The n-th row above x, counting x itself as the first, is a row of the app that is not reported. */
  ghost predicate MissingAbove(t: Table, app: string, m: Items, x: int, n: nat) {
    var a := Up(ParentsOf(t), x, n);
    a.Some? && t[a.value].app == app && t[a.value].code !in m
  }

  lemma GoneExactly(t: Table, app: string, m: Items, x: int)
    ensures Pruned(t, app, m, x) <==> exists n: nat :: MissingAbove(t, app, m, x, n)
  {
    if n: nat :| MissingAbove(t, app, m, x, n) {
      var a := Up(ParentsOf(t), x, n).value;
      assert Dropped(t, app, m, a) && Above(ParentsOf(t), a, x);
    }
    if a :| Dropped(t, app, m, a) && Above(ParentsOf(t), a, x) {
      var n: nat :| Up(ParentsOf(t), x, n) == Some(a);
      assert MissingAbove(t, app, m, x, n);
    }
  }

  /** Column by column, what becomes of a row that was there: `gone` says that it or a row above it is not reported. */
  lemma OldRowExactly(t: Table, app: string, m: Items, now: int, later: int, ids: Index, t': Table, x: int)
    requires SyncedBy(t, app, m, now, later, ids, t') && x in t
    ensures x in t'
    ensures var r, r' := t[x], t'[x];
            var reported := r.app == app && r.code in m;
            var gone := exists n: nat :: MissingAbove(t, app, m, x, n);
            && r'.id == r.id && r'.app == r.app && r'.code == r.code && r'.parent == r.parent
            && r'.fields == (if reported then m[r.code].fields else r.fields)
            && (r'.active <==> !gone && (reported || r.active))
            && r'.synced == if gone then Some(later) else if reported then Some(now) else r.synced
  {
    assert t'[x] == Settled(t, app, m, now, later, x);
    GoneExactly(t, app, m, x);
  }

  /** A row goes offline exactly if it is dropped itself or its parent goes offline. */
  lemma PrunedByParent(t: Table, app: string, m: Items, x: int)
    requires x in t && ParentsStored(t)
    ensures Pruned(t, app, m, x) <==>
            (t[x].app == app && t[x].code !in m) || (t[x].parent.Some? && Pruned(t, app, m, t[x].parent.value))
  {
    var f := ParentsOf(t);
    if t[x].app == app && t[x].code !in m {
      assert Up(f, x, 0) == Some(x);
      assert Dropped(t, app, m, x) && Above(f, x, x);
    }
    if t[x].parent.Some? {
      var p := t[x].parent.value;
      if a :| Dropped(t, app, m, a) && Above(f, a, p) {
        var n: nat :| Up(f, p, n) == Some(a);
        assert Up(f, x, n + 1) == Some(a);
      }
    }
    if a :| Dropped(t, app, m, a) && Above(f, a, x) {
      var n: nat :| Up(f, x, n) == Some(a);
      if n != 0 {
        assert Up(f, t[x].parent.value, n - 1) == Some(a);
        assert Above(f, a, t[x].parent.value);
      }
    }
  }

  /** A code is reached exactly if it is reported, new to the app, and has no parent code or a reached one. */
  lemma ReachedByParent(t: Table, app: string, m: Items, c: string)
    ensures Reached(t, app, m, c) <==>
            && c in m && (forall id | id in t && t[id].app == app :: t[id].code != c)
            && (m[c].parentCode.None? || Reached(t, app, m, m[c].parentCode.value))
  {
    var f := FreshForest(t, app, m);
    assert c in f <==> c in m && forall id | id in t && t[id].app == app :: t[id].code != c;
    if c in f && f[c].None? {
      assert Up(f, c, 0) == Some(c);
      assert AtDepth(f, c, 0);
    }
    if c in f && f[c].Some? {
      var p := f[c].value;
      if k: nat :| AtDepth(f, p, k) {
        assert Up(f, c, k + 1) == Up(f, p, k);
        assert AtDepth(f, c, k + 1);
      }
      if k: nat :| AtDepth(f, c, k) {
        assert k != 0 && Up(f, c, k) == Up(f, p, k - 1);
        assert AtDepth(f, p, k - 1);
      }
    }
  }

  /** The three groups of stored rows that the counters count. */
  lemma CountedRows(t: Table, app: string, m: Items, id: int)
    ensures id in UpdatedIds(t, app, m) <==>
              id in t && t[id].app == app && t[id].code in m && (t[id].fields != m[t[id].code].fields || !t[id].active)
    ensures id in UntouchedIds(t, app, m) <==>
              id in t && t[id].app == app && t[id].code in m && t[id].fields == m[t[id].code].fields && t[id].active
    ensures id in PrunedIds(t, app, m) <==>
              id in t && exists n: nat :: MissingAbove(t, app, m, id, n)
  {
    GoneExactly(t, app, m, id);
  }

  /**
   Read off the table after the sync: a row of the app is active exactly when it is reported and no
   row at or above it is missing from the manifest, reported rows carry the manifest's fields, and
   the codes are the old ones and the reached ones.
   */
  lemma SyncOutcome(t: Table, app: string, m: Items, now: int, later: int, ids: Index, t': Table, x: int)
    requires ParentsStored(t) && SyncedBy(t, app, m, now, later, ids, t')
    requires x in t' && t'[x].app == app
    ensures !t'[x].active <==> Pruned(t', app, m, x)
    ensures t'[x].code in m ==> t'[x].fields == m[t'[x].code].fields
    ensures x !in t ==> t'[x].active && Reached(t, app, m, t'[x].code)
    ensures x !in t && t'[x].code in m ==>
            var reported := m[t'[x].code].parentCode;
            if reported.None? || reported.value == "" then t'[x].parent.None?
            else
              && t'[x].parent.Some? && t'[x].parent.value in t'
              && t'[t'[x].parent.value].app == app && t'[t'[x].parent.value].code == reported.value
  {
    PrunedBefore(t, app, m, now, later, ids, t', x);
    if x in t {
      assert t'[x] == Settled(t, app, m, now, later, x);
      if t[x].code !in m {
        assert Up(ParentsOf(t), x, 0) == Some(x);
        assert Dropped(t, app, m, x) && Above(ParentsOf(t), x, x);
      }
    } else {
      AddedRowExactly(t, app, m, now, later, ids, t', x);
      assert t'[x].code in ids;
    }
  }

  /** Rows of other apps keep everything but their status, and that only changes below a dropped row. */
  lemma OtherAppsOutcome(t: Table, app: string, m: Items, now: int, later: int, ids: Index, t': Table, x: int)
    requires SyncedBy(t, app, m, now, later, ids, t') && x in t' && t'[x].app != app
    ensures x in t
    ensures t'[x] == if Pruned(t, app, m, x) then t[x].(active := false, synced := Some(later)) else t[x]
  {
    if x in t {
      assert t'[x] == Settled(t, app, m, now, later, x);
    }
  }

  /** The app's codes after a sync: the old ones and the reached ones. */
  lemma CodesAfterSync(t: Table, app: string, m: Items, now: int, later: int, ids: Index, t': Table, c: string)
    requires SyncedBy(t, app, m, now, later, ids, t')
    ensures c in AppCodes(t', app) <==> c in AppCodes(t, app) || Reached(t, app, m, c)
  {
    if id :| id in t && t[id].app == app && t[id].code == c {
      assert t'[id] == Settled(t, app, m, now, later, id);
    }
    if c in ids {
      assert t'[ids[c]].app == app && t'[ids[c]].code == c;
    }
    if id :| id in t' && t'[id].app == app && t'[id].code == c {
      if id in t {
        assert t'[id] == Settled(t, app, m, now, later, id);
      }
    }
  }

  /** Exact: a sync stores every reported code if and only if each new one hangs by new codes below a reported root. */
  lemma EverythingStoredExactly(t: Table, app: string, m: Items, now: int, later: int, ids: Index, t': Table)
    requires SyncedBy(t, app, m, now, later, ids, t')
    ensures (forall c | c in m :: c in AppCodes(t', app)) <==>
            (forall c | c in m && c !in AppCodes(t, app) :: Reached(t, app, m, c))
  {
    forall c | c in m ensures c in AppCodes(t', app) <==> c in AppCodes(t, app) || Reached(t, app, m, c) {
      CodesAfterSync(t, app, m, now, later, ids, t', c);
    }
  }

  /** A new item directly below a row that is already stored is not reached, so no sync inserts it. */
  lemma BelowStoredIsNotReached(t: Table, app: string, m: Items, c: string)
    requires c in m && m[c].parentCode.Some? && m[c].parentCode.value in AppCodes(t, app)
    ensures !Reached(t, app, m, c)
  {
    var f := FreshForest(t, app, m);
    forall k: nat ensures !AtDepth(f, c, k) {
      if c in f && 0 < k {
        assert Up(f, f[c].value, k - 1).None?;
      }
    }
  }

  lemma NothingLeftToInsert(t: Table, app: string, m: Items, now: int, later: int, ids: Index, t': Table, c: string)
    requires SyncedBy(t, app, m, now, later, ids, t')
    ensures !Reached(t', app, m, c)
  {
    var f, f' := FreshForest(t, app, m), FreshForest(t', app, m);
    forall x | x in f' ensures x in f && f[x] == f'[x] {
      if id :| id in t && t[id].app == app && t[id].code == x {
        assert false;
      }
    }
    if k: nat :| AtDepth(f', c, k) {
      UpInSubforest(f', f, c, k);
      assert AtDepth(f, c, k);
      assert c in ids;
      assert t'[ids[c]].app == app && t'[ids[c]].code == c;
    }
  }

  function Untimed(r: Row): Row {
    r.(synced := None)
  }

  /** Running the same manifest again changes nothing but timestamps, inserts nothing, cannot fail and prunes the same rows. */
  lemma SyncIdempotent(t: Table, app: string, m: Items, now: int, later: int, ids: Index, t': Table,
                       now2: int, later2: int, ids2: Index, t'': Table)
    requires ParentsStored(t) && SyncedBy(t, app, m, now, later, ids, t')
    requires SyncedBy(t', app, m, now2, later2, ids2, t'')
    ensures !Blocked(t', app, m)
    ensures ids2 == map[]
    ensures PrunedIds(t', app, m) == PrunedIds(t, app, m)
    ensures t''.Keys == t'.Keys && forall id | id in t' :: Untimed(t''[id]) == Untimed(t'[id])
  {
    forall c ensures !Reached(t', app, m, c) {
      NothingLeftToInsert(t, app, m, now, later, ids, t', c);
    }
    assert ids2.Keys == {};
    forall id ensures id in t'' <==> id in t' {
    }
    forall x ensures Pruned(t', app, m, x) <==> Pruned(t, app, m, x)
             ensures Pruned(t, app, m, x) ==> x in t {
      PrunedBefore(t, app, m, now, later, ids, t', x);
    }
    forall id | id in t' ensures Untimed(t''[id]) == Untimed(t'[id]) {
      SettledTwice(t, app, m, now, later, ids, t', now2, later2, id);
    }
  }

  lemma SettledTwice(t: Table, app: string, m: Items, now: int, later: int, ids: Index, t': Table,
                     now2: int, later2: int, id: int)
    requires ParentsStored(t) && SyncedBy(t, app, m, now, later, ids, t') && id in t'
    ensures Untimed(Settled(t', app, m, now2, later2, id)) == Untimed(t'[id])
  {
    PrunedBefore(t, app, m, now, later, ids, t', id);
    if id in t {
      assert t'[id] == Settled(t, app, m, now, later, id);
    } else {
      assert t'[id].code in ids;
    }
  }

  /** Two added rows of the same code agree up to the numbering. */
  ghost predicate SameUpToIds(t1: Table, ids1: Index, t2: Table, ids2: Index, c: string)
    requires c in ids1 && ids1[c] in t1 && c in ids2 && ids2[c] in t2
  {
    && t1[ids1[c]].(id := 0, parent := None) == t2[ids2[c]].(id := 0, parent := None)
    && forall p | p in ids1 && p in ids2 :: t1[ids1[c]].parent == Some(ids1[p]) <==> t2[ids2[c]].parent == Some(ids2[p])
  }

  lemma SameAddedRow(t: Table, app: string, m: Items, now: int, ids1: Index, t1: Table, ids2: Index, t2: Table, c: string)
    requires AddedRows(t, t1, app, m, now, ids1) && AddedRows(t, t2, app, m, now, ids2)
    requires c in ids1 && c in ids2
    ensures SameUpToIds(t1, ids1, t2, ids2, c)
  {
  }

  lemma OldRowsAgree(t: Table, app: string, m: Items, now: int, later: int, ids1: Index, t1: Table, ids2: Index, t2: Table)
    requires SyncedBy(t, app, m, now, later, ids1, t1) && SyncedBy(t, app, m, now, later, ids2, t2)
    ensures forall id | id in t :: id in t1 && id in t2 && t1[id] == t2[id]
  {
    forall id | id in t ensures id in t1 && id in t2 && t1[id] == t2[id] {
      assert t1[id] == Settled(t, app, m, now, later, id);
    }
  }

  ghost predicate AgreeAt(t1: Table, ids1: Index, t2: Table, ids2: Index, c: string) {
    && (c in ids1 <==> c in ids2)
    && (c in ids1 && c in ids2 ==> ids1[c] in t1 && ids2[c] in t2 && SameUpToIds(t1, ids1, t2, ids2, c))
  }

  lemma AddedRowAgrees(t: Table, app: string, m: Items, now: int, ids1: Index, t1: Table, ids2: Index, t2: Table, c: string)
    requires AddedRows(t, t1, app, m, now, ids1) && AddedRows(t, t2, app, m, now, ids2)
    requires c in ids1 <==> c in ids2
    ensures AgreeAt(t1, ids1, t2, ids2, c)
  {
    if c in ids1 {
      SameAddedRow(t, app, m, now, ids1, t1, ids2, t2, c);
    }
  }

  /** Two runs that iterate the code sets differently end with the same rows up to the numbering of the added ones. */
  lemma SyncOrderIndependent(t: Table, app: string, m: Items, now: int, later: int,
                             ids1: Index, t1: Table, ids2: Index, t2: Table)
    requires SyncedBy(t, app, m, now, later, ids1, t1) && SyncedBy(t, app, m, now, later, ids2, t2)
    ensures forall id | id in t :: id in t1 && id in t2 && t1[id] == t2[id]
    ensures forall c :: AgreeAt(t1, ids1, t2, ids2, c)
  {
    OldRowsAgree(t, app, m, now, later, ids1, t1, ids2, t2);
    forall c ensures AgreeAt(t1, ids1, t2, ids2, c) {
      AddedRowAgrees(t, app, m, now, ids1, t1, ids2, t2, c);
    }
  }
}
