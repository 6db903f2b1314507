/** The permission table, its constraints, and the statements that the repository runs on it. */
module Permissions {
  import opened Prelude
  import opened Forest
  import opened RecursiveQueries
  import opened Manifest

  datatype Row = Row(
    id: int,
    app: string,
    code: string,
    parent: Option<int>,
    fields: Fields,
    active: bool,
    synced: Option<int>)

  type Table = map<int, Row>

  function ParentsOf(t: Table): (f: Ids)
    ensures f.Keys == t.Keys
  {
    map id | id in t :: t[id].parent
  }

  predicate UniqueCodes(t: Table) {
    forall i, j | i in t && j in t && t[i].code == t[j].code :: i == j
  }

  predicate ParentsStored(t: Table) {
    forall i | i in t && t[i].parent.Some? :: t[i].parent.value in t
  }

  /** What the database enforces: primary key, unique codes and the parent foreign key. */
  predicate Consistent(t: Table) {
    (forall i | i in t :: t[i].id == i) && UniqueCodes(t) && ParentsStored(t)
  }

  /** Ids come from a sequence that starts at 1 and is never rolled back. */
  predicate Numbered(t: Table, nextId: int) {
    0 < nextId && forall i | i in t :: 0 < i < nextId
  }

  ghost predicate Sound(t: Table, nextId: int) {
    Consistent(t) && Numbered(t, nextId) && Acyclic(ParentsOf(t))
  }

  datatype DbError = ConstraintViolated

  /** The rows that an INSERT of the drafts creates: draft i takes the i-th next id. */
  function Placed(drafts: seq<Row>, first: int): (created: seq<Row>)
    ensures |created| == |drafts|
    ensures forall i | 0 <= i < |drafts| :: created[i] == drafts[i].(id := first + i)
  {
    seq(|drafts|, i requires 0 <= i < |drafts| => drafts[i].(id := first + i))
  }

  function StoreAll(t: Table, created: seq<Row>): Table {
    if created == [] then t
    else
      var last := |created| - 1;
      StoreAll(t, created[..last])[created[last].id := created[last]]
  }

  function ActiveIds(t: Table): set<int> {
    set id | id in t && t[id].active
  }

  function SoftDeleted(t: Table, ids: set<int>, now: int): Table {
    map id | id in t :: if id in ids then t[id].(active := false, synced := Some(now)) else t[id]
  }

  class PermissionRepository {
    var rows: Table
    var nextId: int

    ghost predicate Valid()
      reads this
    {
      Consistent(rows) && Numbered(rows, nextId)
    }

    constructor ()
      ensures Valid() && rows == map[] && nextId == 1
    {
      rows, nextId := map[], 1;
    }

    /** A statement that would break a constraint fails and leaves the rows alone; ids are spent either way. */
    method BatchCreate(drafts: seq<Row>) returns (res: Result<seq<Row>, DbError>)
      requires Valid()
      modifies this
      ensures Valid() && nextId == old(nextId) + |drafts|
      ensures res.Ok? <==> Consistent(StoreAll(old(rows), Placed(drafts, old(nextId))))
      ensures rows == if res.Ok? then StoreAll(old(rows), Placed(drafts, old(nextId))) else old(rows)
      ensures res.Ok? ==> res.value == Placed(drafts, old(nextId))
    {
      var created := Placed(drafts, nextId);
      StoredNumbers(rows, nextId, created);
      nextId := nextId + |drafts|;
      if Consistent(StoreAll(rows, created)) {
        rows := StoreAll(rows, created);
        res := Ok(created);
      } else {
        res := Err(ConstraintViolated);
      }
    }

    /** The listed rows that exist go offline and are counted; every other row, and the whole forest, stays as it was. */
    method BatchSoftDelete(ids: set<int>, now: int) returns (count: nat)
      requires Valid()
      modifies this`rows
      ensures Valid() && ParentsOf(rows) == ParentsOf(old(rows))
      ensures ActiveIds(rows) == ActiveIds(old(rows)) - ids
      ensures forall id | id in ids && id in rows :: rows[id] == old(rows)[id].(active := false, synced := Some(now))
      ensures forall id | id !in ids && id in rows :: rows[id] == old(rows)[id]
      ensures count == |rows.Keys| - |rows.Keys - ids|
    {
      count := |ids * rows.Keys|;
      SoftDeletedFacts(rows, nextId, ids, now);
      rows := SoftDeleted(rows, ids, now);
    }

    method ScanRows() returns (scan: seq<int>)
      ensures IsScan(ParentsOf(rows), scan)
    {
      scan := AnyOrder(rows.Keys);
      forall x ensures multiset(scan)[x] == if x in ParentsOf(rows) then 1 else 0 {
        DistinctCount(scan, x);
        assert x in scan <==> x in Elements(scan);
      }
    }

    method GetDescendantIds(menuId: int) returns (ids: seq<int>)
      requires !OnCycle(ParentsOf(rows), menuId)
      ensures forall x :: multiset(ids)[x] == if Above(ParentsOf(rows), menuId, x) then 1 else 0
    {
      var scan := ScanRows();
      ids := DescendantIds(ParentsOf(rows), scan, menuId);
      forall x ensures multiset(ids)[x] == if Above(ParentsOf(rows), menuId, x) then 1 else 0 {
        DescendantsExactlyOnce(ParentsOf(rows), scan, menuId, x);
      }
    }

    method GetDescendantIdsBatch(roots: set<int>) returns (ids: seq<int>)
      requires RootsOffCycles(ParentsOf(rows), roots)
      ensures forall x :: x in ids <==> exists r :: r in roots && Above(ParentsOf(rows), r, x)
    {
      var scan := ScanRows();
      ids := DescendantIdsBatch(ParentsOf(rows), scan, roots);
      forall x ensures x in ids <==> exists r :: r in roots && Above(ParentsOf(rows), r, x) {
        BatchIsUnion(ParentsOf(rows), scan, roots, x);
      }
    }

    method CheckHasDescendants(menuId: int) returns (found: bool)
      requires !OnCycle(ParentsOf(rows), menuId)
      ensures found <==> exists c :: HasParent(ParentsOf(rows), c, menuId) && menuId in rows
    {
      var scan := ScanRows();
      found := HasDescendants(ParentsOf(rows), scan, menuId);
      if menuId in rows {
        HasDescendantsExact(ParentsOf(rows), scan, menuId);
      } else {
        assert Level(ParentsOf(rows), scan, [], 0) == [];
      }
    }
  }

  // ---- Facts about the statements

  ghost predicate CountsFrom(created: seq<Row>, first: int) {
    forall i | 0 <= i < |created| :: created[i].id == first + i
  }

  lemma {:induction false} StoredNumbers(t: Table, first: int, created: seq<Row>)
    requires Numbered(t, first) && CountsFrom(created, first)
    ensures Numbered(StoreAll(t, created), first + |created|)
  {
    if created != [] {
      StoredNumbers(t, first, created[..|created| - 1]);
    }
  }

  /** Row by row, what an insert stores: each draft under its own next id, and every other row as it was. */
  lemma {:induction false} StoredExactly(t: Table, first: int, created: seq<Row>, id: int)
    requires CountsFrom(created, first)
    ensures var t' := StoreAll(t, created);
            if first <= id < first + |created| then id in t' && t'[id] == created[id - first]
            else (id in t' <==> id in t) && (id in t ==> t'[id] == t[id])
  {
    if created != [] {
      StoredExactly(t, first, created[..|created| - 1], id);
    }
  }

  ghost predicate CodeFree(t: Table, code: string) {
    forall id | id in t :: t[id].code != code
  }

  /** A row with a fresh id, a new code and a stored parent can always be inserted. */
  lemma InsertableRow(t: Table, r: Row)
    requires Consistent(t) && r.id !in t && CodeFree(t, r.code)
    requires r.parent.Some? ==> r.parent.value in t
    ensures Consistent(t[r.id := r])
  {
  }

  /** What is known row by row determines the table. */
  lemma WentOffline(t: Table, ids: set<int>, now: int, t': Table)
    requires t'.Keys == t.Keys
    requires forall id | id in ids && id in t' :: t'[id] == t[id].(active := false, synced := Some(now))
    requires forall id | id !in ids && id in t' :: t'[id] == t[id]
    ensures t' == SoftDeleted(t, ids, now)
  {
    assert SoftDeleted(t, ids, now).Keys == t.Keys;
    forall id | id in t ensures t'[id] == SoftDeleted(t, ids, now)[id] {
      if id in ids {
        assert t'[id] == t[id].(active := false, synced := Some(now));
      }
    }
  }

  lemma SoftDeletedFacts(t: Table, nextId: int, ids: set<int>, now: int)
    requires Consistent(t) && Numbered(t, nextId)
    ensures var t' := SoftDeleted(t, ids, now);
            && t'.Keys == t.Keys && Consistent(t') && Numbered(t', nextId)
            && ParentsOf(t') == ParentsOf(t) && ActiveIds(t') == ActiveIds(t) - ids
    ensures |ids * t.Keys| == |t.Keys| - |t.Keys - ids|
  {
    assert SoftDeleted(t, ids, now).Keys == t.Keys;
    assert ids * t.Keys + (t.Keys - ids) == t.Keys;
  }

  ghost predicate Keeps(t: Table, t': Table) {
    forall id | id in t :: id in t' && t'[id] == t[id]
  }

  ghost predicate KeepsParents(t: Table, t': Table) {
    forall id | id in t :: id in t' && t'[id].parent == t[id].parent
  }

  lemma ParentsClosed(t: Table)
    requires ParentsStored(t)
    ensures Closed(ParentsOf(t))
  {
    var f := ParentsOf(t);
    forall x | x in f && f[x].Some? ensures f[x].value in f {
      assert t[x].parent.Some?;
    }
  }

  lemma ParentsKept(t: Table, t': Table)
    requires KeepsParents(t, t')
    ensures Part(ParentsOf(t), ParentsOf(t'))
  {
  }
}
