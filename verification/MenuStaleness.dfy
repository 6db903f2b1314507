/** When a cached tree is still right for a database that has changed since, exactly. */
module MenuStaleness {
  import opened Prelude
  import opened Permissions
  import opened PermissionSync
  import opened MenuTree
  import opened MenuCache
  import opened MenuTreeService

  ghost predicate ShowsButton(db: Db, user: int, app: string, code: string) {
    exists id :: VisibleButton(db, user, app, id, code)
  }

  /** Some button code or menu item is shown to the user from one of the databases only. */
  ghost predicate ShowsOtherwise(a: Db, b: Db, user: int, app: string) {
    || (exists c {:trigger ShowsButton(a, user, app, c)} :: ShowsButton(a, user, app, c) != ShowsButton(b, user, app, c))
    || (exists v {:trigger ShownItem(a, user, app, v)} :: ShownItem(a, user, app, v) != ShownItem(b, user, app, v))
  }

  // ---- Another shown button or item makes another tree

  lemma SharedTreeShowsSame(data: MenuData, a: Db, b: Db, user: int, app: string)
    requires KeyedById(a.perms) && KeyedById(b.perms)
    requires BuiltFrom(data, a, user, app) && BuiltFrom(data, b, user, app)
    ensures !ShowsOtherwise(a, b, user, app)
  {
    forall c ensures ShowsButton(a, user, app, c) == ShowsButton(b, user, app, c) {
      ServedButtons(data, a, user, app, c);
      ServedButtons(data, b, user, app, c);
    }
    forall v ensures ShownItem(a, user, app, v) == ShownItem(b, user, app, v) {
      ServedExactly(data, a, user, app, v);
      ServedExactly(data, b, user, app, v);
    }
  }

  // ---- The same shown buttons and items allow the same tree

  /** The rows of the table under the ids of the list, in the order of the list. */
  function Restored(rows: seq<Row>, perms: Table): (restored: seq<Row>)
    requires forall i | 0 <= i < |rows| :: rows[i].id in perms
    ensures |restored| == |rows| && forall i | 0 <= i < |rows| :: restored[i] == perms[rows[i].id]
  {
    seq(|rows|, i requires 0 <= i < |rows| => perms[rows[i].id])
  }

  /** The core is a correct beginning of an answer from b: rows of b, distinct, sorted, all of them menu rows. */
  ghost predicate Begins(core: seq<Row>, db: Db, user: int, app: string) {
    && DistinctIds(core) && Sorted(core) && Lists(core, db.perms, IdsOf(core))
    && forall r {:trigger r in core} | r in core :: VisibleMenu(db, user, app, r.id)
  }

  ghost predicate AllShown(core: seq<Row>, db: Db, user: int, app: string) {
    forall i {:trigger core[i]} | 0 <= i < |core| :: ShownItem(db, user, app, ItemOf(core[i]))
  }

  lemma RestoredRow(core: seq<Row>, db: Db, user: int, app: string, i: nat)
    requires KeyedById(db.perms) && AllShown(core, db, user, app) && i < |core|
    ensures var r := core[i];
            && r.id in db.perms && ItemOf(db.perms[r.id]) == ItemOf(r) && VisibleMenu(db, user, app, r.id)
            && db.perms[r.id].fields.sort == r.fields.sort && db.perms[r.id].id == r.id
  {
    var r := core[i];
    assert ShownItem(db, user, app, ItemOf(r));
    assert ItemOf(db.perms[r.id]).order == ItemOf(r).order;
  }

  lemma RestoredItems(core: seq<Row>, db: Db, user: int, app: string)
    requires KeyedById(db.perms) && AllShown(core, db, user, app)
    ensures forall i | 0 <= i < |core| :: core[i].id in db.perms
    ensures SameItems(core, Restored(core, db.perms))
  {
    forall i | 0 <= i < |core| ensures core[i].id in db.perms && ItemOf(db.perms[core[i].id]) == ItemOf(core[i]) {
      RestoredRow(core, db, user, app, i);
    }
  }

  lemma RestoredBegins(core: seq<Row>, db: Db, user: int, app: string)
    requires KeyedById(db.perms) && AllShown(core, db, user, app) && DistinctIds(core) && Sorted(core)
    requires forall i | 0 <= i < |core| :: core[i].id in db.perms
    ensures Begins(Restored(core, db.perms), db, user, app)
  {
    var rows := Restored(core, db.perms);
    forall i | 0 <= i < |rows|
      ensures rows[i].id == core[i].id && rows[i].fields.sort == core[i].fields.sort
              && VisibleMenu(db, user, app, rows[i].id) && rows[i] == db.perms[rows[i].id]
    {
      RestoredRow(core, db, user, app, i);
    }
  }

  lemma {:induction false} InsertOutside(rows: seq<Row>, r: Row, g: set<int>)
    requires r.id !in g
    ensures Granted(InsertBySort(rows, r), g) == Granted(rows, g)
  {
    if rows == [] {
      assert rows + [r] == [r];
      GrantedLast(rows, r, g);
    } else {
      var last := |rows| - 1;
      if rows[last].fields.sort <= r.fields.sort {
        GrantedLast(rows, r, g);
      } else {
        InsertOutside(rows[..last], r, g);
        GrantedLast(InsertBySort(rows[..last], r), rows[last], g);
      }
    }
  }

  /** A part of the answer: the rows under these ids, with the core in its order. */
  ghost predicate PartAnswer(rows: seq<Row>, perms: Table, ids: set<int>, g: set<int>, core: seq<Row>) {
    DistinctIds(rows) && Sorted(rows) && Lists(rows, perms, ids) && Granted(rows, g) == core
  }

  lemma {:induction false} FillUp(rows: seq<Row>, perms: Table, ids: set<int>, rest: set<int>, g: set<int>, core: seq<Row>)
      returns (full: seq<Row>)
    requires KeyedById(perms) && PartAnswer(rows, perms, ids, g, core)
    requires rest <= perms.Keys && rest !! ids && rest !! g
    ensures PartAnswer(full, perms, ids + rest, g, core)
    decreases rest
  {
    if id :| id in rest {
      OneMoreListed(rows, perms, ids, id);
      InsertOutside(rows, perms[id], g);
      full := FillUp(InsertBySort(rows, perms[id]), perms, ids + {id}, rest - {id}, g, core);
      assert ids + {id} + (rest - {id}) == ids + rest;
    } else {
      full := rows;
      forall x ensures x in ids + rest <==> x in ids {
      }
    }
  }

  lemma {:induction false} AllGranted(rows: seq<Row>, g: set<int>)
    requires IdsOf(rows) <= g
    ensures Granted(rows, g) == rows
  {
    if rows != [] {
      var last := |rows| - 1;
      assert rows[last].id in IdsOf(rows);
      forall id | id in IdsOf(rows[..last]) ensures id in g {
        var r :| r in rows[..last] && r.id == id;
        InPrefix(rows, last, r);
        assert r.id in IdsOf(rows);
      }
      AllGranted(rows[..last], g);
    }
  }

  /** Rows of b that begin an answer can be completed to one without changing their order. */
  lemma Completed(core: seq<Row>, db: Db, user: int, app: string) returns (rows: seq<Row>)
    requires KeyedById(db.perms) && Begins(core, db, user, app)
    ensures Answers(rows, db, user, app) && Granted(rows, IdsOf(core)) == core
  {
    var ids, all := IdsOf(core), VisibleIds(db, user, app);
    AllGranted(core, ids);
    rows := FillUp(core, db.perms, ids, all - ids, ids, core);
    assert ids <= all;
    assert ids + (all - ids) == all;
  }

  lemma {:induction false} MenuOnly(rows: seq<Row>)
    requires forall r | r in rows :: IsMenu(r)
    ensures MenuRows(rows) == rows
  {
    if rows != [] {
      var last := |rows| - 1;
      assert rows[last] in rows;
      forall r | r in rows[..last] ensures IsMenu(r) {
        InPrefix(rows, last, r);
      }
      MenuOnly(rows[..last]);
    }
  }

  /** The rows of an answer that reach a root: menu rows in sorted order, showing exactly the shown items. */
  ghost function Core(rows: seq<Row>): seq<Row>
    requires DistinctIds(rows) && DistinctIds(MenuRows(rows))
  {
    Granted(rows, Reaching(MenuRows(rows)))
  }

  lemma CoreFacts(rows: seq<Row>, db: Db, user: int, app: string)
    requires KeyedById(db.perms) && Answers(rows, db, user, app)
    ensures DistinctIds(MenuRows(rows)) && DistinctIds(Core(rows)) && Sorted(Core(rows))
    ensures MenuRows(Core(rows)) == Core(rows) && AllShown(Core(rows), db, user, app)
    ensures forall v | ShownItem(db, user, app, v) :: v.id in IdsOf(Core(rows))
  {
    AnswerIsForest(rows, db, user, app);
    var g := Reaching(MenuRows(rows));
    GrantedDistinct(rows, g);
    GrantedSorted(rows, g);
    GrantedMembers(rows, g);
    forall r | r in Core(rows) ensures IsMenu(r) && ShownItem(db, user, app, ItemOf(r)) {
      CoreRow(rows, db, user, app, r);
    }
    MenuOnly(Core(rows));
    forall v | ShownItem(db, user, app, v) ensures v.id in IdsOf(Core(rows)) {
      assert db.perms[v.id] in rows;
      assert db.perms[v.id] in Core(rows);
    }
  }

  lemma CoreRow(rows: seq<Row>, db: Db, user: int, app: string, r: Row)
    requires KeyedById(db.perms) && Answers(rows, db, user, app) && DistinctIds(MenuRows(rows))
    requires MenuForest(MenuRows(rows)) == VisibleForest(db, user, app)
    requires r in rows && r.id in Reaching(MenuRows(rows))
    ensures IsMenu(r) && ShownItem(db, user, app, ItemOf(r))
  {
    assert r.id in VisibleForest(db, user, app);
  }

  lemma CoreTree(rows: seq<Row>)
    requires DistinctIds(rows) && DistinctIds(MenuRows(rows))
    ensures DistinctIds(Core(rows)) && MenuTreeOf(Core(rows)) == MenuTreeOf(rows)
  {
    TreeOfReaching(rows);
  }

  /** The ids that reach a root are those of the shown items. */
  lemma ReachingIsShown(rows: seq<Row>, db: Db, user: int, app: string, id: int)
    requires KeyedById(db.perms) && Answers(rows, db, user, app)
    ensures DistinctIds(MenuRows(rows))
    ensures id in Reaching(MenuRows(rows)) <==> exists v :: ShownItem(db, user, app, v) && v.id == id
  {
    AnswerIsForest(rows, db, user, app);
    if id in Reaching(MenuRows(rows)) {
      assert id in VisibleForest(db, user, app);
      assert ShownItem(db, user, app, ItemOf(db.perms[id]));
    }
  }

  lemma SameReaching(rows: seq<Row>, full: seq<Row>, a: Db, b: Db, user: int, app: string)
    requires KeyedById(a.perms) && KeyedById(b.perms) && !ShowsOtherwise(a, b, user, app)
    requires Answers(rows, a, user, app) && Answers(full, b, user, app)
    ensures DistinctIds(MenuRows(rows)) && DistinctIds(MenuRows(full))
    ensures Reaching(MenuRows(full)) == Reaching(MenuRows(rows))
  {
    AnswerIds(rows, a, user, app);
    AnswerIds(full, b, user, app);
    forall id ensures id in Reaching(MenuRows(full)) <==> id in Reaching(MenuRows(rows)) {
      ReachingIsShown(rows, a, user, app, id);
      ReachingIsShown(full, b, user, app, id);
      forall v ensures ShownItem(a, user, app, v) == ShownItem(b, user, app, v) {
      }
    }
  }

  lemma CoreIds(rows: seq<Row>)
    requires DistinctIds(rows) && DistinctIds(MenuRows(rows))
    ensures IdsOf(Core(rows)) == Reaching(MenuRows(rows))
  {
    GrantedMembers(rows, Reaching(MenuRows(rows)));
    MenuRowsMembers(rows);
    forall id | id in Reaching(MenuRows(rows)) ensures id in IdsOf(Core(rows)) {
      assert id in MenuForest(MenuRows(rows));
      var r :| r in MenuRows(rows) && r.id == id;
      assert r in Core(rows);
    }
  }

  /** Completing the restored core of an answer from a gives an answer from b with the same tree. */
  lemma AnswerRebuilt(rows: seq<Row>, a: Db, b: Db, user: int, app: string) returns (full: seq<Row>)
    requires KeyedById(a.perms) && KeyedById(b.perms) && !ShowsOtherwise(a, b, user, app)
    requires Answers(rows, a, user, app)
    ensures Answers(full, b, user, app) && MenuTreeOf(full) == MenuTreeOf(rows)
  {
    CoreFacts(rows, a, user, app);
    var core := Core(rows);
    assert AllShown(core, b, user, app);
    RestoredItems(core, b, user, app);
    RestoredBegins(core, b, user, app);
    var restored := Restored(core, b.perms);
    full := Completed(restored, b, user, app);
    SameReaching(rows, full, a, b, user, app);
    CoreIds(rows);
    SameItemsIds(core, restored);
    RestoredTree(rows, full, core, restored, b, user, app);
  }

  lemma RestoredTree(rows: seq<Row>, full: seq<Row>, core: seq<Row>, restored: seq<Row>, db: Db, user: int, app: string)
    requires DistinctIds(rows) && DistinctIds(MenuRows(rows)) && DistinctIds(full) && DistinctIds(MenuRows(full))
    requires core == Core(rows) && restored == Core(full) && MenuRows(core) == core
    requires SameItems(core, restored) && Begins(restored, db, user, app)
    ensures MenuTreeOf(full) == MenuTreeOf(rows)
  {
    CoreTree(rows);
    CoreTree(full);
    MenuOnlyRestored(restored, db, user, app);
    SameItemsSameTree(core, restored);
  }

  lemma MenuOnlyRestored(core: seq<Row>, db: Db, user: int, app: string)
    requires Begins(core, db, user, app)
    ensures MenuRows(core) == core
  {
    forall r | r in core ensures IsMenu(r) {
      assert VisibleMenu(db, user, app, r.id);
    }
    MenuOnly(core);
  }

  lemma Rebuilt(data: MenuData, a: Db, b: Db, user: int, app: string)
    requires KeyedById(a.perms) && KeyedById(b.perms) && !ShowsOtherwise(a, b, user, app)
    requires BuiltFrom(data, a, user, app)
    ensures BuiltFrom(data, b, user, app)
  {
    var rows :| Answers(rows, a, user, app) && data == MenuData(MenuTreeOf(rows), ButtonCodes(rows));
    var full := AnswerRebuilt(rows, a, b, user, app);
    var built := MenuData(MenuTreeOf(full), ButtonCodes(full));
    assert BuiltFrom(built, b, user, app);
    forall c ensures c in built.buttons <==> c in data.buttons {
      ServedButtons(built, b, user, app, c);
      ServedButtons(data, a, user, app, c);
      assert ShowsButton(a, user, app, c) == ShowsButton(b, user, app, c);
    }
    assert built.buttons == data.buttons;
  }

  // ---- Exactly

  /** A tree built from one database is a build of another if and only if both show the user the same buttons and items. */
  lemma StillRight(data: MenuData, before: Db, db: Db, user: int, app: string)
    requires KeyedById(before.perms) && KeyedById(db.perms) && BuiltFrom(data, before, user, app)
    ensures BuiltFrom(data, db, user, app) <==> !ShowsOtherwise(before, db, user, app)
  {
    if BuiltFrom(data, db, user, app) {
      SharedTreeShowsSame(data, before, db, user, app);
    }
    if !ShowsOtherwise(before, db, user, app) {
      Rebuilt(data, before, db, user, app);
    }
  }

  /**
   The first read after a change with eviction is right for the new database if and only if no tree
   is cached, or the eviction reaches the user, or the new database shows the user the same buttons
   and items as the one the cached tree was built from.
   */
  lemma StaleExactly(s: State, db: Db, app: string, s1: State, read: Event, s2: State, before: Db)
    requires Next(s, Change(db, Some(app)), s1) && read.Read? && read.app == app && Next(s1, read, s2)
    requires KeyedById(before.perms) && KeyedById(db.perms)
    requires CacheKey(read.user, app) in s.cache ==>
               BuiltFrom(s.cache[CacheKey(read.user, app)].data, before, read.user, app)
    ensures BuiltFrom(read.data, db, read.user, app) <==>
              || CacheKey(read.user, app) !in s.cache || EvictedUser(db, app, read.user)
              || !ShowsOtherwise(before, db, read.user, app)
  {
    if CacheKey(read.user, app) in s.cache && !EvictedUser(db, app, read.user) {
      StillRight(s.cache[CacheKey(read.user, app)].data, before, db, read.user, app);
    }
  }

  // ---- What the condition comes to

  /** Without cycles every visible menu item is shown. */
  lemma VisibleIsShown(db: Db, user: int, app: string, v: MenuItem)
    requires SoundForest(db.perms)
    ensures ShownItem(db, user, app, v) <==> VisibleItem(db, user, app, v)
  {
    var rows := Completed([], db, user, app);
    var data := MenuData(MenuTreeOf(rows), ButtonCodes(rows));
    assert BuiltFrom(data, db, user, app);
    ServedItems(data, db, user, app, v);
    ServedExactly(data, db, user, app, v);
  }

  /** A change of timestamps alone shows nobody anything else, so every tree that was right stays right. */
  lemma RestampingShowsSame(a: Db, b: Db, user: int, app: string)
    requires a.access == b.access && a.perms.Keys == b.perms.Keys
    requires forall id | id in a.perms :: Untimed(a.perms[id]) == Untimed(b.perms[id])
    ensures !ShowsOtherwise(a, b, user, app)
  {
    forall id ensures Visible(a, user, app, id) == Visible(b, user, app, id)
              ensures Visible(a, user, app, id) ==> SameButForTime(a.perms[id], b.perms[id]) {
      if id in a.perms {
        assert Untimed(a.perms[id]) == Untimed(b.perms[id]);
      }
    }
    SameRowsShowSame(a, b, user, app);
  }

  lemma SameRowsShowSame(a: Db, b: Db, user: int, app: string)
    requires forall id :: Visible(a, user, app, id) == Visible(b, user, app, id)
    requires forall id ::
               Visible(a, user, app, id) && Visible(b, user, app, id) ==> SameButForTime(a.perms[id], b.perms[id])
    ensures !ShowsOtherwise(a, b, user, app)
  {
    forall c ensures ShowsButton(a, user, app, c) == ShowsButton(b, user, app, c) {
      forall id ensures VisibleButton(a, user, app, id, c) == VisibleButton(b, user, app, id, c) {
      }
    }
    assert VisibleMenuIds(a, user, app) == VisibleMenuIds(b, user, app);
    assert VisibleForest(a, user, app) == VisibleForest(b, user, app);
    forall v ensures ShownItem(a, user, app, v) == ShownItem(b, user, app, v) {
      assert VisibleItem(a, user, app, v) == VisibleItem(b, user, app, v);
    }
  }

  ghost predicate SameButForTime(r: Row, q: Row) {
    ItemOf(r) == ItemOf(q) && r.parent == q.parent && r.code == q.code && r.fields == q.fields
  }
}
