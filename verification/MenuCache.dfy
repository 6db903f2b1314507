/**
 The menu tree that a user is served: the rows the user may see, the nested tree built from them,
 the five-minute cache in front of it and the eviction after a change.
 */
module MenuCache {
  import opened Prelude
  import opened Manifest
  import opened Permissions
  import opened MenuTree
  import opened PermissionSync
  import RoleSync
  import Forest

  const MENU_TREE_CACHE_TTL := 300
  const SUPER_ADMIN_ROLE_CODE := "super_admin"

  datatype MenuData = MenuData(menuTree: seq<Tree>, buttons: set<string>)
  datatype Db = Db(perms: Table, access: RoleSync.RoleDb)
  datatype CacheKey = CacheKey(user: int, app: string)
  datatype Cached = Cached(data: MenuData, until: int)
  datatype State = State(now: int, db: Db, cache: map<CacheKey, Cached>)

  // ---- What a user may see

  /** The user holds this role. */
  predicate Holds(access: RoleSync.RoleDb, user: int, role: int) {
    role in access.roles && RoleSync.Holding(user, role) in access.holders
  }

  predicate IsSuperAdmin(access: RoleSync.RoleDb, user: int, app: string) {
    exists r | r in access.roles ::
      Holds(access, user, r) && access.roles[r].app == app && access.roles[r].code == SUPER_ADMIN_ROLE_CODE
  }

  /** Some role of the user is linked to the permission. The role need not belong to the permission's app. */
  predicate HasLink(access: RoleSync.RoleDb, user: int, id: int) {
    exists r | r in access.roles :: Holds(access, user, r) && id in RoleSync.LinksOf(access, r)
  }

  predicate Visible(db: Db, user: int, app: string, id: int) {
    RoleSync.Usable(db.perms, app, id) && (IsSuperAdmin(db.access, user, app) || HasLink(db.access, user, id))
  }

  ghost predicate Lists(rows: seq<Row>, perms: Table, ids: set<int>) {
    forall r :: r in rows <==> r.id in ids && r.id in perms && r == perms[r.id]
  }

  function VisibleIds(db: Db, user: int, app: string): set<int> {
    set id | id in db.perms && Visible(db, user, app, id)
  }

  /** An answer to the query: each visible row once, by ascending sort, equal sorts in any order. */
  ghost predicate Answers(rows: seq<Row>, db: Db, user: int, app: string) {
    DistinctIds(rows) && Sorted(rows) && Lists(rows, db.perms, VisibleIds(db, user, app))
  }

  /** The data is what a build from this database gives the user. */
  ghost predicate BuiltFrom(data: MenuData, db: Db, user: int, app: string) {
    exists rows :: Answers(rows, db, user, app) && data == MenuData(MenuTreeOf(rows), ButtonCodes(rows))
  }

  /** Users the eviction reaches: holders of a role linked to any permission of the app, active or not. */
  predicate EvictedUser(db: Db, app: string, user: int) {
    exists id | id in db.perms :: db.perms[id].app == app && HasLink(db.access, user, id)
  }

  function EvictedKeys(db: Db, app: string, keys: set<CacheKey>): set<CacheKey> {
    set k | k in keys && k.app == app && EvictedUser(db, app, k.user)
  }

  // ---- Runs

  datatype Event =
    | Read(user: int, app: string, data: MenuData)
    | Change(db: Db, evicts: Option<string>)
    | Tick(d: nat)

  ghost predicate Reads(s: State, e: Event, s': State)
    requires e.Read?
  {
    var k := CacheKey(e.user, e.app);
    if k in s.cache then
      e.data == s.cache[k].data && s' == s
    else
      && BuiltFrom(e.data, s.db, e.user, e.app)
      && s' == s.(cache := s.cache[k := Cached(e.data, s.now + MENU_TREE_CACHE_TTL)])
  }

  function Evicted(s: State, app: string): State {
    s.(cache := s.cache - EvictedKeys(s.db, app, s.cache.Keys))
  }

  function Changed(s: State, db: Db, evicts: Option<string>): State {
    if evicts.Some? then Evicted(s.(db := db), evicts.value) else s.(db := db)
  }

  function Elapsed(s: State, d: nat): State {
    State(s.now + d, s.db, map k | k in s.cache && s.now + d < s.cache[k].until :: s.cache[k])
  }

  /** One request: a served read, any change of the database with or without eviction, or time passing. */
  ghost predicate Next(s: State, e: Event, s': State) {
    match e
    case Read(_, _, _) => Reads(s, e, s')
    case Change(db, evicts) => s' == Changed(s, db, evicts)
    case Tick(d) => s' == Elapsed(s, d)
  }

  ghost predicate IsTrace(states: seq<State>, events: seq<Event>) {
    |states| == |events| + 1 && forall i | 0 <= i < |events| :: Next(states[i], events[i], states[i + 1])
  }

  /** The data was built from the database of some state up to index k at time t. */
  ghost predicate BuiltAt(states: seq<State>, k: nat, data: MenuData, user: int, app: string, t: int) {
    exists j :: 0 <= j <= k < |states| && states[j].now == t && BuiltFrom(data, states[j].db, user, app)
  }

  ghost predicate Recent(states: seq<State>, k: nat, key: CacheKey)
    requires k < |states| && key in states[k].cache
  {
    var c := states[k].cache[key];
    && states[k].now < c.until <= states[k].now + MENU_TREE_CACHE_TTL
    && BuiltAt(states, k, c.data, key.user, key.app, c.until - MENU_TREE_CACHE_TTL)
  }

  ghost predicate AllRecent(states: seq<State>, k: nat)
    requires k < |states|
  {
    forall key {:trigger key in states[k].cache} | key in states[k].cache :: Recent(states, k, key)
  }

  lemma StillBuilt(states: seq<State>, k: nat, data: MenuData, user: int, app: string, t: int)
    requires k + 1 < |states| && BuiltAt(states, k, data, user, app, t)
    ensures BuiltAt(states, k + 1, data, user, app, t)
  {
  }

  lemma StillRecent(states: seq<State>, k: nat, key: CacheKey)
    requires k + 1 < |states| && key in states[k].cache && Recent(states, k, key)
    requires key in states[k + 1].cache && states[k + 1].cache[key] == states[k].cache[key]
    requires states[k].now <= states[k + 1].now < states[k].cache[key].until
    ensures Recent(states, k + 1, key)
  {
    var c := states[k].cache[key];
    StillBuilt(states, k, c.data, key.user, key.app, c.until - MENU_TREE_CACHE_TTL);
  }

  lemma JustRecent(states: seq<State>, k: nat, e: Event)
    requires k + 1 < |states| && e.Read? && Next(states[k], e, states[k + 1])
    requires CacheKey(e.user, e.app) !in states[k].cache
    ensures CacheKey(e.user, e.app) in states[k + 1].cache && Recent(states, k + 1, CacheKey(e.user, e.app))
  {
    assert BuiltFrom(e.data, states[k].db, e.user, e.app);
    assert BuiltAt(states, k + 1, e.data, e.user, e.app, states[k].now);
  }

  lemma EntryAfter(s: State, e: Event, s': State, key: CacheKey)
    requires Next(s, e, s') && key in s'.cache
    ensures key in s.cache ==>
              s'.cache[key] == s.cache[key] && s.now <= s'.now && (s.now < s.cache[key].until ==> s'.now < s.cache[key].until)
    ensures key !in s.cache ==> e.Read? && key == CacheKey(e.user, e.app)
  {
  }

  lemma StepRecent(states: seq<State>, events: seq<Event>, k: nat)
    requires IsTrace(states, events) && k < |events| && AllRecent(states, k)
    ensures AllRecent(states, k + 1)
  {
    assert Next(states[k], events[k], states[k + 1]);
    var s' := states[k + 1];
    forall key | key in s'.cache ensures Recent(states, k + 1, key) {
      EntryAfter(states[k], events[k], s', key);
      if key in states[k].cache {
        StillRecent(states, k, key);
      } else {
        JustRecent(states, k, events[k]);
      }
    }
  }

  lemma {:induction false} TraceRecent(states: seq<State>, events: seq<Event>, k: nat)
    requires IsTrace(states, events) && states[0].cache == map[] && k < |states|
    ensures AllRecent(states, k)
  {
    if k != 0 {
      TraceRecent(states, events, k - 1);
      StepRecent(states, events, k - 1);
    }
  }

  /** Whatever is served was built from the database as it stood at some moment of the preceding 300 seconds. */
  lemma ServedIsRecent(states: seq<State>, events: seq<Event>, k: nat)
    requires IsTrace(states, events) && states[0].cache == map[] && k < |events| && events[k].Read?
    ensures exists j :: 0 <= j <= k && states[k].now - 300 < states[j].now <= states[k].now
                        && BuiltFrom(events[k].data, states[j].db, events[k].user, events[k].app)
  {
    TraceRecent(states, events, k);
    assert Next(states[k], events[k], states[k + 1]);
    var key := CacheKey(events[k].user, events[k].app);
    if key in states[k].cache {
      assert Recent(states, k, key);
    }
  }

  // ---- Eviction

  /** Between the eviction at i and the read at k nobody read this user's tree of this app. */
  ghost predicate FirstRead(events: seq<Event>, i: nat, k: nat, user: int, app: string) {
    forall j | i < j < k < |events| :: !(events[j].Read? && events[j].user == user && events[j].app == app)
  }

  lemma {:induction false} StaysUncached(states: seq<State>, events: seq<Event>, i: nat, k: nat, user: int, app: string)
    requires IsTrace(states, events) && i < k < |events| && FirstRead(events, i, k, user, app)
    requires CacheKey(user, app) !in states[i + 1].cache
    ensures CacheKey(user, app) !in states[k].cache
  {
    if k != i + 1 {
      StaysUncached(states, events, i, k - 1, user, app);
      assert Next(states[k - 1], events[k - 1], states[k]);
    }
  }

  /** The first read of an evicted user after the change is a fresh build from the database at that moment. */
  lemma FirstReadIsFresh(states: seq<State>, events: seq<Event>, i: nat, k: nat, user: int, app: string)
    requires IsTrace(states, events) && i < k < |events| && FirstRead(events, i, k, user, app)
    requires events[i].Change? && events[i].evicts == Some(app) && EvictedUser(events[i].db, app, user)
    requires events[k].Read? && events[k].user == user && events[k].app == app
    ensures BuiltFrom(events[k].data, states[k].db, user, app)
  {
    assert Next(states[i], events[i], states[i + 1]);
    StaysUncached(states, events, i, k, user, app);
    assert Next(states[k], events[k], states[k + 1]);
  }

  /** After a sync the eviction reaches every user, super admins apart, who saw a row of the app before it or sees one now. */
  lemma SyncReachesItsUsers(before: Db, db: Db, app: string, m: Items, now: int, later: int, ids: Index, user: int, id: int)
    requires SyncedBy(before.perms, app, m, now, later, ids, db.perms) && before.access == db.access
    requires !IsSuperAdmin(db.access, user, app) && (Visible(before, user, app, id) || Visible(db, user, app, id))
    ensures EvictedUser(db, app, user)
  {
    if id in before.perms {
      assert db.perms[id] == Settled(before.perms, app, m, now, later, id);
    }
    assert HasLink(db.access, user, id);
  }

  /** A role of the user that will link a permission of the app: by its item if it is the app's role, by its links if not. */
  ghost predicate WillLink(before: Db, app: string, m: RoleSync.Items, user: int, role: int)
    requires role in before.access.roles
  {
    && Holds(before.access, user, role)
    && if before.access.roles[role].app == app
       then before.access.roles[role].code in m
            && RoleSync.Targets(before.perms, app, m[before.access.roles[role].code]) != {}
       else exists id :: id in RoleSync.LinksOf(before.access, role) && id in before.perms && before.perms[id].app == app
  }

  /** Exact: after a role sync the eviction reaches a user if and only if the sync leaves the user a link into the app. */
  lemma RoleSyncReachesExactly(before: Db, db: Db, app: string, m: RoleSync.Items, now: int, user: int)
    requires RoleSync.RolesSynced(before.access, before.perms, app, m, now, db.access) && db.perms == before.perms
    requires forall h | h in before.access.holders :: h.role in before.access.roles
    ensures EvictedUser(db, app, user) <==> exists r | r in before.access.roles :: WillLink(before, app, m, user, r)
  {
    if EvictedUser(db, app, user) {
      var id, r := EvictingLink(db, app, user);
      assert RoleSync.Holding(user, r) in before.access.holders;
      RoleSync.LinksAfter(before.access, before.perms, app, m, now, db.access, r);
      assert WillLink(before, app, m, user, r);
    }
    if r :| r in before.access.roles && WillLink(before, app, m, user, r) {
      RoleSync.LinksAfter(before.access, before.perms, app, m, now, db.access, r);
      assert Holds(db.access, user, r);
      var id :| id in RoleSync.LinksOf(db.access, r) && id in db.perms && db.perms[id].app == app;
      assert HasLink(db.access, user, id);
    }
  }

  lemma EvictingLink(db: Db, app: string, user: int) returns (id: int, r: int)
    requires EvictedUser(db, app, user)
    ensures id in db.perms && db.perms[id].app == app
    ensures r in db.access.roles && Holds(db.access, user, r) && id in RoleSync.LinksOf(db.access, r)
  {
    id :| id in db.perms && db.perms[id].app == app && HasLink(db.access, user, id);
    r :| r in db.access.roles && Holds(db.access, user, r) && id in RoleSync.LinksOf(db.access, r);
  }

  /** A role sync that takes the last link of an ordinary user away: the eviction misses the user, who keeps the button. */
  lemma RoleSyncMissesUser(data: MenuData, s': State)
    ensures var clerk := RoleSync.Role(1, "shop", "clerk", "Clerk", Some(9));
            var access := RoleSync.RoleDb(map[1 := clerk], map[1 := {5}], {RoleSync.Holding(7, 1)});
            var synced := RoleSync.RoleDb(map[1 := clerk], map[1 := {}], {RoleSync.Holding(7, 1)});
            var fields := Fields("Export", "F", None, None, false, None, None, 0, true, None);
            var perms: Table := map[5 := Row(5, "shop", "order:export", None, fields, true, None)];
            var m := map["clerk" := RoleSync.RoleItem("clerk", "Clerk", [])];
            var cached := MenuData([], {"order:export"});
            var s := State(0, Db(perms, access), map[CacheKey(7, "shop") := Cached(cached, 300)]);
            && Visible(Db(perms, access), 7, "shop", 5)
            && RoleSync.RolesSynced(access, perms, "shop", m, 9, synced)
            && (Next(Changed(s, Db(perms, synced), Some("shop")), Read(7, "shop", data), s') ==>
                  data == cached && !BuiltFrom(data, Db(perms, synced), 7, "shop"))
  {
    var clerk := RoleSync.Role(1, "shop", "clerk", "Clerk", Some(9));
    var access := RoleSync.RoleDb(map[1 := clerk], map[1 := {5}], {RoleSync.Holding(7, 1)});
    var synced := RoleSync.RoleDb(map[1 := clerk], map[1 := {}], {RoleSync.Holding(7, 1)});
    var fields := Fields("Export", "F", None, None, false, None, None, 0, true, None);
    var perms: Table := map[5 := Row(5, "shop", "order:export", None, fields, true, None)];
    var m := map["clerk" := RoleSync.RoleItem("clerk", "Clerk", [])];
    var db := Db(perms, synced);
    assert Holds(access, 7, 1) && HasLink(access, 7, 5);
    assert RoleSync.Targets(perms, "shop", m["clerk"]) == {};
    assert RoleSync.HasCode(synced, "shop", "clerk");
    assert !IsSuperAdmin(synced, 7, "shop") && !HasLink(synced, 7, 5) && !EvictedUser(db, "shop", 7);
    if BuiltFrom(MenuData([], {"order:export"}), db, 7, "shop") {
      ServedButtons(MenuData([], {"order:export"}), db, 7, "shop", "order:export");
    }
  }

  ghost predicate VisibleButton(db: Db, user: int, app: string, id: int, code: string) {
    Visible(db, user, app, id) && IsButton(db.perms[id]) && db.perms[id].code == code
  }

  /** The served buttons are exactly the codes of the visible button rows. */
  lemma ServedButtons(data: MenuData, db: Db, user: int, app: string, code: string)
    requires BuiltFrom(data, db, user, app) && forall id | id in db.perms :: db.perms[id].id == id
    ensures code in data.buttons <==> exists id :: VisibleButton(db, user, app, id, code)
  {
    var rows :| Answers(rows, db, user, app) && data == MenuData(MenuTreeOf(rows), ButtonCodes(rows));
    if id :| VisibleButton(db, user, app, id, code) {
      assert db.perms[id] in rows;
    }
    if r :| r in rows && IsButton(r) && r.code == code {
      assert VisibleButton(db, user, app, r.id, code);
    }
  }

  /** A super admin sees every row without any link, so no eviction reaches one whose roles link nothing. */
  lemma SuperAdminKeepsStaleTree(data: MenuData, s': State)
    ensures var role := RoleSync.Role(1, "shop", SUPER_ADMIN_ROLE_CODE, "root", None);
            var access := RoleSync.RoleDb(map[1 := role], map[], {RoleSync.Holding(7, 1)});
            var fields := Fields("Export", "F", None, None, false, None, None, 0, true, None);
            var button := Row(5, "shop", "order:export", None, fields, true, None);
            var db := Db(map[5 := button], access);
            var stale := MenuData([], {});
            var s := State(0, Db(map[], access), map[CacheKey(7, "shop") := Cached(stale, 300)]);
            && Visible(db, 7, "shop", 5)
            && (Next(Changed(s, db, Some("shop")), Read(7, "shop", data), s') ==>
                  data == stale && !BuiltFrom(data, db, 7, "shop"))
  {
    var role := RoleSync.Role(1, "shop", SUPER_ADMIN_ROLE_CODE, "root", None);
    var access := RoleSync.RoleDb(map[1 := role], map[], {RoleSync.Holding(7, 1)});
    var fields := Fields("Export", "F", None, None, false, None, None, 0, true, None);
    var button := Row(5, "shop", "order:export", None, fields, true, None);
    var db := Db(map[5 := button], access);
    assert Holds(db.access, 7, 1);
    assert Visible(db, 7, "shop", 5);
    assert !EvictedUser(db, "shop", 7);
    if BuiltFrom(MenuData([], {}), db, 7, "shop") {
      assert VisibleButton(db, 7, "shop", 5, "order:export");
      ServedButtons(MenuData([], {}), db, 7, "shop", "order:export");
    }
  }

  // ---- What is served shows nothing it should not

  lemma ServedIsVisible(data: MenuData, db: Db, user: int, app: string, v: MenuItem)
    requires BuiltFrom(data, db, user, app)
    ensures v in Flatten(data.menuTree) ==>
              v.id in db.perms && Visible(db, user, app, v.id) && v == ItemOf(db.perms[v.id])
  {
    if v in Flatten(data.menuTree) {
      var rows :| Answers(rows, db, user, app) && data == MenuData(MenuTreeOf(rows), ButtonCodes(rows));
      MenuRowsDistinct(rows);
      TreeItemsExact(rows, v);
      assert v in multiset(Flatten(MenuTreeOf(rows)));
      var r :| r in MenuRows(rows) && v == ItemOf(r);
      MenuRowsMembers(rows);
      assert r in rows;
    }
  }

  lemma {:induction false} GrantedSorted(rows: seq<Row>, g: set<int>)
    requires Sorted(rows)
    ensures Sorted(Granted(rows, g))
  {
    if rows != [] {
      var last := |rows| - 1;
      var before := Granted(rows[..last], g);
      GrantedSorted(rows[..last], g);
      GrantedMembers(rows[..last], g);
      forall i | 0 <= i < |before| ensures before[i].fields.sort <= rows[last].fields.sort {
        assert before[i] in before;
        var j :| 0 <= j < last && rows[j] == before[i];
      }
    }
  }

  /** The rows a user is granted, taken from a super admin's answer in that order, answer the user's own query. */
  lemma GrantedAnswers(rows: seq<Row>, db: Db, admin: int, user: int, app: string)
    requires IsSuperAdmin(db.access, admin, app) && Answers(rows, db, admin, app)
    ensures Answers(Granted(rows, VisibleIds(db, user, app)), db, user, app)
  {
    var g := VisibleIds(db, user, app);
    GrantedSorted(rows, g);
    GrantedDistinct(rows, g);
    GrantedMembers(rows, g);
    assert g <= VisibleIds(db, admin, app);
  }

  /**
   When a user's visible menu rows include the menu rows they hang below, the user's tree is the
   super admin's tree cut down to the rows visible to the user.
   */
  lemma UserTreeIsPrunedAdminTree(rows: seq<Row>, db: Db, admin: int, user: int, app: string)
    requires IsSuperAdmin(db.access, admin, app) && Answers(rows, db, admin, app)
    requires ClosedUpward(MenuRows(rows), VisibleIds(db, user, app))
    ensures var g := VisibleIds(db, user, app);
            var codes := ButtonCodes(Granted(rows, g));
            && BuiltFrom(MenuData(MenuTreeOf(rows), ButtonCodes(rows)), db, admin, app)
            && BuiltFrom(MenuData(MenuTree.Pruned(MenuTreeOf(rows), g), codes), db, user, app)
            && codes <= ButtonCodes(rows)
  {
    var g := VisibleIds(db, user, app);
    GrantedAnswers(rows, db, admin, user, app);
    GrantedMembers(rows, g);
    FilterCommutes(rows, g);
  }

  // ---- On a sound table

  /** The table is keyed by id and its parent relation has no cycle. */
  ghost predicate SoundForest(perms: Table) {
    (forall id | id in perms :: perms[id].id == id) && Forest.Acyclic(ParentsOf(perms))
  }

  ghost predicate VisibleMenu(db: Db, user: int, app: string, id: int) {
    Visible(db, user, app, id) && IsMenu(db.perms[id])
  }

  ghost predicate VisibleItem(db: Db, user: int, app: string, v: MenuItem) {
    VisibleMenu(db, user, app, v.id) && v == ItemOf(db.perms[v.id])
  }

  lemma AnswerForest(rows: seq<Row>, db: Db, user: int, app: string)
    requires SoundForest(db.perms) && Answers(rows, db, user, app)
    ensures DistinctIds(MenuRows(rows)) && Forest.Acyclic(MenuForest(MenuRows(rows)))
    ensures forall id :: id in IdsOf(MenuRows(rows)) <==> VisibleMenu(db, user, app, id)
  {
    MenuRowsDistinct(rows);
    MenuRowsMembers(rows);
    MenuForestAcyclic(MenuRows(rows), db.perms);
    forall id ensures id in IdsOf(MenuRows(rows)) <==> VisibleMenu(db, user, app, id) {
      if VisibleMenu(db, user, app, id) {
        assert db.perms[id] in rows;
      }
    }
  }

  /** Every visible menu row is in the tree exactly once, and no other row is. */
  lemma EveryVisibleMenuOnce(data: MenuData, db: Db, user: int, app: string, id: int)
    requires SoundForest(db.perms) && BuiltFrom(data, db, user, app)
    ensures Occurs(data.menuTree, id) == if VisibleMenu(db, user, app, id) then 1 else 0
  {
    var rows :| Answers(rows, db, user, app) && data == MenuData(MenuTreeOf(rows), ButtonCodes(rows));
    AnswerForest(rows, db, user, app);
    TreeHoldsEachRowOnce(rows, id);
    if VisibleMenu(db, user, app, id) {
      var r :| r in MenuRows(rows) && r.id == id;
      AcyclicReachesRoot(MenuRows(rows), r);
    }
  }

  /** The nodes are exactly the items of the visible menu rows. */
  lemma ServedItems(data: MenuData, db: Db, user: int, app: string, v: MenuItem)
    requires SoundForest(db.perms) && BuiltFrom(data, db, user, app)
    ensures v in Flatten(data.menuTree) <==> VisibleItem(db, user, app, v)
  {
    var rows :| Answers(rows, db, user, app) && data == MenuData(MenuTreeOf(rows), ButtonCodes(rows));
    AnswerForest(rows, db, user, app);
    MenuRowsMembers(rows);
    TreeItemsExact(rows, v);
    assert v in Flatten(data.menuTree) <==> v in multiset(Flatten(data.menuTree));
    if VisibleItem(db, user, app, v) {
      var r := db.perms[v.id];
      assert r in rows && r in MenuRows(rows) && v == ItemOf(r);
      AcyclicReachesRoot(MenuRows(rows), r);
    }
  }

  // ---- On any table

  ghost predicate KeyedById(perms: Table) {
    forall id | id in perms :: perms[id].id == id
  }

  ghost function VisibleMenuIds(db: Db, user: int, app: string): set<int> {
    set id | id in db.perms && VisibleMenu(db, user, app, id)
  }

  /** The parent relation among the menu rows a user may see. */
  ghost function VisibleForest(db: Db, user: int, app: string): Forest.Parents<int> {
    map id | id in VisibleMenuIds(db, user, app) :: ParentNode(VisibleMenuIds(db, user, app), db.perms[id])
  }

  /** A visible menu item whose chain of visible parents ends. Without cycles that is every visible one. */
  ghost predicate ShownItem(db: Db, user: int, app: string, v: MenuItem) {
    VisibleItem(db, user, app, v) && ReachesRoot(VisibleForest(db, user, app), v.id)
  }

  lemma AnswerIds(rows: seq<Row>, db: Db, user: int, app: string)
    requires KeyedById(db.perms) && Answers(rows, db, user, app)
    ensures DistinctIds(MenuRows(rows))
    ensures IdsOf(MenuRows(rows)) == VisibleMenuIds(db, user, app)
  {
    MenuRowsDistinct(rows);
    MenuRowsMembers(rows);
    forall id ensures id in IdsOf(MenuRows(rows)) <==> id in VisibleMenuIds(db, user, app) {
      if id in VisibleMenuIds(db, user, app) {
        assert db.perms[id] in rows;
      }
    }
  }

  lemma AnswerRow(rows: seq<Row>, db: Db, user: int, app: string, id: int) returns (r: Row)
    requires Answers(rows, db, user, app) && id in IdsOf(MenuRows(rows))
    ensures r in MenuRows(rows) && r.id == id && id in db.perms && db.perms[id] == r
  {
    MenuRowsMembers(rows);
    r :| r in MenuRows(rows) && r.id == id;
    assert r in rows;
  }

  lemma AnswerParent(rows: seq<Row>, db: Db, user: int, app: string, id: int)
    requires Answers(rows, db, user, app) && DistinctIds(MenuRows(rows)) && id in IdsOf(MenuRows(rows))
    requires IdsOf(MenuRows(rows)) == VisibleMenuIds(db, user, app)
    ensures MenuForest(MenuRows(rows))[id] == VisibleForest(db, user, app)[id]
  {
    var r := AnswerRow(rows, db, user, app, id);
    assert MenuForest(MenuRows(rows))[r.id] == ParentNode(IdsOf(MenuRows(rows)), r);
  }

  lemma SameMap(f: Forest.Parents<int>, g: Forest.Parents<int>, ids: set<int>)
    requires f.Keys == ids && g.Keys == ids && forall id | id in ids :: f[id] == g[id]
    ensures f == g
  {
    forall id | id in f ensures id in g && f[id] == g[id] {
      assert id in f.Keys;
    }
    forall id | id in g ensures id in f {
      assert id in g.Keys;
    }
  }

  lemma AnswerIsForest(rows: seq<Row>, db: Db, user: int, app: string)
    requires KeyedById(db.perms) && Answers(rows, db, user, app)
    ensures DistinctIds(MenuRows(rows)) && MenuForest(MenuRows(rows)) == VisibleForest(db, user, app)
  {
    AnswerIds(rows, db, user, app);
    var ids := IdsOf(MenuRows(rows));
    forall id | id in ids ensures MenuForest(MenuRows(rows))[id] == VisibleForest(db, user, app)[id] {
      AnswerParent(rows, db, user, app, id);
    }
    assert MenuForest(MenuRows(rows)).Keys == ids;
    SameMap(MenuForest(MenuRows(rows)), VisibleForest(db, user, app), ids);
  }

  /** On any table the nodes are exactly the shown items. */
  lemma ServedExactly(data: MenuData, db: Db, user: int, app: string, v: MenuItem)
    requires KeyedById(db.perms) && BuiltFrom(data, db, user, app)
    ensures v in Flatten(data.menuTree) <==> ShownItem(db, user, app, v)
  {
    var rows :| Answers(rows, db, user, app) && data == MenuData(MenuTreeOf(rows), ButtonCodes(rows));
    AnswerIsForest(rows, db, user, app);
    MenuRowsMembers(rows);
    TreeItemsExact(rows, v);
    assert v in Flatten(data.menuTree) <==> v in multiset(Flatten(data.menuTree));
    if VisibleItem(db, user, app, v) {
      var r := db.perms[v.id];
      assert r in rows && r in MenuRows(rows) && v == ItemOf(r);
    }
  }

  // ---- What is served, read off the tables

  /** Seeing a row takes an active row of the app, and a role of the user that is super admin there or links the row. */
  lemma VisibleExactly(db: Db, user: int, app: string, id: int)
    ensures Visible(db, user, app, id) <==>
            && id in db.perms && db.perms[id].app == app && db.perms[id].active
            && exists r :: r in db.access.roles && RoleSync.Holding(user, r) in db.access.holders
                 && ((db.access.roles[r].app == app && db.access.roles[r].code == "super_admin")
                     || (r in db.access.links && id in db.access.links[r]))
  {
    if r :| r in db.access.roles && RoleSync.Holding(user, r) in db.access.holders
            && ((db.access.roles[r].app == app && db.access.roles[r].code == "super_admin")
                || (r in db.access.links && id in db.access.links[r])) {
      assert Holds(db.access, user, r);
    }
  }

  /** A visible menu item shows the columns of an M, C or L row; a visible button is an F row with a code. */
  lemma VisibleColumns(db: Db, user: int, app: string, v: MenuItem, id: int, code: string)
    requires KeyedById(db.perms)
    ensures VisibleItem(db, user, app, v) <==>
            && Visible(db, user, app, v.id)
            && var r := db.perms[v.id];
               var f := r.fields;
               && f.kind in ["M", "C", "L"] && v.kind == f.kind && v.parent == r.parent && v.name == f.name && v.title == f.name
               && v.path == f.path && v.component == f.component && v.isExt == f.isExt && v.extUrl == f.extUrl
               && v.icon == f.icon && v.order == f.sort && v.keepAlive
    ensures VisibleButton(db, user, app, id, code) <==>
            Visible(db, user, app, id) && db.perms[id].fields.kind == "F" && db.perms[id].code == code && code != ""
  {
    if Visible(db, user, app, v.id) {
      ItemColumns(db.perms[v.id]);
    }
    if Visible(db, user, app, id) {
      ItemColumns(db.perms[id]);
    }
  }

  lemma AmongVisible(rows: seq<Row>, db: Db, user: int, app: string, v: MenuItem)
    requires KeyedById(db.perms) && Answers(rows, db, user, app)
    ensures ItemAmong(MenuRows(rows), v) <==> VisibleItem(db, user, app, v)
  {
    MenuRowsMembers(rows);
    if VisibleItem(db, user, app, v) {
      assert db.perms[v.id] in rows;
    }
    if r :| r in MenuRows(rows) && ItemOf(r) == v {
      assert r in rows;
    }
  }

  /** The eviction reaches exactly the holders of a role that is linked to a row of the app, active or not. */
  lemma EvictedExactly(db: Db, app: string, user: int)
    ensures EvictedUser(db, app, user) <==>
            exists r, id :: r in db.access.roles && RoleSync.Holding(user, r) in db.access.holders
              && r in db.access.links && id in db.access.links[r] && id in db.perms && db.perms[id].app == app
  {
    if r, id :| r in db.access.roles && RoleSync.Holding(user, r) in db.access.holders
                && r in db.access.links && id in db.access.links[r] && id in db.perms && db.perms[id].app == app {
      assert Holds(db.access, user, r) && HasLink(db.access, user, id);
    }
    if EvictedUser(db, app, user) {
      var id, r := EvictingLink(db, app, user);
      assert id in db.access.links[r];
    }
  }

  /** Anywhere in a served tree, the children of a node are exactly the visible items that name its id as parent. */
  lemma ServedNesting(data: MenuData, db: Db, user: int, app: string, t: Tree, v: MenuItem)
    requires KeyedById(db.perms) && BuiltFrom(data, db, user, app) && Within(t, data.menuTree)
    ensures Tops(t.children, v) <==> VisibleItem(db, user, app, v) && v.parent == Some(t.item.id) && t.item.id != 0
  {
    var rows :| Answers(rows, db, user, app) && data == MenuData(MenuTreeOf(rows), ButtonCodes(rows));
    ChildrenExactly(rows, t, v);
    AmongVisible(rows, db, user, app, v);
  }

  /** Siblings come by ascending order number, at the top and below every node. */
  lemma ServedSorted(data: MenuData, db: Db, user: int, app: string, t: Tree)
    requires BuiltFrom(data, db, user, app)
    ensures OrderedTops(data.menuTree)
    ensures Within(t, data.menuTree) ==> OrderedTops(t.children)
  {
    var rows :| Answers(rows, db, user, app) && data == MenuData(MenuTreeOf(rows), ButtonCodes(rows));
    TreeSorted(rows, t);
  }

  /** At the top of a served tree stand exactly the visible items without a visible menu row as parent. */
  lemma ServedTop(data: MenuData, db: Db, user: int, app: string, v: MenuItem)
    requires KeyedById(db.perms) && BuiltFrom(data, db, user, app)
    ensures Tops(data.menuTree, v) <==>
            && VisibleItem(db, user, app, v)
            && (v.parent.None? || v.parent.value == 0 || !VisibleMenu(db, user, app, v.parent.value))
  {
    var rows :| Answers(rows, db, user, app) && data == MenuData(MenuTreeOf(rows), ButtonCodes(rows));
    TopExactly(rows, v);
    AmongVisible(rows, db, user, app, v);
    AnswerIds(rows, db, user, app);
    if v.parent.Some? {
      var p := v.parent.value;
      assert p in IdsOf(MenuRows(rows)) <==> VisibleMenu(db, user, app, p);
      assert p in IdsOf(MenuRows(rows)) <==> exists q :: q in MenuRows(rows) && q.id == p;
    }
  }

  /** A user is served no node and no button that a super admin of the app is not served. */
  lemma UserSeesNoMoreThanAdmin(data: MenuData, user: int, all: MenuData, admin: int, db: Db, app: string)
    requires SoundForest(db.perms) && IsSuperAdmin(db.access, admin, app)
    requires BuiltFrom(data, db, user, app) && BuiltFrom(all, db, admin, app)
    ensures forall v | v in Flatten(data.menuTree) :: v in Flatten(all.menuTree)
    ensures data.buttons <= all.buttons
  {
    forall v | v in Flatten(data.menuTree) ensures v in Flatten(all.menuTree) {
      ServedItems(data, db, user, app, v);
      ServedItems(all, db, admin, app, v);
    }
    forall c | c in data.buttons ensures c in all.buttons {
      ServedButtons(data, db, user, app, c);
      ServedButtons(all, db, admin, app, c);
      var id :| VisibleButton(db, user, app, id, c);
      assert VisibleButton(db, admin, app, id, c);
    }
  }

  // ---- After a sync

  /** The item shows a row of the app that is reported and not taken offline, with the fields of the manifest. */
  ghost predicate ShowsManifest(perms: Table, app: string, m: Items, v: MenuItem) {
    && v.id in perms && perms[v.id].code in m && !PermissionSync.Pruned(perms, app, m, v.id)
    && var f := m[perms[v.id].code].fields;
       v.name == f.name && v.path == f.path && v.component == f.component && v.kind == f.kind && v.order == f.sort
  }

  /** After a sync a fresh build shows no row that the sync took offline, and manifest rows as the manifest has them. */
  lemma SyncedTreeShowsManifest(t: Table, app: string, m: Items, now: int, later: int, ids: Index, db: Db,
                                data: MenuData, user: int, v: MenuItem)
    requires ParentsStored(t) && SyncedBy(t, app, m, now, later, ids, db.perms) && BuiltFrom(data, db, user, app)
    ensures v in Flatten(data.menuTree) ==> ShowsManifest(db.perms, app, m, v)
  {
    ServedIsVisible(data, db, user, app, v);
    if v in Flatten(data.menuTree) {
      SyncOutcome(t, app, m, now, later, ids, db.perms, v.id);
      if db.perms[v.id].code !in m {
        MissingIsPruned(db.perms, app, m, v.id);
      }
    }
  }

  lemma MissingIsPruned(t: Table, app: string, m: Items, id: int)
    requires id in t && t[id].app == app && t[id].code !in m
    ensures PermissionSync.Pruned(t, app, m, id)
  {
    assert Forest.Up(ParentsOf(t), id, 0) == Some(id);
    assert Dropped(t, app, m, id) && Forest.Above(ParentsOf(t), id, id);
  }
}
