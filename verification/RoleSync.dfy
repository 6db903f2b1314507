/**
 The full role sync of one app: create new roles with their permission links, align common ones,
 delete what is no longer reported unless some user still holds it.
 */
module RoleSync {
  import opened Prelude
  import opened Permissions

  datatype Role = Role(id: int, app: string, code: string, name: string, synced: Option<int>)

  type RoleTable = map<int, Role>

  datatype Holding = Holding(user: int, role: int)

  /** The role table, the permission ids linked to each role, and which user holds which role. */
  datatype RoleDb = RoleDb(roles: RoleTable, links: map<int, set<int>>, holders: set<Holding>)

  datatype RoleItem = RoleItem(code: string, name: string, permissionCodes: seq<string>)

  type Items = map<string, RoleItem>
  type Index = map<string, int>

  datatype RoleSyncError = ConstraintBroken | StillHeld
  datatype RoleSyncResult = RoleSyncResult(created: nat, updated: nat, pruned: nat, same: nat)

  function ByCode(items: seq<RoleItem>): (m: Items)
    ensures forall c | c in m :: m[c].code == c && m[c] in items
    ensures forall it | it in items :: it.code in m
  {
    Keyed(items, (it: RoleItem) => it.code)
  }

  predicate UniqueRoleCodes(roles: RoleTable) {
    forall i, j | i in roles && j in roles && roles[i].code == roles[j].code :: i == j
  }

  predicate ConsistentRoles(db: RoleDb) {
    (forall i | i in db.roles :: db.roles[i].id == i) && UniqueRoleCodes(db.roles) && db.links.Keys <= db.roles.Keys
  }

  predicate NumberedRoles(roles: RoleTable, nextId: int) {
    forall i | i in roles :: i < nextId
  }

  function LinksOf(db: RoleDb, role: int): set<int> {
    if role in db.links then db.links[role] else {}
  }

  function RoleIndex(roles: RoleTable, app: string): (index: Index)
    requires UniqueRoleCodes(roles)
    ensures forall id | id in roles && roles[id].app == app :: roles[id].code in index && index[roles[id].code] == id
    ensures forall c | c in index :: index[c] in roles && roles[index[c]].app == app && roles[index[c]].code == c
  {
    map id | id in roles && roles[id].app == app :: roles[id].code := id
  }

  // ---- Which permissions an item names

  predicate Usable(perms: Table, app: string, id: int) {
    id in perms && perms[id].app == app && perms[id].active
  }

  /** perm_code_to_id: the app's active permissions by code. */
  function PermIndex(perms: Table, app: string): (index: Index)
    requires UniqueCodes(perms)
    ensures forall id | Usable(perms, app, id) :: perms[id].code in index && index[perms[id].code] == id
    ensures forall c | c in index :: Usable(perms, app, index[c]) && perms[index[c]].code == c
  {
    map id | id in perms && Usable(perms, app, id) :: perms[id].code := id
  }

  /** The ids of the app's active permissions that the item names. */
  ghost function Targets(perms: Table, app: string, it: RoleItem): set<int> {
    set id | id in perms && Usable(perms, app, id) && perms[id].code in it.permissionCodes
  }

  function PermIds(index: Index, codes: seq<string>): seq<int> {
    if codes == [] then []
    else
      var last := |codes| - 1;
      var before := PermIds(index, codes[..last]);
      if codes[last] in index then before + [index[codes[last]]] else before
  }

  ghost predicate Injective(index: Index) {
    forall c, c' | c in index && c' in index && index[c] == index[c'] :: c == c'
  }

  lemma {:induction false} PermIdsMember(index: Index, codes: seq<string>, id: int)
    ensures id in PermIds(index, codes) <==> exists c :: c in codes && c in index && index[c] == id
  {
    if codes != [] {
      var last := |codes| - 1;
      PermIdsMember(index, codes[..last], id);
      assert codes == codes[..last] + [codes[last]];
    }
  }

  lemma NamedIdsAreTargets(perms: Table, app: string, it: RoleItem)
    requires UniqueCodes(perms)
    ensures Elements(PermIds(PermIndex(perms, app), it.permissionCodes)) == Targets(perms, app, it)
  {
    var index := PermIndex(perms, app);
    forall id ensures id in Elements(PermIds(index, it.permissionCodes)) <==> id in Targets(perms, app, it) {
      PermIdsMember(index, it.permissionCodes, id);
    }
  }

  /** The item names one of the app's active permissions twice. */
  ghost predicate NamesTwice(index: Index, codes: seq<string>) {
    exists i, j :: 0 <= i < j < |codes| && codes[i] == codes[j] && codes[i] in index
  }

  lemma {:induction false} RepeatedIds(index: Index, codes: seq<string>)
    requires Injective(index)
    ensures Distinct(PermIds(index, codes)) <==> !NamesTwice(index, codes)
  {
    if codes != [] {
      var last := |codes| - 1;
      var before, c := codes[..last], codes[last];
      RepeatedIds(index, before);
      NamesTwiceLast(index, codes);
      if c in index {
        PermIdsMember(index, before, index[c]);
        DistinctLast(PermIds(index, before), index[c]);
      }
    }
  }

  lemma NamesTwiceLast(index: Index, codes: seq<string>)
    requires codes != []
    ensures var last := |codes| - 1;
            NamesTwice(index, codes) <==>
            NamesTwice(index, codes[..last]) || (codes[last] in index && codes[last] in codes[..last])
  {
  }

  lemma DistinctLast(s: seq<int>, x: int)
    ensures Distinct(s + [x]) <==> Distinct(s) && x !in s
  {
    var t := s + [x];
    if Distinct(t) {
      forall i, j | 0 <= i < j < |s| ensures s[i] != s[j] {
        assert t[i] != t[j];
      }
      forall i | 0 <= i < |s| ensures s[i] != x {
        assert t[i] != t[|s|];
      }
    }
  }

  // ---- The tables

  ghost predicate RoleCodeFree(roles: RoleTable, code: string) {
    forall id {:trigger id in roles} | id in roles :: roles[id].code != code
  }

  ghost predicate DistinctRoleCodes(drafts: seq<Role>) {
    forall i, j | 0 <= i < j < |drafts| :: drafts[i].code != drafts[j].code
  }

  /** The drafts have new, distinct codes and their apps are registered. */
  ghost predicate Insertable(roles: RoleTable, drafts: seq<Role>, apps: set<string>) {
    && DistinctRoleCodes(drafts)
    && forall i | 0 <= i < |drafts| :: RoleCodeFree(roles, drafts[i].code) && drafts[i].app in apps
  }

  /** The created rows are the drafts under fresh, distinct ids, and roles' is roles with them added. */
  ghost predicate StoresRoles(roles: RoleTable, drafts: seq<Role>, created: seq<Role>, roles': RoleTable) {
    && |created| == |drafts|
    && (forall i | 0 <= i < |created| :: created[i] == drafts[i].(id := created[i].id))
    && (forall i, j | 0 <= i < j < |created| :: created[i].id != created[j].id)
    && (forall id | id in roles :: id in roles' && roles'[id] == roles[id])
    && (forall i | 0 <= i < |created| :: created[i].id !in roles && created[i].id in roles' && roles'[created[i].id] == created[i])
    && (forall id | id in roles' && id !in roles :: exists i :: 0 <= i < |created| && created[i].id == id)
  }

  lemma StoreOneMore(roles: RoleTable, drafts: seq<Role>, created: seq<Role>, roles': RoleTable, draft: Role, id: int)
    requires StoresRoles(roles, drafts, created, roles') && id !in roles'
    ensures StoresRoles(roles, drafts + [draft], created + [draft.(id := id)], roles'[id := draft.(id := id)])
  {
    var more := created + [draft.(id := id)];
    assert more[|created|].id == id;
    forall k | k in roles'[id := draft.(id := id)] && k !in roles ensures exists i :: 0 <= i < |more| && more[i].id == k {
      if k != id {
        var i :| 0 <= i < |created| && created[i].id == k;
        assert more[i].id == k;
      }
    }
  }

  class RoleStore {
    var db: RoleDb
    var nextId: int
    const apps: set<string>

    ghost predicate Valid()
      reads this
    {
      ConsistentRoles(db) && NumberedRoles(db.roles, nextId)
    }

    /** Inserts the drafts one after the other and stops at the first broken constraint. */
    method BatchCreate(drafts: seq<Role>) returns (res: Result<seq<Role>, RoleSyncError>)
      requires Valid()
      modifies this
      ensures Valid() && nextId >= old(nextId)
      ensures db.links == old(db.links) && db.holders == old(db.holders)
      ensures res.Ok? <==> Insertable(old(db.roles), drafts, apps)
      ensures res.Ok? ==> StoresRoles(old(db.roles), drafts, res.value, db.roles)
    {
      var created := [];
      for i := 0 to |drafts|
        invariant Valid() && nextId >= old(nextId)
        invariant db.links == old(db.links) && db.holders == old(db.holders)
        invariant StoresRoles(old(db.roles), drafts[..i], created, db.roles)
        invariant Insertable(old(db.roles), drafts[..i], apps)
      {
        var draft := drafts[i];
        TakeOneMore(drafts, i);
        InsertableLast(old(db.roles), drafts, i, apps, created, db.roles);
        if draft.app !in apps || exists id | id in db.roles :: db.roles[id].code == draft.code {
          return Err(ConstraintBroken);
        }
        StoreOneMore(old(db.roles), drafts[..i], created, db.roles, draft, nextId);
        db := db.(roles := db.roles[nextId := draft.(id := nextId)]);
        created := created + [draft.(id := nextId)];
        nextId := nextId + 1;
      }
      assert drafts[..|drafts|] == drafts;
      res := Ok(created);
    }

    /** Replaces a role's links; naming a permission twice breaks the primary key. */
    method ReplaceRolePermissions(role: int, ids: seq<int>) returns (ok: bool)
      requires Valid() && role in db.roles
      modifies this`db
      ensures Valid()
      ensures ok <==> Distinct(ids)
      ensures db == if ok then old(db).(links := old(db).links[role := Elements(ids)])
                    else old(db).(links := old(db).links - {role})
    {
      db := db.(links := db.links - {role});
      var linked := set x | x in ids;
      ok := |linked| == |ids|;
      ElementsSize(ids);
      if ok {
        db := db.(links := db.links[role := linked]);
      }
      if Distinct(ids) {
        DistinctSize(ids);
      }
      assert old(db).links - {role} + map[role := linked] == old(db).links[role := linked];
    }

    /** Deleted roles leave no link and no holder behind; the others keep row, links and holders. */
    method DeleteRoles(ids: set<int>) returns (count: nat)
      requires Valid()
      modifies this`db
      ensures Valid()
      ensures forall id | id in ids :: id !in db.roles && id !in db.links && !Held(db, id)
      ensures forall id | id !in ids :: SameAt(old(db), db, id)
      ensures count == |old(db).roles.Keys| - |db.roles.Keys|
    {
      count := |ids * db.roles.Keys|;
      WithoutCount(db, ids);
      forall id ensures id in ids ==> !Held(Without(db, ids), id)
                ensures id !in ids ==> SameAt(db, Without(db, ids), id) {
        WithoutAt(db, ids, id);
      }
      db := Without(db, ids);
    }
  }

  lemma WithoutCount(db: RoleDb, ids: set<int>)
    ensures |ids * db.roles.Keys| == |db.roles.Keys| - |Without(db, ids).roles.Keys|
  {
    assert Without(db, ids).roles.Keys == db.roles.Keys - ids;
    assert ids * db.roles.Keys + (db.roles.Keys - ids) == db.roles.Keys;
  }

  lemma WithoutAt(db: RoleDb, ids: set<int>, id: int)
    ensures id in ids ==> !Held(Without(db, ids), id)
    ensures id !in ids ==> SameAt(db, Without(db, ids), id)
  {
  }

  /** What is known role by role determines the tables. */
  lemma DeletedIsWithout(db: RoleDb, ids: set<int>, db': RoleDb)
    requires forall id | id in ids :: id !in db'.roles && id !in db'.links && !Held(db', id)
    requires forall id | id !in ids :: SameAt(db, db', id)
    ensures db' == Without(db, ids)
  {
    var w := Without(db, ids);
    forall id ensures SameAt(db', w, id) {
      assert id !in ids ==> SameAt(db, db', id);
      assert id in ids ==> !Held(db', id);
    }
    SameEverywhere(db', w);
  }

  /** Both have the role with the same row, links and holders, or neither has any of them. */
  ghost predicate SameAt(a: RoleDb, b: RoleDb, id: int) {
    && (id in a.roles <==> id in b.roles) && (id in a.roles ==> a.roles[id] == b.roles[id])
    && (id in a.links <==> id in b.links) && (id in a.links ==> a.links[id] == b.links[id])
    && (forall u :: Holding(u, id) in a.holders <==> Holding(u, id) in b.holders)
  }

  lemma SameEverywhere(a: RoleDb, b: RoleDb)
    requires forall id :: SameAt(a, b, id)
    ensures a == b
  {
    assert a.roles == b.roles by {
      forall id ensures id in a.roles <==> id in b.roles
                ensures id in a.roles ==> a.roles[id] == b.roles[id] {
        assert SameAt(a, b, id);
      }
    }
    assert a.links == b.links by {
      forall id ensures id in a.links <==> id in b.links
                ensures id in a.links ==> a.links[id] == b.links[id] {
        assert SameAt(a, b, id);
      }
    }
    forall h: Holding ensures h in a.holders <==> h in b.holders {
      assert SameAt(a, b, h.role) && h == Holding(h.user, h.role);
    }
  }

  function Without(db: RoleDb, ids: set<int>): RoleDb {
    RoleDb(db.roles - ids, db.links - ids, set h | h in db.holders && h.role !in ids)
  }

  lemma InsertableLast(roles: RoleTable, drafts: seq<Role>, i: nat, apps: set<string>, created: seq<Role>, roles': RoleTable)
    requires i < |drafts| && StoresRoles(roles, drafts[..i], created, roles') && Insertable(roles, drafts[..i], apps)
    ensures Insertable(roles, drafts[..i + 1], apps) <==> drafts[i].app in apps && RoleCodeFree(roles', drafts[i].code)
    ensures Insertable(roles, drafts, apps) ==> Insertable(roles, drafts[..i + 1], apps)
  {
  }

  // ---- Phase one: create

  function AppRoleCodes(roles: RoleTable, app: string): set<string> {
    set id | id in roles && roles[id].app == app :: roles[id].code
  }

  /** Creating the role of a new code would fail. */
  ghost predicate CannotCreate(roles: RoleTable, perms: Table, app: string, m: Items, apps: set<string>, c: string)
    requires UniqueCodes(perms)
  {
    && c in m && c !in AppRoleCodes(roles, app)
    && (!RoleCodeFree(roles, c) || app !in apps || NamesTwice(PermIndex(perms, app), m[c].permissionCodes))
  }

  ghost predicate CreateBlocked(roles: RoleTable, perms: Table, app: string, m: Items, apps: set<string>)
    requires UniqueCodes(perms)
  {
    exists c :: CannotCreate(roles, perms, app, m, apps, c)
  }

  /** Everything a role row and its links should be after the sync. */
  ghost predicate Matches(db: RoleDb, perms: Table, app: string, m: Items, now: int, id: int) {
    && id in db.roles && db.roles[id].code in m
    && db.roles[id] == Role(id, app, db.roles[id].code, m[db.roles[id].code].name, Some(now))
    && LinksOf(db, id) == Targets(perms, app, m[db.roles[id].code])
  }

  ghost predicate KeepsRole(db: RoleDb, db': RoleDb, id: int)
    requires id in db.roles
  {
    id in db'.roles && db'.roles[id] == db.roles[id] && LinksOf(db', id) == LinksOf(db, id)
  }

  ghost predicate HasCode(db: RoleDb, app: string, c: string) {
    exists id :: id in db.roles && db.roles[id].app == app && db.roles[id].code == c
  }

  /** The tables after the create phase. */
  ghost predicate CreatedAll(db: RoleDb, perms: Table, app: string, m: Items, now: int, db': RoleDb) {
    && ConsistentRoles(db') && db'.holders == db.holders
    && (forall id | id in db.roles :: KeepsRole(db, db', id))
    && (forall id | id in db'.roles && id !in db.roles ::
          Matches(db', perms, app, m, now, id) && db'.roles[id].code !in AppRoleCodes(db.roles, app))
    && (forall c | c in m && c !in AppRoleCodes(db.roles, app) :: HasCode(db', app, c))
  }

  function RoleDraft(app: string, it: RoleItem, now: int): Role {
    Role(0, app, it.code, it.name, Some(now))
  }

  /** The drafts of the new codes, in whatever order their set is iterated. */
  ghost predicate DraftsOf(drafts: seq<Role>, app: string, m: Items, newCodes: set<string>, now: int) {
    && DistinctRoleCodes(drafts)
    && (forall i | 0 <= i < |drafts| :: drafts[i].code in newCodes && drafts[i].code in m
                                        && drafts[i] == RoleDraft(app, m[drafts[i].code], now))
    && (forall c | c in newCodes :: exists i :: 0 <= i < |drafts| && drafts[i].code == c)
    && |drafts| == |newCodes|
  }

  method DraftRoles(app: string, m: Items, newCodes: set<string>, now: int) returns (drafts: seq<Role>)
    requires newCodes <= m.Keys && forall c | c in m :: m[c].code == c
    ensures DraftsOf(drafts, app, m, newCodes, now)
  {
    var order := AnyOrder(newCodes);
    DistinctSize(order);
    forall i | 0 <= i < |order| ensures order[i] in newCodes && order[i] in m {
      assert order[i] in Elements(order);
    }
    drafts := seq(|order|, i requires 0 <= i < |order| => RoleDraft(app, m[order[i]], now));
    forall c | c in newCodes ensures exists i :: 0 <= i < |drafts| && drafts[i].code == c {
      assert c in Elements(order);
      var i :| 0 <= i < |order| && order[i] == c;
      assert drafts[i].code == c;
    }
  }

  /** The links of the first n created roles are in place; the other created roles have none yet. */
  ghost predicate Bound(db: RoleDb, perms: Table, app: string, m: Items, created: seq<Role>, n: nat, db': RoleDb)
    requires forall i | 0 <= i < |created| :: created[i].code in m
  {
    && (forall id | id in db.roles :: LinksOf(db', id) == LinksOf(db, id))
    && (forall i | 0 <= i < |created| ::
          LinksOf(db', created[i].id) == if i < n then Targets(perms, app, m[created[i].code]) else {})
  }

  /** Links the permissions that the role's item names; without any there is nothing to do. */
  method BindRole(store: RoleStore, ghost db0: RoleDb, ghost perms: Table, app: string, m: Items, created: seq<Role>,
                  ghost drafts: seq<Role>, permIndex: Index, k: nat) returns (ok: bool)
    requires store.Valid() && UniqueCodes(perms) && permIndex == PermIndex(perms, app)
    requires StoresRoles(db0.roles, drafts, created, store.db.roles)
    requires k < |created| && forall i | 0 <= i < |created| :: created[i].code in m
    requires Bound(db0, perms, app, m, created, k, store.db)
    modifies store`db
    ensures store.Valid() && store.db.roles == old(store.db.roles) && store.db.holders == old(store.db.holders)
    ensures ok <==> !NamesTwice(permIndex, m[created[k].code].permissionCodes)
    ensures ok ==> Bound(db0, perms, app, m, created, k + 1, store.db)
  {
    var role, item := created[k], m[created[k].code];
    var permIds := PermIds(permIndex, item.permissionCodes);
    RepeatedIds(permIndex, item.permissionCodes);
    NamedIdsAreTargets(perms, app, item);
    ghost var before := store.db;
    ok := true;
    if permIds != [] {
      ok := store.ReplaceRolePermissions(role.id, permIds);
      BindOne(db0, perms, app, m, created, drafts, k, before, permIds);
    }
  }

  method BindPermissions(store: RoleStore, ghost db0: RoleDb, ghost perms: Table, app: string, m: Items, created: seq<Role>,
                         ghost drafts: seq<Role>, permIndex: Index) returns (ok: bool)
    requires store.Valid() && UniqueCodes(perms) && permIndex == PermIndex(perms, app)
    requires StoresRoles(db0.roles, drafts, created, store.db.roles)
    requires forall i | 0 <= i < |created| :: created[i].code in m
    requires Bound(db0, perms, app, m, created, 0, store.db)
    modifies store`db
    ensures store.Valid() && store.db.roles == old(store.db.roles) && store.db.holders == old(store.db.holders)
    ensures ok <==> forall i | 0 <= i < |created| :: !NamesTwice(permIndex, m[created[i].code].permissionCodes)
    ensures ok ==> Bound(db0, perms, app, m, created, |created|, store.db)
  {
    for k := 0 to |created|
      invariant store.Valid() && store.db.roles == old(store.db.roles) && store.db.holders == old(store.db.holders)
      invariant forall i | 0 <= i < k :: !NamesTwice(permIndex, m[created[i].code].permissionCodes)
      invariant Bound(db0, perms, app, m, created, k, store.db)
    {
      var bound := BindRole(store, db0, perms, app, m, created, drafts, permIndex, k);
      if !bound {
        return false;
      }
    }
    ok := true;
  }

  lemma BindOne(db0: RoleDb, perms: Table, app: string, m: Items, created: seq<Role>, drafts: seq<Role>, k: nat,
                db: RoleDb, ids: seq<int>)
    requires k < |created| && StoresRoles(db0.roles, drafts, created, db.roles)
    requires forall i | 0 <= i < |created| :: created[i].code in m
    requires Bound(db0, perms, app, m, created, k, db)
    requires Elements(ids) == Targets(perms, app, m[created[k].code])
    ensures Bound(db0, perms, app, m, created, k + 1, db.(links := db.links[created[k].id := Elements(ids)]))
  {
  }

  method CreatePhase(store: RoleStore, ghost perms: Table, app: string, m: Items, newCodes: set<string>,
                     permIndex: Index, now: int) returns (res: Result<nat, RoleSyncError>)
    requires store.Valid() && UniqueCodes(perms) && permIndex == PermIndex(perms, app)
    requires newCodes == m.Keys - AppRoleCodes(store.db.roles, app) && forall c | c in m :: m[c].code == c
    modifies store
    ensures store.Valid() && store.nextId >= old(store.nextId)
    ensures res.Ok? <==> !CreateBlocked(old(store.db.roles), perms, app, m, store.apps)
    ensures res.Ok? ==> CreatedAll(old(store.db), perms, app, m, now, store.db) && res.value == |newCodes|
  {
    ghost var db0 := store.db;
    var drafts := DraftRoles(app, m, newCodes, now);
    var created := store.BatchCreate(drafts);
    if created.Err? {
      InsertFailure(db0.roles, perms, app, m, newCodes, now, drafts, store.apps);
      return Err(created.error);
    }
    NothingBoundYet(db0, perms, app, m, drafts, created.value, store.db);
    var bound := BindPermissions(store, db0, perms, app, m, created.value, drafts, permIndex);
    BlockedIffRepeated(db0.roles, perms, app, m, newCodes, now, drafts, store.apps, created.value, store.db.roles);
    if !bound {
      return Err(ConstraintBroken);
    }
    CreatedMatch(db0, perms, app, m, newCodes, now, drafts, created.value, store.db);
    res := Ok(|created.value|);
  }

  lemma InsertFailure(roles: RoleTable, perms: Table, app: string, m: Items, newCodes: set<string>, now: int,
                      drafts: seq<Role>, apps: set<string>)
    requires UniqueCodes(perms) && newCodes == m.Keys - AppRoleCodes(roles, app)
    requires DraftsOf(drafts, app, m, newCodes, now)
    requires !Insertable(roles, drafts, apps)
    ensures CreateBlocked(roles, perms, app, m, apps)
  {
    var i :| 0 <= i < |drafts| && !(RoleCodeFree(roles, drafts[i].code) && drafts[i].app in apps);
    assert CannotCreate(roles, perms, app, m, apps, drafts[i].code);
  }

  lemma NothingBoundYet(db0: RoleDb, perms: Table, app: string, m: Items, drafts: seq<Role>, created: seq<Role>, db: RoleDb)
    requires ConsistentRoles(db0) && db.links == db0.links
    requires StoresRoles(db0.roles, drafts, created, db.roles)
    requires forall i | 0 <= i < |drafts| :: drafts[i].code in m
    ensures forall i | 0 <= i < |created| :: created[i].code in m
    ensures Bound(db0, perms, app, m, created, 0, db)
  {
  }

  lemma BlockedIffRepeated(roles: RoleTable, perms: Table, app: string, m: Items, newCodes: set<string>, now: int,
                           drafts: seq<Role>, apps: set<string>, created: seq<Role>, roles': RoleTable)
    requires UniqueCodes(perms) && newCodes == m.Keys - AppRoleCodes(roles, app)
    requires DraftsOf(drafts, app, m, newCodes, now) && (forall c | c in m :: m[c].code == c)
    requires Insertable(roles, drafts, apps) && StoresRoles(roles, drafts, created, roles')
    requires forall i | 0 <= i < |created| :: created[i].code in m
    ensures CreateBlocked(roles, perms, app, m, apps) <==>
            exists i :: 0 <= i < |created| && NamesTwice(PermIndex(perms, app), m[created[i].code].permissionCodes)
  {
    if c :| CannotCreate(roles, perms, app, m, apps, c) {
      assert c in newCodes;
      var i :| 0 <= i < |drafts| && drafts[i].code == c;
      assert created[i].code == c;
    }
    if i :| 0 <= i < |created| && NamesTwice(PermIndex(perms, app), m[created[i].code].permissionCodes) {
      assert drafts[i].code in newCodes;
      assert CannotCreate(roles, perms, app, m, apps, drafts[i].code);
    }
  }

  lemma CreatedMatch(db0: RoleDb, perms: Table, app: string, m: Items, newCodes: set<string>, now: int,
                     drafts: seq<Role>, created: seq<Role>, db: RoleDb)
    requires ConsistentRoles(db) && db.holders == db0.holders
    requires newCodes == m.Keys - AppRoleCodes(db0.roles, app)
    requires DraftsOf(drafts, app, m, newCodes, now) && (forall c | c in m :: m[c].code == c)
    requires StoresRoles(db0.roles, drafts, created, db.roles)
    requires forall i | 0 <= i < |created| :: created[i].code in m
    requires Bound(db0, perms, app, m, created, |created|, db)
    ensures CreatedAll(db0, perms, app, m, now, db)
  {
    forall id | id in db.roles && id !in db0.roles
      ensures Matches(db, perms, app, m, now, id) && db.roles[id].code !in AppRoleCodes(db0.roles, app)
    {
      var i :| 0 <= i < |created| && created[i].id == id;
      assert drafts[i].code in newCodes;
    }
    forall c | c in m && c !in AppRoleCodes(db0.roles, app) ensures HasCode(db, app, c) {
      assert c in newCodes;
      var i :| 0 <= i < |drafts| && drafts[i].code == c;
      assert db.roles[created[i].id] == created[i];
    }
  }

  // ---- Phase two: align

  ghost predicate CommonRole(roles: RoleTable, app: string, m: Items, id: int) {
    id in roles && roles[id].app == app && roles[id].code in m
  }

  /** The stored role of a common code has another name or other links than reported. */
  ghost predicate NeedsAligning(db: RoleDb, perms: Table, app: string, m: Items, c: string)
    requires UniqueRoleCodes(db.roles)
  {
    && c in m && c in RoleIndex(db.roles, app)
    && var id := RoleIndex(db.roles, app)[c];
       db.roles[id].name != m[c].name || LinksOf(db, id) != Targets(perms, app, m[c])
  }

  ghost function ChangedCodes(db: RoleDb, perms: Table, app: string, m: Items): set<string>
    requires UniqueRoleCodes(db.roles)
  {
    set c | c in m && NeedsAligning(db, perms, app, m, c)
  }

  /** db1 with the common roles whose codes are in `done` aligned. */
  ghost predicate Aligned(db0: RoleDb, db1: RoleDb, perms: Table, app: string, m: Items, now: int, done: set<string>, db: RoleDb) {
    && ConsistentRoles(db) && db.roles.Keys == db1.roles.Keys && db.holders == db1.holders
    && forall id {:trigger id in db1.roles} | id in db1.roles ::
         && db.roles[id].code == db1.roles[id].code && db.roles[id].app == db1.roles[id].app
         && if CommonRole(db0.roles, app, m, id) && db0.roles[id].code in done
            then Matches(db, perms, app, m, now, id) else KeepsRole(db1, db, id)
  }

  function Realigned(db: RoleDb, id: int, name: string, now: int, links: set<int>): RoleDb
    requires id in db.roles
  {
    db.(roles := db.roles[id := db.roles[id].(name := name, synced := Some(now))], links := db.links[id := links])
  }

  ghost predicate SameDb(a: RoleDb, b: RoleDb) {
    a.roles == b.roles && a.holders == b.holders && a.links.Keys <= a.roles.Keys
    && forall id {:trigger id in a.roles} | id in a.roles :: LinksOf(a, id) == LinksOf(b, id)
  }

  method AlignRole(store: RoleStore, id: int, item: RoleItem, ghost perms: Table, app: string, permIndex: Index, now: int)
      returns (updated: bool)
    requires store.Valid() && id in store.db.roles && UniqueCodes(perms) && permIndex == PermIndex(perms, app)
    modifies store`db
    ensures store.Valid()
    ensures SameDb(store.db, Realigned(old(store.db), id, item.name, now, Targets(perms, app, item)))
    ensures updated <==> old(store.db).roles[id].name != item.name || LinksOf(old(store.db), id) != Targets(perms, app, item)
  {
    var role := store.db.roles[id];
    var nameChanged := role.name != item.name;
    var current := LinksOf(store.db, id);
    var permIds := PermIds(permIndex, item.permissionCodes);
    NamedIdsAreTargets(perms, app, item);
    var target := set x | x in permIds;
    assert target == Elements(permIds);
    var bindingChanged := current != target;
    if nameChanged {
      role := role.(name := item.name);
    }
    role := role.(synced := Some(now));
    store.db := store.db.(roles := store.db.roles[id := role]);
    if bindingChanged {
      var ids := AnyOrder(target);
      var replaced := store.ReplaceRolePermissions(id, ids);
    }
    updated := nameChanged || bindingChanged;
  }

  lemma AlignOne(db0: RoleDb, db1: RoleDb, perms: Table, app: string, m: Items, now: int, done: set<string>,
                 db: RoleDb, id: int, db': RoleDb)
    requires ConsistentRoles(db0) && (forall i | i in db0.roles :: KeepsRole(db0, db1, i))
    requires CommonRole(db0.roles, app, m, id) && db0.roles[id].code !in done
    requires Aligned(db0, db1, perms, app, m, now, done, db) && ConsistentRoles(db')
    requires id in db.roles
    requires SameDb(db', Realigned(db, id, m[db0.roles[id].code].name, now, Targets(perms, app, m[db0.roles[id].code])))
    ensures Aligned(db0, db1, perms, app, m, now, done + {db0.roles[id].code}, db')
  {
    forall k | k in db1.roles
      ensures db'.roles[k].code == db1.roles[k].code && db'.roles[k].app == db1.roles[k].app
      ensures if CommonRole(db0.roles, app, m, k) && db0.roles[k].code in done + {db0.roles[id].code}
              then Matches(db', perms, app, m, now, k) else KeepsRole(db1, db', k)
    {
      assert k in db'.roles;
      if k == id {
        assert KeepsRole(db0, db1, id);
        assert KeepsRole(db1, db, id);
      }
    }
  }

  ghost predicate KeepsRoles(db: RoleDb, db': RoleDb) {
    forall id | id in db.roles :: KeepsRole(db, db', id)
  }

  /** How many of the codes dealt with were changed, and how many were not. */
  ghost predicate Counted(changed: set<string>, done: set<string>, updated: nat, same: nat) {
    updated == |changed * done| && same == |done - changed|
  }

  lemma NextToAlign(db0: RoleDb, db1: RoleDb, perms: Table, app: string, m: Items, now: int,
                    done: set<string>, db: RoleDb, code: string)
    requires ConsistentRoles(db0) && KeepsRoles(db0, db1)
    requires Aligned(db0, db1, perms, app, m, now, done, db)
    requires code in m && code in RoleIndex(db0.roles, app) && code !in done
    ensures var id := RoleIndex(db0.roles, app)[code];
            && CommonRole(db0.roles, app, m, id) && db0.roles[id].code == code && id in db.roles
            && db.roles[id] == db0.roles[id] && LinksOf(db, id) == LinksOf(db0, id)
  {
    var id := RoleIndex(db0.roles, app)[code];
    assert KeepsRole(db0, db1, id) && KeepsRole(db1, db, id);
  }

  lemma AligningStep(db0: RoleDb, db1: RoleDb, perms: Table, app: string, m: Items, now: int,
                     done: set<string>, db: RoleDb, code: string, db': RoleDb)
    requires ConsistentRoles(db0) && KeepsRoles(db0, db1) && ConsistentRoles(db')
    requires Aligned(db0, db1, perms, app, m, now, done, db)
    requires code in m && code in RoleIndex(db0.roles, app) && code !in done
    requires RoleIndex(db0.roles, app)[code] in db.roles
    requires SameDb(db', Realigned(db, RoleIndex(db0.roles, app)[code], m[code].name, now, Targets(perms, app, m[code])))
    ensures Aligned(db0, db1, perms, app, m, now, done + {code}, db')
  {
    NextToAlign(db0, db1, perms, app, m, now, done, db, code);
    AlignOne(db0, db1, perms, app, m, now, done, db, RoleIndex(db0.roles, app)[code], db');
  }

  method AlignPhase(store: RoleStore, ghost db0: RoleDb, ghost perms: Table, app: string, m: Items, common: set<string>,
                    index: Index, permIndex: Index, now: int) returns (updated: nat, same: nat)
    requires store.Valid() && ConsistentRoles(db0) && KeepsRoles(db0, store.db)
    requires UniqueCodes(perms) && permIndex == PermIndex(perms, app)
    requires index == RoleIndex(db0.roles, app) && common == m.Keys * index.Keys
    modifies store`db
    ensures store.Valid()
    ensures Aligned(db0, old(store.db), perms, app, m, now, common, store.db)
    ensures Counted(ChangedCodes(db0, perms, app, m), common, updated, same)
  {
    ghost var db1 := store.db;
    updated, same := 0, 0;
    var order := AnyOrder(common);
    for i := 0 to |order|
      invariant store.Valid()
      invariant Aligned(db0, db1, perms, app, m, now, Elements(order[..i]), store.db)
      invariant Counted(ChangedCodes(db0, perms, app, m), Elements(order[..i]), updated, same)
    {
      var code := order[i];
      OneFurther(order, i);
      ghost var before, done := store.db, Elements(order[..i]);
      NextToAlign(db0, db1, perms, app, m, now, done, before, code);
      CountOne(ChangedCodes(db0, perms, app, m), done, updated, same, code);
      var hit := AlignRole(store, index[code], m[code], perms, app, permIndex, now);
      AligningStep(db0, db1, perms, app, m, now, done, before, code, store.db);
      if hit {
        updated := updated + 1;
      } else {
        same := same + 1;
      }
    }
    AllTaken(order);
  }

  lemma SplitOne(changed: set<string>, done: set<string>, c: string)
    ensures c in changed ==> changed * (done + {c}) == changed * done + {c} && (done + {c}) - changed == done - changed
    ensures c !in changed ==> changed * (done + {c}) == changed * done && (done + {c}) - changed == (done - changed) + {c}
  {
  }

  lemma CountOne(changed: set<string>, done: set<string>, updated: nat, same: nat, c: string)
    requires Counted(changed, done, updated, same) && c !in done
    ensures c in changed ==> Counted(changed, done + {c}, updated + 1, same)
    ensures c !in changed ==> Counted(changed, done + {c}, updated, same + 1)
  {
    SplitOne(changed, done, c);
  }

  // ---- Phase three: delete

  ghost predicate GoneRole(roles: RoleTable, app: string, m: Items, id: int) {
    id in roles && roles[id].app == app && roles[id].code !in m
  }

  ghost predicate Held(db: RoleDb, id: int) {
    exists h :: h in db.holders && h.role == id
  }

  /** Some user holds a role that is no longer reported. */
  ghost predicate InUse(db: RoleDb, app: string, m: Items) {
    exists id :: GoneRole(db.roles, app, m, id) && Held(db, id)
  }

  ghost function GoneIds(roles: RoleTable, app: string, m: Items): set<int> {
    set id | id in roles && GoneRole(roles, app, m, id)
  }

  method AnyHeld(holders: set<Holding>, order: seq<int>) returns (held: bool)
    ensures held <==> exists h :: h in holders && h.role in order
  {
    for i := 0 to |order|
      invariant forall h | h in holders :: h.role !in order[..i]
    {
      if exists h | h in holders :: h.role == order[i] {
        return true;
      }
    }
    AllTaken(order);
    held := false;
  }

  method DeletePhase(store: RoleStore, ghost db0: RoleDb, app: string, ghost m: Items, index: Index, prunedCodes: set<string>)
      returns (res: Result<nat, RoleSyncError>)
    requires store.Valid() && ConsistentRoles(db0) && index == RoleIndex(db0.roles, app)
    requires prunedCodes == index.Keys - m.Keys
    requires db0.roles.Keys <= store.db.roles.Keys && store.db.holders == db0.holders
    modifies store`db
    ensures store.Valid()
    ensures res.Ok? <==> !InUse(db0, app, m)
    ensures res.Ok? ==> store.db == Without(old(store.db), GoneIds(db0.roles, app, m)) && store.db.holders == db0.holders
    ensures res.Ok? ==> res.value == |GoneIds(db0.roles, app, m)|
  {
    var prunedIds := set c | c in prunedCodes :: index[c];
    PrunedAreGone(db0.roles, app, m, prunedIds);
    var order := AnyOrder(prunedIds);
    var held := AnyHeld(store.db.holders, order);
    HeldExactly(db0, app, m, order);
    if held {
      return Err(StillHeld);
    }
    ghost var before := store.db;
    var count := store.DeleteRoles(prunedIds);
    AfterDelete(before, prunedIds, store.db);
    res := Ok(count);
  }

  lemma PrunedAreGone(roles: RoleTable, app: string, m: Items, ids: set<int>)
    requires UniqueRoleCodes(roles)
    requires ids == set c | c in RoleIndex(roles, app).Keys - m.Keys :: RoleIndex(roles, app)[c]
    ensures ids == GoneIds(roles, app, m)
  {
    forall id ensures id in ids <==> id in GoneIds(roles, app, m) {
      if GoneRole(roles, app, m, id) {
        assert RoleIndex(roles, app)[roles[id].code] == id;
      }
    }
  }

  /** Deleting stored roles that nobody holds. */
  lemma AfterDelete(db: RoleDb, ids: set<int>, db': RoleDb)
    requires forall id | id in ids :: id !in db'.roles && id !in db'.links && !Held(db', id)
    requires forall id | id !in ids :: SameAt(db, db', id)
    requires ids <= db.roles.Keys && forall h | h in db.holders :: h.role !in ids
    ensures db' == Without(db, ids) && db'.holders == db.holders
    ensures |db.roles.Keys| - |db'.roles.Keys| == |ids|
  {
    DeletedIsWithout(db, ids, db');
    HoldersStay(db.holders, ids);
    assert db'.roles.Keys == db.roles.Keys - ids;
    assert db.roles.Keys == ids + (db.roles.Keys - ids);
  }

  lemma HoldersStay(holders: set<Holding>, ids: set<int>)
    requires forall h | h in holders :: h.role !in ids
    ensures (set h | h in holders && h.role !in ids) == holders
  {
  }

  lemma HeldExactly(db: RoleDb, app: string, m: Items, order: seq<int>)
    requires Elements(order) == GoneIds(db.roles, app, m)
    ensures InUse(db, app, m) <==> exists h :: h in db.holders && h.role in order
    ensures !InUse(db, app, m) ==> forall h | h in db.holders :: h.role !in Elements(order)
  {
    if h :| h in db.holders && h.role in order {
      assert h.role in Elements(order);
      assert Held(db, h.role);
    }
    if id :| GoneRole(db.roles, app, m, id) && Held(db, id) {
      assert id in Elements(order);
    }
  }

  // ---- The whole sync

  /** The tables after a successful sync. */
  ghost predicate RolesSynced(db: RoleDb, perms: Table, app: string, m: Items, now: int, db': RoleDb) {
    && ConsistentRoles(db') && db'.holders == db.holders
    && (forall id {:trigger id in db'.roles} | id in db'.roles && db'.roles[id].app == app ::
          Matches(db', perms, app, m, now, id))
    && (forall c {:trigger c in m} | c in m :: HasCode(db', app, c))
    && (forall id {:trigger id in db.roles} | id in db.roles && db.roles[id].app != app :: KeepsRole(db, db', id))
    && (forall id {:trigger id in db'.roles} | id in db'.roles && db'.roles[id].app != app :: id in db.roles)
    && (forall id {:trigger id in db.roles} | CommonRole(db.roles, app, m, id) ::
          id in db'.roles && db'.roles[id].code == db.roles[id].code)
    && (forall id {:trigger id in db.roles} | GoneRole(db.roles, app, m, id) :: id !in db'.roles)
  }

  lemma SyncedByPhases(db0: RoleDb, db1: RoleDb, db2: RoleDb, perms: Table, app: string, m: Items, now: int)
    requires ConsistentRoles(db0) && CreatedAll(db0, perms, app, m, now, db1)
    requires Aligned(db0, db1, perms, app, m, now, m.Keys * AppRoleCodes(db0.roles, app), db2)
    requires !InUse(db0, app, m)
    ensures RolesSynced(db0, perms, app, m, now, Without(db2, GoneIds(db0.roles, app, m)))
  {
    var gone := GoneIds(db0.roles, app, m);
    var db3 := Without(db2, gone);
    forall h | h in db2.holders ensures h.role !in gone {
      assert Held(db0, h.role);
    }
    HoldersStay(db2.holders, gone);
    forall id | id in db3.roles && db3.roles[id].app == app ensures Matches(db3, perms, app, m, now, id) {
      SyncedRow(db0, db1, db2, perms, app, m, now, id);
    }
    forall id | id in db0.roles ensures KeepsRole(db0, db1, id) {}
    forall id | id in db0.roles && db0.roles[id].app != app ensures KeepsRole(db0, db3, id) {
      assert KeepsRole(db0, db1, id) && id in db1.roles;
      assert KeepsRole(db1, db2, id);
    }
    forall id | id in db3.roles && db3.roles[id].app != app ensures id in db0.roles {
      assert id in db1.roles;
      if id !in db0.roles {
        assert false;
      }
    }
    forall c | c in m ensures HasCode(db3, app, c) {
      SyncedCode(db0, db1, db2, perms, app, m, now, c);
    }
    forall id | CommonRole(db0.roles, app, m, id)
      ensures id in db3.roles && db3.roles[id].code == db0.roles[id].code
    {
      assert KeepsRole(db0, db1, id) && id in db1.roles;
    }
  }

  lemma SyncedRow(db0: RoleDb, db1: RoleDb, db2: RoleDb, perms: Table, app: string, m: Items, now: int, id: int)
    requires ConsistentRoles(db0) && CreatedAll(db0, perms, app, m, now, db1)
    requires Aligned(db0, db1, perms, app, m, now, m.Keys * AppRoleCodes(db0.roles, app), db2)
    requires id in db2.roles && id !in GoneIds(db0.roles, app, m) && db2.roles[id].app == app
    ensures Matches(db2, perms, app, m, now, id)
  {
  }

  lemma SyncedCode(db0: RoleDb, db1: RoleDb, db2: RoleDb, perms: Table, app: string, m: Items, now: int, c: string)
    requires ConsistentRoles(db0) && CreatedAll(db0, perms, app, m, now, db1)
    requires Aligned(db0, db1, perms, app, m, now, m.Keys * AppRoleCodes(db0.roles, app), db2)
    requires c in m
    ensures HasCode(Without(db2, GoneIds(db0.roles, app, m)), app, c)
  {
    var id: int;
    if c in AppRoleCodes(db0.roles, app) {
      id :| id in db0.roles && db0.roles[id].app == app && db0.roles[id].code == c;
      assert KeepsRole(db0, db1, id);
    } else {
      assert HasCode(db1, app, c);
      id :| id in db1.roles && db1.roles[id].app == app && db1.roles[id].code == c;
    }
    assert id in db1.roles && id !in GoneIds(db0.roles, app, m);
    assert Without(db2, GoneIds(db0.roles, app, m)).roles[id].code == c;
  }

  /**
   sync_roles. It fails exactly when a new role cannot be created or a dropped one is still held, and
   then all tables are as before, whatever the first phases had written.
   */
  method SyncRoles(store: RoleStore, perms: Table, app: string, items: seq<RoleItem>, now: int)
      returns (res: Result<RoleSyncResult, RoleSyncError>)
    requires store.Valid() && UniqueCodes(perms)
    modifies store
    ensures store.Valid()
    ensures res.Ok? <==> !CreateBlocked(old(store.db.roles), perms, app, ByCode(items), store.apps)
                         && !InUse(old(store.db), app, ByCode(items))
    ensures res.Err? ==> store.db == old(store.db)
    ensures res.Ok? ==> RolesSynced(old(store.db), perms, app, ByCode(items), now, store.db)
    ensures res.Ok? ==> ResultOf(old(store.db), perms, app, ByCode(items), res.value)
  {
    ghost var db0 := store.db;
    var saved := store.db;
    var m := ByCode(items);
    var index := RoleIndex(store.db.roles, app);
    IndexCodes(store.db.roles, app);
    var permIndex := PermIndex(perms, app);
    var created := CreatePhase(store, perms, app, m, m.Keys - index.Keys, permIndex, now);
    if created.Err? {
      store.db := saved;
      return Err(created.error);
    }
    ghost var db1 := store.db;
    var updated, same := AlignPhase(store, db0, perms, app, m, m.Keys * index.Keys, index, permIndex, now);
    ghost var db2 := store.db;
    AlignedKeepsIds(db0, db1, perms, app, m, now, m.Keys * index.Keys, db2);
    var pruned := DeletePhase(store, db0, app, m, index, index.Keys - m.Keys);
    if pruned.Err? {
      store.db := saved;
      return Err(pruned.error);
    }
    SyncedByPhases(db0, db1, db2, perms, app, m, now);
    res := Ok(RoleSyncResult(created.value, updated, pruned.value, same));
  }

  /** The four counters: new codes, common codes that differed, dropped roles, common codes that did not differ. */
  ghost predicate ResultOf(db: RoleDb, perms: Table, app: string, m: Items, r: RoleSyncResult)
    requires UniqueRoleCodes(db.roles)
  {
    && r.created == |m.Keys - AppRoleCodes(db.roles, app)|
    && Counted(ChangedCodes(db, perms, app, m), m.Keys * AppRoleCodes(db.roles, app), r.updated, r.same)
    && r.pruned == |GoneIds(db.roles, app, m)|
  }

  lemma IndexCodes(roles: RoleTable, app: string)
    requires UniqueRoleCodes(roles)
    ensures RoleIndex(roles, app).Keys == AppRoleCodes(roles, app)
  {
    forall c ensures c in RoleIndex(roles, app) <==> c in AppRoleCodes(roles, app) {
    }
  }

  lemma AlignedKeepsIds(db0: RoleDb, db1: RoleDb, perms: Table, app: string, m: Items, now: int, done: set<string>, db2: RoleDb)
    requires KeepsRoles(db0, db1) && Aligned(db0, db1, perms, app, m, now, done, db2)
    ensures db0.roles.Keys <= db2.roles.Keys
  {
    forall id | id in db0.roles ensures id in db2.roles {
      assert KeepsRole(db0, db1, id);
    }
  }

  // ---- What a sync means

  /** Column by column, what a sync leaves: each role of the app as reported, with exactly the links its item names. */
  lemma RolesExactly(db: RoleDb, perms: Table, app: string, m: Items, now: int, db': RoleDb, id: int, p: int)
    requires RolesSynced(db, perms, app, m, now, db')
    ensures db'.holders == db.holders
    ensures id in db'.roles && db'.roles[id].app == app ==>
              var r := db'.roles[id];
              && r.id == id && r.code in m && r.name == m[r.code].name && r.synced == Some(now)
              && ((id in db'.links && p in db'.links[id]) <==>
                    p in perms && perms[p].app == app && perms[p].active && perms[p].code in m[r.code].permissionCodes)
    ensures id in db.roles && db.roles[id].app != app ==>
              && id in db'.roles && db'.roles[id] == db.roles[id]
              && ((id in db'.links && p in db'.links[id]) <==> (id in db.links && p in db.links[id]))
    ensures id in db.roles && db.roles[id].app == app ==> (id in db'.roles <==> db.roles[id].code in m)
  {
    if id in db.roles {
      LinksAfter(db, perms, app, m, now, db', id);
    }
    if id in db'.roles && db'.roles[id].app == app {
      assert Matches(db', perms, app, m, now, id);
      assert p in LinksOf(db', id) <==> p in Targets(perms, app, m[db'.roles[id].code]);
    }
    if id in db.roles && db.roles[id].app != app {
      assert KeepsRole(db, db', id);
      assert p in LinksOf(db', id) <==> p in LinksOf(db, id);
    }
  }

  /** The reasons a sync is refused, read off the tables. */
  lemma RefusedExactly(db: RoleDb, perms: Table, app: string, m: Items, apps: set<string>)
    requires UniqueCodes(perms)
    ensures CreateBlocked(db.roles, perms, app, m, apps) <==>
            exists c :: c in m && (forall id | id in db.roles && db.roles[id].app == app :: db.roles[id].code != c)
              && ((exists id :: id in db.roles && db.roles[id].code == c) || app !in apps
                  || RepeatsActive(perms, app, m[c].permissionCodes))
    ensures InUse(db, app, m) <==>
            exists h :: h in db.holders && h.role in db.roles && db.roles[h.role].app == app && db.roles[h.role].code !in m
  {
    if c :| c in m && (forall id | id in db.roles && db.roles[id].app == app :: db.roles[id].code != c)
            && ((exists id :: id in db.roles && db.roles[id].code == c) || app !in apps
                || RepeatsActive(perms, app, m[c].permissionCodes)) {
      RepeatsExactly(perms, app, m[c].permissionCodes);
      assert CannotCreate(db.roles, perms, app, m, apps, c);
    }
    if c :| CannotCreate(db.roles, perms, app, m, apps, c) {
      RepeatsExactly(perms, app, m[c].permissionCodes);
    }
    if h :| h in db.holders && h.role in db.roles && db.roles[h.role].app == app && db.roles[h.role].code !in m {
      assert GoneRole(db.roles, app, m, h.role) && Held(db, h.role);
    }
  }

  /** The list names the code of some active permission of the app at two places. */
  ghost predicate RepeatsActive(perms: Table, app: string, codes: seq<string>) {
    exists i, j, p ::
      && 0 <= i < j < |codes| && codes[i] == codes[j]
      && p in perms && perms[p].app == app && perms[p].active && perms[p].code == codes[i]
  }

  lemma RepeatsExactly(perms: Table, app: string, codes: seq<string>)
    requires UniqueCodes(perms)
    ensures RepeatsActive(perms, app, codes) <==> NamesTwice(PermIndex(perms, app), codes)
  {
    var index := PermIndex(perms, app);
    if i, j, p :| 0 <= i < j < |codes| && codes[i] == codes[j]
                  && p in perms && perms[p].app == app && perms[p].active && perms[p].code == codes[i] {
      assert Usable(perms, app, p) && perms[p].code in index;
    }
    if i, j :| 0 <= i < j < |codes| && codes[i] == codes[j] && codes[i] in index {
      var p := index[codes[i]];
      assert perms[p].code == codes[i] && p in perms && perms[p].app == app && perms[p].active;
    }
  }

  /** The common codes that count as updated: the stored role has another name or other links than reported. */
  lemma ChangedExactly(db: RoleDb, perms: Table, app: string, m: Items, c: string)
    requires UniqueRoleCodes(db.roles)
    ensures c in ChangedCodes(db, perms, app, m) <==>
            c in m && exists id ::
              && id in db.roles && db.roles[id].app == app && db.roles[id].code == c
              && (db.roles[id].name != m[c].name || LinksOf(db, id) != Targets(perms, app, m[c]))
  {
    var index := RoleIndex(db.roles, app);
    if c in m && c in index {
      assert db.roles[index[c]].code == c;
    }
  }

  /** A manifest whose new role names one active permission twice cannot be synced. */
  lemma RepeatedPermissionIsRefused(perms: Table, app: string, apps: set<string>, id: int, role: string, name: string)
    requires UniqueCodes(perms) && Usable(perms, app, id)
    ensures var it := RoleItem(role, name, [perms[id].code, perms[id].code]);
            CreateBlocked(map[], perms, app, ByCode([it]), apps)
  {
    var it := RoleItem(role, name, [perms[id].code, perms[id].code]);
    var m := ByCode([it]);
    assert it in [it] && m[role] == it;
    assert it.permissionCodes[0] == it.permissionCodes[1];
    assert NamesTwice(PermIndex(perms, app), it.permissionCodes);
    assert CannotCreate(map[], perms, app, m, apps, role);
  }

  /** A role that survives a sync stays with its app. */
  lemma SameAppAfter(db: RoleDb, perms: Table, app: string, m: Items, now: int, db': RoleDb, id: int)
    requires RolesSynced(db, perms, app, m, now, db') && CommonRole(db.roles, app, m, id)
    ensures id in db'.roles && db'.roles[id].app == app
  {
    var c := db.roles[id].code;
    assert HasCode(db', app, c);
    var k :| k in db'.roles && db'.roles[k].app == app && db'.roles[k].code == c;
    assert db'.roles[id].code == c;
  }

  /** What a stored role links after a sync: a role of the app what its item names, any other what it linked before. */
  lemma LinksAfter(db: RoleDb, perms: Table, app: string, m: Items, now: int, db': RoleDb, id: int)
    requires RolesSynced(db, perms, app, m, now, db') && id in db.roles
    ensures id in db'.roles <==> (db.roles[id].app == app ==> db.roles[id].code in m)
    ensures id in db'.roles ==>
              LinksOf(db', id) == if db.roles[id].app == app then Targets(perms, app, m[db.roles[id].code]) else LinksOf(db, id)
  {
    if db.roles[id].app != app {
      assert KeepsRole(db, db', id);
    } else if db.roles[id].code in m {
      assert CommonRole(db.roles, app, m, id);
      SameAppAfter(db, perms, app, m, now, db', id);
      assert Matches(db', perms, app, m, now, id);
    } else {
      assert GoneRole(db.roles, app, m, id);
    }
  }

  /** Afterwards the app's role codes are exactly the reported ones. */
  lemma CodesAreReported(db: RoleDb, perms: Table, app: string, m: Items, now: int, db': RoleDb)
    requires RolesSynced(db, perms, app, m, now, db')
    ensures AppRoleCodes(db'.roles, app) == m.Keys
  {
  }

  lemma NothingToAlign(db: RoleDb, perms: Table, app: string, m: Items, now: int, db': RoleDb)
    requires RolesSynced(db, perms, app, m, now, db')
    ensures ChangedCodes(db', perms, app, m) == {} && GoneIds(db'.roles, app, m) == {}
  {
  }

  lemma RerunCannotFail(db: RoleDb, perms: Table, app: string, m: Items, now: int, db': RoleDb, apps: set<string>)
    requires UniqueCodes(perms) && RolesSynced(db, perms, app, m, now, db')
    ensures !CreateBlocked(db'.roles, perms, app, m, apps) && !InUse(db', app, m)
  {
  }

  lemma AllSame(codes: set<string>, r: RoleSyncResult)
    requires r.created == |codes - codes| && Counted({}, codes * codes, r.updated, r.same) && r.pruned == 0
    ensures r == RoleSyncResult(0, 0, 0, |codes|)
  {
    assert codes - codes == {} && codes * codes == codes;
    assert {} * codes == {} && codes - {} == codes;
  }

  /** An immediate rerun cannot fail and reports nothing but unchanged roles, one for each distinct code. */
  lemma RerunReportsNothing(db: RoleDb, perms: Table, app: string, m: Items, now: int, db': RoleDb,
                            apps: set<string>, r: RoleSyncResult)
    requires UniqueCodes(perms) && RolesSynced(db, perms, app, m, now, db') && ResultOf(db', perms, app, m, r)
    ensures !CreateBlocked(db'.roles, perms, app, m, apps) && !InUse(db', app, m)
    ensures r == RoleSyncResult(0, 0, 0, |m|)
  {
    CodesAreReported(db, perms, app, m, now, db');
    NothingToAlign(db, perms, app, m, now, db');
    RerunCannotFail(db, perms, app, m, now, db', apps);
    AllSame(m.Keys, r);
  }

  /** The rerun also leaves every role's row, up to the timestamp, and all links as they are. */
  lemma RerunChangesNothing(db: RoleDb, perms: Table, app: string, m: Items, now: int, db': RoleDb, now2: int, db'': RoleDb)
    requires RolesSynced(db, perms, app, m, now, db') && RolesSynced(db', perms, app, m, now2, db'')
    ensures forall id :: id in db''.roles <==> id in db'.roles
    ensures forall id | id in db'.roles ::
              db''.roles[id].(synced := None) == db'.roles[id].(synced := None) && LinksOf(db'', id) == LinksOf(db', id)
    ensures db''.holders == db.holders
  {
    forall id ensures id in db''.roles <==> id in db'.roles {
      if id in db''.roles && id !in db'.roles {
        assert Matches(db'', perms, app, m, now2, id);
        var c := db''.roles[id].code;
        assert HasCode(db', app, c);
        var id' :| id' in db'.roles && db'.roles[id'].app == app && db'.roles[id'].code == c;
        assert CommonRole(db'.roles, app, m, id');
        assert false;
      } else if id in db'.roles {
        RerunRow(db, perms, app, m, now, db', now2, db'', id);
      }
    }
    forall id | id in db'.roles
      ensures db''.roles[id].(synced := None) == db'.roles[id].(synced := None) && LinksOf(db'', id) == LinksOf(db', id)
    {
      RerunRow(db, perms, app, m, now, db', now2, db'', id);
    }
  }

  lemma RerunRow(db: RoleDb, perms: Table, app: string, m: Items, now: int, db': RoleDb, now2: int, db'': RoleDb, id: int)
    requires RolesSynced(db, perms, app, m, now, db') && RolesSynced(db', perms, app, m, now2, db'') && id in db'.roles
    ensures id in db''.roles
    ensures db''.roles[id].(synced := None) == db'.roles[id].(synced := None) && LinksOf(db'', id) == LinksOf(db', id)
  {
  }
}
