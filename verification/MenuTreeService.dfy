/** Reading a user's menu tree through the cache, and the syncs that evict it afterwards. */
module MenuTreeService {
  import opened Prelude
  import opened Manifest
  import opened Permissions
  import opened MenuTree
  import opened MenuCache
  import opened PermissionSync
  import RoleSync

  // ---- The ordered answer of the database

  function InsertBySort(rows: seq<Row>, r: Row): seq<Row> {
    if rows == [] then [r]
    else
      var last := |rows| - 1;
      if rows[last].fields.sort <= r.fields.sort then rows + [r]
      else InsertBySort(rows[..last], r) + [rows[last]]
  }

  lemma {:induction false} InsertedMembers(rows: seq<Row>, r: Row, x: Row)
    ensures x in InsertBySort(rows, r) <==> x in rows || x == r
  {
    if rows != [] && rows[|rows| - 1].fields.sort > r.fields.sort {
      var last := |rows| - 1;
      InsertedMembers(rows[..last], r, x);
      assert rows == rows[..last] + [rows[last]];
    }
  }

  lemma {:induction false} InsertedSorted(rows: seq<Row>, r: Row)
    requires Sorted(rows)
    ensures Sorted(InsertBySort(rows, r))
  {
    if rows != [] {
      var last := |rows| - 1;
      if rows[last].fields.sort > r.fields.sort {
        InsertedSorted(rows[..last], r);
        var before := InsertBySort(rows[..last], r);
        forall i | 0 <= i < |before| ensures before[i].fields.sort <= rows[last].fields.sort {
          InsertedMembers(rows[..last], r, before[i]);
        }
      }
    }
  }

  lemma {:induction false} InsertedDistinct(rows: seq<Row>, r: Row)
    requires DistinctIds(rows) && r.id !in IdsOf(rows)
    ensures DistinctIds(InsertBySort(rows, r))
  {
    if rows != [] {
      var last := |rows| - 1;
      if rows[last].fields.sort > r.fields.sort {
        InsertedDistinct(rows[..last], r);
        var before := InsertBySort(rows[..last], r);
        forall i | 0 <= i < |before| ensures before[i].id != rows[last].id {
          InsertedMembers(rows[..last], r, before[i]);
        }
      }
    }
  }

  lemma OneMoreListed(rows: seq<Row>, perms: Table, ids: set<int>, id: int)
    requires DistinctIds(rows) && Sorted(rows) && Lists(rows, perms, ids) && id in perms && id !in ids && perms[id].id == id
    ensures var more := InsertBySort(rows, perms[id]);
            DistinctIds(more) && Sorted(more) && Lists(more, perms, ids + {id})
  {
    InsertedSorted(rows, perms[id]);
    InsertedDistinct(rows, perms[id]);
    forall r {
      InsertedMembers(rows, perms[id], r);
    }
  }

  /** SELECT ... ORDER BY sort for the visible rows; ties come in whatever order the rows were met. */
  method SelectVisible(db: Db, user: int, app: string) returns (rows: seq<Row>)
    requires Consistent(db.perms)
    ensures Answers(rows, db, user, app)
  {
    var order := AnyOrder(VisibleIds(db, user, app));
    rows := [];
    for i := 0 to |order|
      invariant DistinctIds(rows) && Sorted(rows) && Lists(rows, db.perms, Elements(order[..i]))
    {
      OneFurther(order, i);
      OneMoreListed(rows, db.perms, Elements(order[..i]), order[i]);
      rows := InsertBySort(rows, db.perms[order[i]]);
    }
    AllTaken(order);
  }

  // ---- Serialising the linked nodes

  /** The links are those the nodes have now. */
  ghost predicate Snapshot(links: Links)
    reads links.Keys
  {
    forall n | n in links.Keys :: links[n] == n.children
  }

  method Dump(n: Node, ghost links: Links, ghost t: Tree) returns (dumped: Tree)
    requires Snapshot(links) && Represents(links, n, t)
    ensures dumped == t
    decreases t
  {
    var children := DumpAll(n.children, links, t.children);
    dumped := Tree(n.item, children);
  }

  method DumpAll(ns: seq<Node>, ghost links: Links, ghost ts: seq<Tree>) returns (dumped: seq<Tree>)
    requires Snapshot(links) && RepresentAll(links, ns, ts)
    ensures dumped == ts
    decreases ts
  {
    if ns == [] {
      return [];
    }
    var last := |ns| - 1;
    var before := DumpAll(ns[..last], links, ts[..last]);
    var t := Dump(ns[last], links, ts[last]);
    dumped := before + [t];
  }

  method BuildMenuData(rows: seq<Row>) returns (data: MenuData)
    requires DistinctIds(rows)
    ensures data == MenuData(MenuTreeOf(rows), ButtonCodes(rows))
  {
    var roots, buttons, nodes := BuildMenuTree(rows);
    BuiltTreeIsMenuTree(rows, nodes, roots);
    var trees := DumpAll(roots, LinksOf(nodes), MenuTreeOf(rows));
    data := MenuData(trees, buttons);
  }

  ghost predicate LinkedBy(access: RoleSync.RoleDb, user: int, role: int, id: int) {
    Holds(access, user, role) && id in RoleSync.LinksOf(access, role)
  }

  ghost predicate HoldsLinkInto(rows: Table, access: RoleSync.RoleDb, app: string, user: int) {
    exists role, id :: LinkedBy(access, user, role, id) && id in rows && rows[id].app == app
  }

  lemma LinkIsEviction(rows: Table, access: RoleSync.RoleDb, app: string, user: int)
    ensures HoldsLinkInto(rows, access, app, user) <==> EvictedUser(Db(rows, access), app, user)
  {
    if role, id :| LinkedBy(access, user, role, id) && id in rows && rows[id].app == app {
      assert HasLink(access, user, id);
    }
    if id :| id in rows && rows[id].app == app && HasLink(access, user, id) {
      var role :| role in access.roles && Holds(access, user, role) && id in RoleSync.LinksOf(access, role);
      assert LinkedBy(access, user, role, id);
    }
  }

  /** What is known entry by entry determines the cache after an eviction. */
  lemma EvictedByEntry(s: State, app: string, cache: map<CacheKey, Cached>)
    requires forall k :: k in cache <==> k in s.cache && !(k.app == app && HoldsLinkInto(s.db.perms, s.db.access, app, k.user))
    requires forall k | k in cache :: cache[k] == s.cache[k]
    ensures s.(cache := cache) == Evicted(s, app)
  {
    forall k ensures k in cache <==> k in Evicted(s, app).cache {
      LinkIsEviction(s.db.perms, s.db.access, app, k.user);
    }
  }

  class MenuTreeService {
    const repo: PermissionRepository
    const store: RoleSync.RoleStore
    var now: int
    var cache: map<CacheKey, Cached>

    ghost function Abs(): State
      reads this, repo, store
    {
      State(now, Db(repo.rows, store.db), cache)
    }

    constructor (repo: PermissionRepository, store: RoleSync.RoleStore, start: int)
      ensures this.repo == repo && this.store == store && now == start && cache == map[]
    {
      this.repo, this.store, now, cache := repo, store, start, map[];
    }

    method GetUserMenuTree(user: int, app: string) returns (data: MenuData)
      requires repo.Valid()
      modifies this`cache
      ensures Next(old(Abs()), Read(user, app, data), Abs())
      ensures CacheKey(user, app) in old(cache) ==> data == old(cache)[CacheKey(user, app)].data && cache == old(cache)
      ensures CacheKey(user, app) !in old(cache) ==>
                BuiltFrom(data, Db(repo.rows, store.db), user, app)
                && cache == old(cache)[CacheKey(user, app) := Cached(data, now + 300)]
    {
      var key := CacheKey(user, app);
      if key in cache {
        return cache[key].data;
      }
      var rows := SelectVisible(Db(repo.rows, store.db), user, app);
      data := BuildMenuData(rows);
      cache := cache[key := Cached(data, now + MENU_TREE_CACHE_TTL)];
    }

    /** A tree goes exactly if it is of this app and its user holds a role linked to a row of the app; all others stay. */
    method ClearAppCacheForUsers(app: string)
      modifies this`cache
      ensures forall k :: k in cache <==> k in old(cache) && !(k.app == app && HoldsLinkInto(repo.rows, store.db, app, k.user))
      ensures forall k | k in cache :: cache[k] == old(cache)[k]
    {
      cache := cache - EvictedKeys(Db(repo.rows, store.db), app, cache.Keys);
      forall u ensures HoldsLinkInto(repo.rows, store.db, app, u) <==> EvictedUser(Db(repo.rows, store.db), app, u) {
        LinkIsEviction(repo.rows, store.db, app, u);
      }
    }

    method Wait(d: nat)
      modifies this
      ensures Next(old(Abs()), Tick(d), Abs())
    {
      now := now + d;
      cache := map k | k in cache && now < cache[k].until :: cache[k];
    }

    method SyncPermissionsAndEvict(app: string, items: seq<Item>, at: int, later: int)
        returns (res: Result<SyncResult, SyncError>, ghost ids: Index)
      requires repo.Valid() && DroppedOffCycles(repo.rows, app, ByCode(items))
      modifies repo, this`cache
      ensures repo.Valid()
      ensures res.Ok? <==> !Blocked(old(repo.rows), app, ByCode(items))
      ensures res.Err? ==> res.error.Database? && repo.rows == old(repo.rows)
      ensures res.Ok? ==> SyncedBy(old(repo.rows), app, ByCode(items), at, later, ids, repo.rows)
      ensures res.Ok? ==> res.value == SyncResult(|ids|, |UpdatedIds(old(repo.rows), app, ByCode(items))|,
                                                  |PrunedIds(old(repo.rows), app, ByCode(items))|,
                                                  |UntouchedIds(old(repo.rows), app, ByCode(items))|)
      ensures Next(old(Abs()), Change(Db(repo.rows, store.db), if res.Ok? then Some(app) else None), Abs())
    {
      res, ids := SyncPermissions(repo, app, items, at, later);
      if res.Ok? {
        ghost var synced := Abs();
        ClearAppCacheForUsers(app);
        EvictedByEntry(synced, app, cache);
      }
    }

    method SyncRolesAndEvict(app: string, items: seq<RoleSync.RoleItem>, at: int)
        returns (res: Result<RoleSync.RoleSyncResult, RoleSync.RoleSyncError>)
      requires store.Valid() && Consistent(repo.rows)
      modifies store, this`cache
      ensures store.Valid()
      ensures res.Ok? <==> !RoleSync.CreateBlocked(old(store.db.roles), repo.rows, app, RoleSync.ByCode(items), store.apps)
                           && !RoleSync.InUse(old(store.db), app, RoleSync.ByCode(items))
      ensures res.Err? ==> store.db == old(store.db)
      ensures res.Ok? ==> RoleSync.RolesSynced(old(store.db), repo.rows, app, RoleSync.ByCode(items), at, store.db)
      ensures res.Ok? ==> RoleSync.ResultOf(old(store.db), repo.rows, app, RoleSync.ByCode(items), res.value)
      ensures Next(old(Abs()), Change(Db(repo.rows, store.db), if res.Ok? then Some(app) else None), Abs())
    {
      res := RoleSync.SyncRoles(store, repo.rows, app, items, at);
      if res.Ok? {
        ghost var synced := Abs();
        ClearAppCacheForUsers(app);
        EvictedByEntry(synced, app, cache);
      }
    }
  }
}
