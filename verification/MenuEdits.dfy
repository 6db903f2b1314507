/** Menu creation, update and deletion, and what every run of edits and syncs keeps. */
module MenuEdits {
  import opened Prelude
  import opened Forest
  import opened RecursiveQueries
  import opened Permissions
  import Manifest
  import PermissionSync

  datatype EditError = AppRequired | MenuNotFound | HasChildren | Rejected(error: DbError)

  /** A field of an update request: left out, or set to a value. */
  datatype Patch<+T> = Unset | Set(value: T)

  datatype MenuUpdate = MenuUpdate(
    parent: Patch<Option<int>>,
    code: Patch<Option<string>>,
    name: Patch<Option<string>>,
    kind: Patch<Option<string>>,
    path: Patch<Option<string>>,
    component: Patch<Option<string>>,
    isExt: Patch<Option<bool>>,
    extUrl: Patch<Option<string>>,
    icon: Patch<Option<string>>,
    sort: Patch<Option<int>>,
    isVisible: Patch<Option<bool>>,
    isActive: Patch<Option<bool>>)

  function Patched<T>(p: Patch<T>, current: T): T {
    if p.Set? then p.value else current
  }

  /** Setting a column that must not be null to null breaks a constraint. */
  predicate NotNull<T>(p: Patch<Option<T>>) {
    p.Set? ==> p.value.Some?
  }

  predicate NoNulls(u: MenuUpdate) {
    && NotNull(u.code) && NotNull(u.name) && NotNull(u.kind) && NotNull(u.isExt)
    && NotNull(u.sort) && NotNull(u.isVisible) && NotNull(u.isActive)
  }

  function Required<T>(p: Patch<Option<T>>, current: T): T
    requires NotNull(p)
  {
    if p.Set? then p.value.value else current
  }

  function Updated(r: Row, u: MenuUpdate): Row
    requires NoNulls(u)
  {
    r.(parent := Patched(u.parent, r.parent),
       code := Required(u.code, r.code),
       active := Required(u.isActive, r.active),
       fields := r.fields.(
         name := Required(u.name, r.fields.name),
         kind := Required(u.kind, r.fields.kind),
         path := Patched(u.path, r.fields.path),
         component := Patched(u.component, r.fields.component),
         isExt := Required(u.isExt, r.fields.isExt),
         extUrl := Patched(u.extUrl, r.fields.extUrl),
         icon := Patched(u.icon, r.fields.icon),
         sort := Required(u.sort, r.fields.sort),
         isVisible := Required(u.isVisible, r.fields.isVisible)))
  }

  /** The parent that an update is checked against: clearing the parent counts as keeping it. */
  function CheckedParent(menu: Row, data: MenuUpdate): Option<int> {
    if data.parent.Set? && data.parent.value.Some? then data.parent.value else menu.parent
  }

  /** A parent id of 0 counts as no parent, as it does in the validation. */
  predicate IsRootChoice(parent: Option<int>) {
    parent.None? || parent.value == 0
  }

  /** The validation comes to an end: it asks for descendants only if neither shortcut answers. */
  ghost predicate CanValidate(t: Table, menuId: int, parent: Option<int>) {
    IsRootChoice(parent) || parent.value == menuId || !OnCycle(ParentsOf(t), menuId)
  }

  /** The validation answers yes exactly when the new parent is a root choice or not at or below the node. */
  method ValidateMenuRelation(repo: PermissionRepository, menuId: int, parent: Option<int>) returns (ok: bool)
    requires repo.Valid() && CanValidate(repo.rows, menuId, parent)
    ensures ok <==> IsRootChoice(parent) || (parent.value != menuId && !Above(ParentsOf(repo.rows), menuId, parent.value))
  {
    if IsRootChoice(parent) {
      return true;
    }
    if menuId == parent.value {
      return false;
    }
    var descendants := repo.GetDescendantIds(menuId);
    assert parent.value in descendants <==> parent.value in multiset(descendants);
    ok := parent.value !in descendants;
  }

  /** The answer that the validation gives, as a function of the table. */
  ghost predicate Validates(t: Table, menuId: int, parent: Option<int>) {
    IsRootChoice(parent) || (parent.value != menuId && !Above(ParentsOf(t), menuId, parent.value))
  }

  /** The validation is exact: it accepts a stored parent exactly when moving the node there closes no cycle. */
  lemma ValidationExact(t: Table, menuId: int, parent: Option<int>)
    requires Consistent(t) && Acyclic(ParentsOf(t)) && menuId in t
    requires parent.Some? ==> parent.value in t && parent.value != 0
    ensures Validates(t, menuId, parent) <==> Acyclic(ParentsOf(t)[menuId := parent])
  {
    if parent.Some? {
      ReparentExact(ParentsOf(t), menuId, parent.value);
      if parent.value == menuId {
        assert Up(ParentsOf(t), menuId, 0) == Some(menuId);
        assert Above(ParentsOf(t), menuId, menuId);
      }
    } else {
      UprootAcyclic(ParentsOf(t), menuId);
    }
  }

  // ---- The edits

  class MenuService {
    const repo: PermissionRepository

    ghost function Abs(): State
      reads this, repo
    {
      State(repo.rows, repo.nextId)
    }

    constructor (repo: PermissionRepository)
      ensures this.repo == repo
    {
      this.repo := repo;
    }

    /** A failed edit leaves the rows alone. The id of a created row is the next one of the sequence. */
    method CreateMenu(draft: Row) returns (res: Result<Row, EditError>)
      requires repo.Valid()
      modifies repo
      ensures repo.Valid() && repo.nextId >= old(repo.nextId)
      ensures res.Ok? <==> Creates(old(repo.rows), old(repo.nextId), draft)
      ensures repo.rows == if res.Ok? then old(repo.rows)[old(repo.nextId) := draft.(id := old(repo.nextId))]
                           else old(repo.rows)
      ensures Step(old(Abs()), Create(draft), Abs())
    {
      if draft.app == "" {
        return Err(AppRequired);
      }
      var valid := ValidateMenuRelation(repo, -1, draft.parent);
      NotBelowDummy(repo.rows, repo.nextId, draft.parent);
      if !valid {
        return Err(MenuNotFound);
      }
      StoreOne(repo.rows, draft, repo.nextId);
      var created := repo.BatchCreate([draft]);
      if created.Err? {
        return Err(Rejected(created.error));
      }
      res := Ok(created.value[0]);
    }

    method UpdateMenu(menuId: int, data: MenuUpdate) returns (res: Result<(), EditError>)
      requires repo.Valid()
      requires menuId in repo.rows ==> CanValidate(repo.rows, menuId, CheckedParent(repo.rows[menuId], data))
      modifies repo`rows
      ensures repo.Valid()
      ensures res.Ok? <==> Updates(old(repo.rows), menuId, data)
      ensures repo.rows == if res.Ok? then old(repo.rows)[menuId := Updated(old(repo.rows)[menuId], data)]
                           else old(repo.rows)
      ensures Step(old(Abs()), Update(menuId, data), Abs())
      ensures repo.rows.Keys == old(repo.rows).Keys
      ensures forall id | id in repo.rows && id != menuId :: repo.rows[id] == old(repo.rows)[id]
      ensures res.Ok? ==> menuId in repo.rows
      // Column by column: a given value is what the row holds now, and a column that was not given keeps its value.
      ensures res.Ok? ==>
                var r, u := old(repo.rows)[menuId], data;
                var r' := repo.rows[menuId];
                && r'.id == r.id && r'.app == r.app && r'.synced == r.synced && r'.fields.props == r.fields.props
                && r'.parent == (if u.parent.Set? then u.parent.value else r.parent)
                && Some(r'.code) == (if u.code.Set? then u.code.value else Some(r.code))
                && Some(r'.active) == (if u.isActive.Set? then u.isActive.value else Some(r.active))
                && Some(r'.fields.name) == (if u.name.Set? then u.name.value else Some(r.fields.name))
                && Some(r'.fields.kind) == (if u.kind.Set? then u.kind.value else Some(r.fields.kind))
                && r'.fields.path == (if u.path.Set? then u.path.value else r.fields.path)
                && r'.fields.component == (if u.component.Set? then u.component.value else r.fields.component)
                && Some(r'.fields.isExt) == (if u.isExt.Set? then u.isExt.value else Some(r.fields.isExt))
                && r'.fields.extUrl == (if u.extUrl.Set? then u.extUrl.value else r.fields.extUrl)
                && r'.fields.icon == (if u.icon.Set? then u.icon.value else r.fields.icon)
                && Some(r'.fields.sort) == (if u.sort.Set? then u.sort.value else Some(r.fields.sort))
                && Some(r'.fields.isVisible) == (if u.isVisible.Set? then u.isVisible.value else Some(r.fields.isVisible))
    {
      if menuId !in repo.rows {
        return Err(MenuNotFound);
      }
      var menu := repo.rows[menuId];
      var valid := ValidateMenuRelation(repo, menuId, CheckedParent(menu, data));
      if !valid {
        return Err(MenuNotFound);
      }
      if !NoNulls(data) {
        return Err(Rejected(ConstraintViolated));
      }
      var candidate := repo.rows[menuId := Updated(menu, data)];
      if !Consistent(candidate) {
        return Err(Rejected(ConstraintViolated));
      }
      repo.rows := candidate;
      res := Ok(());
    }

    method DeleteMenu(menuId: int) returns (res: Result<(), EditError>)
      requires repo.Valid() && !OnCycle(ParentsOf(repo.rows), menuId)
      modifies repo`rows
      ensures repo.Valid()
      ensures res.Ok? <==> !exists c :: HasParent(ParentsOf(old(repo.rows)), c, menuId)
      ensures repo.rows == if res.Ok? then old(repo.rows) - {menuId} else old(repo.rows)
      ensures Step(old(Abs()), Delete(menuId), Abs())
      ensures res.Ok? <==> forall c | c in old(repo.rows) :: old(repo.rows)[c].parent != Some(menuId)
    {
      var found := repo.CheckHasDescendants(menuId);
      ParentStored(repo.rows, menuId);
      if found {
        return Err(HasChildren);
      }
      LeafRemovable(repo.rows, menuId);
      repo.rows := repo.rows - {menuId};
      res := Ok(());
      assert forall c | c in old(repo.rows) :: !HasParent(ParentsOf(old(repo.rows)), c, menuId);
    }

    /** The sync as a request of a run of edits. */
    method SyncPermissions(app: string, items: seq<Manifest.Item>, now: int, later: int)
        returns (res: Result<PermissionSync.SyncResult, PermissionSync.SyncError>)
      requires repo.Valid() && PermissionSync.DroppedOffCycles(repo.rows, app, Manifest.ByCode(items))
      modifies repo
      ensures repo.Valid()
      ensures res.Ok? <==> !PermissionSync.Blocked(old(repo.rows), app, Manifest.ByCode(items))
      ensures Step(old(Abs()), Sync(app, Manifest.ByCode(items), now, later), Abs())
    {
      ghost var ids;
      res, ids := PermissionSync.SyncPermissions(repo, app, items, now, later);
    }
  }

  ghost predicate Creates(t: Table, nextId: int, draft: Row) {
    && draft.app != ""
    && (draft.parent.Some? ==> draft.parent.value != -1)
    && Consistent(t[nextId := draft.(id := nextId)])
  }

  ghost predicate Updates(t: Table, menuId: int, data: MenuUpdate) {
    && menuId in t && NoNulls(data)
    && Validates(t, menuId, CheckedParent(t[menuId], data))
    && Consistent(t[menuId := Updated(t[menuId], data)])
  }

  /** A creation is accepted exactly with an app, a free code and a parent that is stored or the row's own future id. */
  lemma CreatesExactly(t: Table, nextId: int, draft: Row)
    requires Consistent(t) && Numbered(t, nextId)
    ensures Creates(t, nextId, draft) <==>
            && draft.app != ""
            && (forall id | id in t :: t[id].code != draft.code)
            && (draft.parent.Some? ==> draft.parent.value in t || draft.parent.value == nextId)
  {
    var t' := t[nextId := draft.(id := nextId)];
    assert t'[nextId].code == draft.code && t'[nextId].parent == draft.parent;
    if Creates(t, nextId, draft) {
      forall id | id in t ensures t[id].code != draft.code {
        assert t'[id] == t[id] && id != nextId;
      }
      if draft.parent.Some? {
        assert t'[nextId].parent.value in t';
      }
    }
  }

  /**
   An update is accepted exactly for a stored row, with a value for each column that needs one, a code
   no other row has, a stored parent, and a checked parent that is none or not at or below the row.
   */
  lemma UpdatesExactly(t: Table, menuId: int, u: MenuUpdate)
    requires Consistent(t) && menuId in t && NoNulls(u)
    ensures var r := t[menuId];
            var parent := if u.parent.Set? then u.parent.value else r.parent;
            var code := if u.code.Set? then u.code.value.value else r.code;
            var checked := if u.parent.Set? && u.parent.value.Some? then u.parent.value else r.parent;
            Updates(t, menuId, u) <==>
              && (forall id | id in t && id != menuId :: t[id].code != code)
              && (parent.Some? ==> parent.value in t)
              && (checked.None? || checked.value == 0
                  || (checked.value != menuId && !Above(ParentsOf(t), menuId, checked.value)))
  {
    var t' := t[menuId := Updated(t[menuId], u)];
    UpdateConsistent(t, menuId, Updated(t[menuId], u));
    assert Updated(t[menuId], u).parent == if u.parent.Set? then u.parent.value else t[menuId].parent;
    assert Updated(t[menuId], u).code == if u.code.Set? then u.code.value.value else t[menuId].code;
    var checked := CheckedParent(t[menuId], u);
    assert Updates(t, menuId, u) <==> Validates(t, menuId, checked) && Consistent(t');
  }

  lemma UpdateConsistent(t: Table, id: int, r: Row)
    requires Consistent(t) && id in t && r.id == id
    ensures Consistent(t[id := r]) <==>
            (forall i | i in t && i != id :: t[i].code != r.code) && (r.parent.Some? ==> r.parent.value in t)
  {
    var t' := t[id := r];
    if Consistent(t') {
      forall i | i in t && i != id ensures t[i].code != r.code {
        assert t'[i] == t[i] && t'[id] == r;
      }
      if r.parent.Some? {
        assert t'[id].parent.value in t';
      }
    }
  }

  lemma NullsExactly(u: MenuUpdate)
    ensures NoNulls(u) <==>
            && u.code != Set(None) && u.name != Set(None) && u.kind != Set(None) && u.isExt != Set(None)
            && u.sort != Set(None) && u.isVisible != Set(None) && u.isActive != Set(None)
  {
  }

  lemma NotBelowDummy(t: Table, nextId: int, parent: Option<int>)
    requires Numbered(t, nextId)
    ensures Validates(t, -1, parent) <==> (parent.Some? ==> parent.value != -1)
  {
    if parent.Some? && Above(ParentsOf(t), -1, parent.value) {
      assert false;
    }
  }

  lemma StoreOne(t: Table, draft: Row, first: int)
    ensures StoreAll(t, Placed([draft], first)) == t[first := draft.(id := first)]
  {
    var created := Placed([draft], first);
    assert created[..0] == [];
    assert StoreAll(t, created[..0]) == t;
  }

  lemma ParentStored(t: Table, p: int)
    requires ParentsStored(t)
    ensures (exists c :: HasParent(ParentsOf(t), c, p)) ==> p in t
  {
    if c :| HasParent(ParentsOf(t), c, p) {
      assert t[c].parent == Some(p);
    }
  }

  lemma LeafRemovable(t: Table, x: int)
    requires Consistent(t) && !exists c :: HasParent(ParentsOf(t), c, x)
    ensures Consistent(t - {x})
  {
    forall i | i in t - {x} && t[i].parent.Some? ensures t[i].parent.value in t - {x} {
      assert !HasParent(ParentsOf(t), i, x);
    }
  }

  // ---- Runs

  datatype State = State(rows: Table, nextId: int)

  datatype Edit =
    | Create(draft: Row)
    | Update(id: int, data: MenuUpdate)
    | Delete(id: int)
    | Sync(app: string, manifest: PermissionSync.Items, now: int, later: int)

  /** One committed or failed request. Sequence numbers may be spent in any amount. */
  ghost predicate Step(s: State, e: Edit, s': State) {
    && s.nextId <= s'.nextId && Numbered(s'.rows, s'.nextId)
    && match e
       case Create(draft) =>
         s'.rows == if Creates(s.rows, s.nextId, draft) then s.rows[s.nextId := draft.(id := s.nextId)] else s.rows
       case Update(id, data) =>
         s'.rows == if Updates(s.rows, id, data) then s.rows[id := Updated(s.rows[id], data)] else s.rows
       case Delete(id) =>
         s'.rows == if exists c :: HasParent(ParentsOf(s.rows), c, id) then s.rows else s.rows - {id}
       case Sync(app, m, now, later) =>
         if PermissionSync.Blocked(s.rows, app, m) then s'.rows == s.rows
         else exists ids :: PermissionSync.SyncedBy(s.rows, app, m, now, later, ids, s'.rows)
  }

  /** The request does not create a row that names its own future id as parent. */
  ghost predicate NamesStoredParent(s: State, e: Edit) {
    e.Create? && Creates(s.rows, s.nextId, e.draft) && e.draft.parent.Some? ==> e.draft.parent.value in s.rows
  }

  ghost predicate IsRun(states: seq<State>, edits: seq<Edit>) {
    && |states| == |edits| + 1
    && states[0].rows == map[] && 0 < states[0].nextId
    && forall i | 0 <= i < |edits| :: Step(states[i], edits[i], states[i + 1])
  }

  lemma CreateExact(s: State, draft: Row)
    requires Consistent(s.rows) && Numbered(s.rows, s.nextId) && Acyclic(ParentsOf(s.rows))
    requires Creates(s.rows, s.nextId, draft)
    ensures Acyclic(ParentsOf(s.rows[s.nextId := draft.(id := s.nextId)])) <==> NamesStoredParent(s, Create(draft))
  {
    var t' := s.rows[s.nextId := draft.(id := s.nextId)];
    assert draft.parent.Some? ==> t'[s.nextId].parent.value in t';
    ParentsClosed(s.rows);
    AddNodeExact(ParentsOf(s.rows), s.nextId, draft.parent);
    assert ParentsOf(t') == ParentsOf(s.rows)[s.nextId := draft.parent];
  }

  /** The first row of an empty table may name its own future id, and then the table has a cycle. */
  lemma FirstRowUnderItself(draft: Row)
    requires draft.app != "" && draft.parent == Some(1)
    ensures Creates(map[], 1, draft) && !Acyclic(ParentsOf(map[1 := draft.(id := 1)]))
  {
    var t: Table := map[];
    assert t[1 := draft.(id := 1)] == map[1 := draft.(id := 1)];
    CreateExact(State(t, 1), draft);
  }

  lemma UpdateKeepsAcyclic(s: State, id: int, data: MenuUpdate)
    requires Consistent(s.rows) && Numbered(s.rows, s.nextId) && Acyclic(ParentsOf(s.rows))
    requires Updates(s.rows, id, data)
    ensures Acyclic(ParentsOf(s.rows[id := Updated(s.rows[id], data)]))
  {
    var t' := s.rows[id := Updated(s.rows[id], data)];
    var parent := Patched(data.parent, s.rows[id].parent);
    assert ParentsOf(t') == ParentsOf(s.rows)[id := parent];
    assert parent.Some? ==> t'[id].parent.value in t';
    if data.parent.Set? {
      ValidationExact(s.rows, id, parent);
    } else {
      assert ParentsOf(t') == ParentsOf(s.rows);
    }
  }

  lemma StepConsistent(s: State, e: Edit, s': State)
    requires Consistent(s.rows) && Step(s, e, s')
    ensures Consistent(s'.rows)
  {
    if e.Delete? && !exists c :: HasParent(ParentsOf(s.rows), c, e.id) {
      LeafRemovable(s.rows, e.id);
    }
  }

  /** A single request keeps the table acyclic exactly when it does not create a row under its own future id. */
  lemma StepExact(s: State, e: Edit, s': State)
    requires Consistent(s.rows) && Numbered(s.rows, s.nextId) && Acyclic(ParentsOf(s.rows)) && Step(s, e, s')
    ensures Acyclic(ParentsOf(s'.rows)) <==> NamesStoredParent(s, e)
  {
    match e
    case Create(draft) =>
      if Creates(s.rows, s.nextId, draft) {
        CreateExact(s, draft);
      }
    case Update(id, data) =>
      if Updates(s.rows, id, data) {
        UpdateKeepsAcyclic(s, id, data);
      }
    case Delete(id) =>
      SubforestAcyclic(ParentsOf(s'.rows), ParentsOf(s.rows));
    case Sync(app, m, now, later) =>
      if !PermissionSync.Blocked(s.rows, app, m) {
        var ids :| PermissionSync.SyncedBy(s.rows, app, m, now, later, ids, s'.rows);
        PermissionSync.SyncKeepsSound(s.rows, app, m, now, later, ids, s'.rows);
      }
  }

  /** In every run every table is consistent: ids match, codes are unique, parents are stored. */
  lemma {:induction false} RunConsistent(states: seq<State>, edits: seq<Edit>, i: nat)
    requires IsRun(states, edits) && i < |states|
    ensures Consistent(states[i].rows) && Numbered(states[i].rows, states[i].nextId)
  {
    if i != 0 {
      RunConsistent(states, edits, i - 1);
      assert Step(states[i - 1], edits[i - 1], states[i]);
      StepConsistent(states[i - 1], edits[i - 1], states[i]);
    }
  }

  ghost predicate StoredParentsUpTo(states: seq<State>, edits: seq<Edit>, n: nat)
    requires n <= |edits| && n <= |states|
  {
    forall i | 0 <= i < n :: NamesStoredParent(states[i], edits[i])
  }

  lemma {:induction false} RunAcyclic(states: seq<State>, edits: seq<Edit>, i: nat)
    requires IsRun(states, edits) && i < |states| && StoredParentsUpTo(states, edits, i)
    ensures Acyclic(ParentsOf(states[i].rows))
  {
    if i != 0 {
      RunAcyclic(states, edits, i - 1);
      RunConsistent(states, edits, i - 1);
      assert Step(states[i - 1], edits[i - 1], states[i]);
      StepExact(states[i - 1], edits[i - 1], states[i]);
    }
  }

  /**
   A run of creations, updates, deletions and syncs from the empty table stays acyclic throughout
   exactly when no creation names its own future id as parent.
   */
  lemma RunAcyclicExact(states: seq<State>, edits: seq<Edit>)
    requires IsRun(states, edits)
    ensures (forall i | 0 <= i < |states| :: Acyclic(ParentsOf(states[i].rows))) <==>
            StoredParentsUpTo(states, edits, |edits|)
  {
    if StoredParentsUpTo(states, edits, |edits|) {
      forall i | 0 <= i < |states| ensures Acyclic(ParentsOf(states[i].rows)) {
        RunAcyclic(states, edits, i);
      }
    }
    if forall i | 0 <= i < |states| :: Acyclic(ParentsOf(states[i].rows)) {
      forall i | 0 <= i < |edits| ensures NamesStoredParent(states[i], edits[i]) {
        RunConsistent(states, edits, i);
        assert Step(states[i], edits[i], states[i + 1]);
        StepExact(states[i], edits[i], states[i + 1]);
      }
    }
  }
}
