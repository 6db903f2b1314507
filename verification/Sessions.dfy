/**
 The session protocol: what each request does to the user table and the Redis keys, as functions on
 states, and what every run of requests keeps. A key that has expired is gone from its map. The
 state also remembers which tokens were issued, bulk-revoked and exchanged.
 */
module Sessions {
  const RT_TTL := 7 * 24 * 3600
  const USED_TTL := 15

  datatype RtValue = Valid(at: int) | Used
  datatype Rt = Rt(value: RtValue, until: int)
  datatype Key = Key(user: int, jti: int)
  datatype Access = Access(user: int, ver: int, exp: int)
  datatype Refresher = Refresher(user: int, exp: int)
  datatype User = User(name: string, email: string, version: int, active: bool, password: string)

  datatype State = State(
    now: int,
    users: map<int, User>,
    nextUser: int,
    rts: map<Key, Rt>,
    blacklist: map<int, int>,
    ats: map<int, Access>,
    issued: map<int, Refresher>,
    bulk: set<int>,
    spent: set<int>)

  // ---- Building blocks

  function DropRts(rts: map<Key, Rt>, u: int): map<Key, Rt> {
    map k | k in rts && k.user != u :: rts[k]
  }

  /** revoke_all_user_tokens: the refresh records go, the access tokens are not blacklisted. */
  function RevokeAll(s: State, u: int): State {
    s.(rts := DropRts(s.rts, u), bulk := s.bulk + set a | a in s.ats && s.ats[a].user == u)
  }

  /** The access tokens bound to the user's valid refresh records. */
  function BoundAts(rts: map<Key, Rt>, u: int): set<int> {
    set k | k in rts && k.user == u && rts[k].value.Valid? :: rts[k].value.at
  }

  function BlacklistOf(ats: set<int>, until: int): map<int, int> {
    map a | a in ats :: until
  }

  /** _revoke_all_sessions: blacklist the bound access tokens, then drop the refresh records. */
  function EndSessions(s: State, ttl: int, u: int): State {
    s.(blacklist := s.blacklist + BlacklistOf(BoundAts(s.rts, u), s.now + ttl),
       rts := DropRts(s.rts, u))
  }

  function Issue(s: State, ttl: int, u: int, ver: int, at: int, rt: int): State {
    s.(ats := s.ats[at := Access(u, ver, s.now + ttl)],
       issued := s.issued[rt := Refresher(u, s.now + RT_TTL)],
       rts := s.rts[Key(u, rt) := Rt(Valid(at), s.now + RT_TTL)])
  }

  /** The old record of a rotation becomes a short-lived marker and its access token is blacklisted. */
  function Retire(s: State, ttl: int, k: Key): State
    requires k in s.rts && s.rts[k].value.Valid?
  {
    s.(rts := s.rts[k := Rt(Used, s.now + USED_TTL)],
       blacklist := s.blacklist[s.rts[k].value.at := s.now + ttl],
       spent := s.spent + {k.jti})
  }

  function SetPassword(s: State, u: int, password: string): State
    requires u in s.users
  {
    s.(users := s.users[u := s.users[u].(password := password, version := s.users[u].version + 1)])
  }

  predicate EmailTaken(s: State, email: string) {
    exists u | u in s.users :: s.users[u].email == email
  }

  predicate NameTaken(s: State, name: string) {
    exists u | u in s.users :: s.users[u].name == name
  }

  function AddUser(s: State, name: string, email: string, password: string, active: bool): State {
    s.(users := s.users[s.nextUser := User(name, email, 1, active, password)], nextUser := s.nextUser + 1)
  }

  function Elapse(s: State, d: int): State {
    var t := s.now + d;
    s.(now := t,
       rts := map k | k in s.rts && t < s.rts[k].until :: s.rts[k],
       blacklist := map a | a in s.blacklist && t < s.blacklist[a] :: s.blacklist[a])
  }

  // ---- Requests

  datatype Event =
    | Register(name: string, email: string, password: string)
    | CreateUser(name: string, email: string, password: string, active: bool)
    | Login(user: int, password: string, granted: bool, at: int, rt: int)
    | Refresh(token: int, at: int, rt: int)
    | ChangePassword(user: int, oldPassword: string, newPassword: string)
    | ResetPassword(user: int, newPassword: string)
    | Logout(user: int)
    | SetActive(user: int, active: bool)
    | DeleteUser(user: int)
    | Tick(d: nat)

  /** Token ids are UUIDs: never issued before. */
  ghost predicate Enabled(s: State, e: Event) {
    e.Login? || e.Refresh? ==> e.at !in s.ats && e.rt !in s.issued
  }

  predicate LogsIn(s: State, e: Event) {
    e.Login? && e.user in s.users && s.users[e.user].password == e.password && e.granted
  }

  /** The refresh token is one the service issued and its own lifetime is not over. */
  predicate Decodes(s: State, token: int) {
    token in s.issued && s.now < s.issued[token].exp
  }

  function KeyOf(s: State, token: int): Key
    requires token in s.issued
  {
    Key(s.issued[token].user, token)
  }

  /** The refresh goes through and yields a new pair. */
  predicate Rotates(s: State, e: Event) {
    e.Refresh? && Decodes(s, e.token) && KeyOf(s, e.token) in s.rts && s.rts[KeyOf(s, e.token)].value.Valid?
  }

  predicate ChangesPassword(s: State, e: Event) {
    || (e.ChangePassword? && e.user in s.users && s.users[e.user].password == e.oldPassword)
    || (e.ResetPassword? && e.user in s.users)
  }

  function AfterRefresh(s: State, ttl: int, e: Event): State
    requires e.Refresh?
  {
    if !Decodes(s, e.token) then s
    else
      var k := KeyOf(s, e.token);
      if k !in s.rts then RevokeAll(s, k.user)
      else if s.rts[k].value.Used? then s
      else Issue(Retire(s, ttl, k), ttl, k.user, 1, e.at, e.rt)
  }

  function Step(s: State, ttl: int, e: Event): State {
    match e
    case Register(name, email, password) =>
      if EmailTaken(s, email) then s
      else if NameTaken(s, name) then s.(nextUser := s.nextUser + 1)
      else AddUser(s, name, email, password, true)
    case CreateUser(name, email, password, active) =>
      if EmailTaken(s, email) || NameTaken(s, name) then s else AddUser(s, name, email, password, active)
    case Login(u, _, _, at, rt) =>
      if LogsIn(s, e) then Issue(EndSessions(s, ttl, u), ttl, u, s.users[u].version, at, rt) else s
    case Refresh(_, _, _) => AfterRefresh(s, ttl, e)
    case ChangePassword(u, _, password) =>
      if ChangesPassword(s, e) then RevokeAll(SetPassword(s, u, password), u) else s
    case ResetPassword(u, password) =>
      if ChangesPassword(s, e) then RevokeAll(SetPassword(s, u, password), u) else s
    case Logout(u) => RevokeAll(s, u)
    case SetActive(u, active) =>
      if u !in s.users then s
      else
        var s' := s.(users := s.users[u := s.users[u].(active := active)]);
        if active then s' else RevokeAll(s', u)
    case DeleteUser(u) =>
      if u !in s.users then s else RevokeAll(s, u).(users := s.users - {u})
    case Tick(d) => Elapse(s, d)
  }

  // ---- The access check

  ghost predicate HasSession(s: State, u: int) {
    exists k :: k in s.rts && k.user == u && s.rts[k].value.Valid?
  }

  /** get_current_user for the bearer of an issued access token. */
  ghost predicate Accepted(s: State, a: int) {
    && a in s.ats && s.now < s.ats[a].exp
    && a !in s.blacklist
    && HasSession(s, s.ats[a].user)
    && s.ats[a].user in s.users && s.users[s.ats[a].user].active
    && s.users[s.ats[a].user].version == s.ats[a].ver
  }

  // ---- The invariant

  /** Live records belong to issued tokens, and a valid one outlives the access token it names. */
  ghost predicate RecordsGood(s: State) {
    forall k {:trigger k in s.rts} | k in s.rts ::
      && k.jti in s.issued && s.issued[k.jti].user == k.user
      && s.now < s.rts[k].until
      && (s.rts[k].value.Valid? ==>
            && s.rts[k].value.at in s.ats && s.ats[s.rts[k].value.at].user == k.user
            && s.ats[s.rts[k].value.at].exp <= s.rts[k].until
            && s.rts[k].value.at !in s.blacklist)
  }

  ghost predicate OneValid(s: State) {
    forall j, k {:trigger j in s.rts, k in s.rts} |
      j in s.rts && k in s.rts && j.user == k.user && s.rts[j].value.Valid? && s.rts[k].value.Valid? :: j == k
  }

  ghost predicate HasRecord(s: State, a: int) {
    exists k :: k in s.rts && s.rts[k].value == Valid(a)
  }

  /** Expired, or blacklisted for the rest of its life, or bound to a live valid record, or bulk-revoked. */
  ghost predicate AccountedFor(s: State, a: int)
    requires a in s.ats
  {
    || s.ats[a].exp <= s.now
    || (a in s.blacklist && s.ats[a].exp <= s.blacklist[a])
    || HasRecord(s, a)
    || a in s.bulk
  }

  ghost predicate AllAccounted(s: State) {
    forall a {:trigger a in s.ats} | a in s.ats :: AccountedFor(s, a)
  }

  ghost predicate Lifetimes(s: State, ttl: int) {
    && (forall a {:trigger a in s.ats} | a in s.ats :: s.ats[a].exp <= s.now + ttl)
    && (forall a {:trigger a in s.blacklist} | a in s.blacklist ::
          a in s.ats && s.now < s.blacklist[a] && s.ats[a].exp <= s.blacklist[a])
  }

  ghost predicate Versions(s: State) {
    && (forall u {:trigger u in s.users} | u in s.users :: u < s.nextUser && 1 <= s.users[u].version)
    && (forall a {:trigger a in s.ats} | a in s.ats ::
          s.ats[a].user < s.nextUser && (s.ats[a].user in s.users ==> s.ats[a].ver <= s.users[s.ats[a].user].version))
    && (forall j {:trigger j in s.issued} | j in s.issued :: s.issued[j].user < s.nextUser)
  }

  ghost predicate NamesUnique(s: State) {
    forall u, v {:trigger u in s.users, v in s.users} | u in s.users && v in s.users ::
      s.users[u].name == s.users[v].name || s.users[u].email == s.users[v].email ==> u == v
  }

  /** An exchanged refresh token never has a valid record again. */
  ghost predicate SpentStaysSpent(s: State) {
    forall j {:trigger j in s.spent} | j in s.spent ::
      j in s.issued && (KeyOf(s, j) in s.rts ==> s.rts[KeyOf(s, j)].value.Used?)
  }

  ghost predicate Inv(s: State, ttl: int) {
    && RecordsGood(s) && OneValid(s) && AllAccounted(s) && Lifetimes(s, ttl) && Versions(s) && NamesUnique(s)
    && SpentStaysSpent(s)
  }

  function Init(now: int): State {
    State(now, map[], 1, map[], map[], map[], map[], {}, {})
  }

  // ---- Each building block keeps the invariant

  lemma RevokeAllKeeps(s: State, ttl: int, u: int)
    requires Inv(s, ttl)
    ensures Inv(RevokeAll(s, u), ttl) && !HasSession(RevokeAll(s, u), u)
  {
    var s' := RevokeAll(s, u);
    forall a | a in s'.ats ensures AccountedFor(s', a) {
      assert AccountedFor(s, a);
      if k :| k in s.rts && s.rts[k].value == Valid(a) {
        if s.ats[a].user != u {
          assert k in s'.rts;
        }
      }
    }
  }

  lemma EndSessionsKeeps(s: State, ttl: int, u: int)
    requires Inv(s, ttl) && 0 < ttl
    ensures Inv(EndSessions(s, ttl, u), ttl) && !HasSession(EndSessions(s, ttl, u), u)
  {
    forall a | a in BoundAts(s.rts, u) ensures a in s.ats && s.ats[a].user == u {
      var k :| k in s.rts && k.user == u && s.rts[k].value == Valid(a);
    }
    EndSessionsAccounted(s, ttl, u);
  }

  lemma EndSessionsAccounted(s: State, ttl: int, u: int)
    requires AllAccounted(s) && Lifetimes(s, ttl)
    ensures AllAccounted(EndSessions(s, ttl, u))
  {
    var s' := EndSessions(s, ttl, u);
    forall a | a in s'.ats ensures AccountedFor(s', a) {
      assert AccountedFor(s, a);
      if k :| k in s.rts && s.rts[k].value == Valid(a) {
        if k.user != u {
          assert k in s'.rts;
        } else {
          assert a in BoundAts(s.rts, u);
        }
      }
    }
  }

  lemma RetireKeeps(s: State, ttl: int, k: Key)
    requires Inv(s, ttl) && 0 < ttl && k in s.rts && s.rts[k].value.Valid?
    ensures Inv(Retire(s, ttl, k), ttl) && !HasSession(Retire(s, ttl, k), k.user)
  {
    var s' := Retire(s, ttl, k);
    forall a | a in s'.ats ensures AccountedFor(s', a) {
      assert AccountedFor(s, a);
      if j :| j in s.rts && s.rts[j].value == Valid(a) {
        if j != k {
          assert j in s'.rts && s'.rts[j].value == Valid(a);
        }
      }
    }
  }

  lemma IssueKeeps(s: State, ttl: int, u: int, ver: int, at: int, rt: int)
    requires Inv(s, ttl) && 0 < ttl <= RT_TTL && !HasSession(s, u)
    requires at !in s.ats && rt !in s.issued && u < s.nextUser
    requires u in s.users ==> ver <= s.users[u].version
    ensures Inv(Issue(s, ttl, u, ver, at, rt), ttl)
  {
    IssueAccounted(s, ttl, u, ver, at, rt);
  }

  lemma IssueAccounted(s: State, ttl: int, u: int, ver: int, at: int, rt: int)
    requires AllAccounted(s) && RecordsGood(s) && at !in s.ats && rt !in s.issued
    ensures AllAccounted(Issue(s, ttl, u, ver, at, rt))
  {
    var s' := Issue(s, ttl, u, ver, at, rt);
    forall a | a in s'.ats ensures AccountedFor(s', a) {
      if a == at {
        assert s'.rts[Key(u, rt)].value == Valid(a);
      } else {
        assert AccountedFor(s, a);
        if k :| k in s.rts && s.rts[k].value == Valid(a) {
          assert k in s'.rts && s'.rts[k] == s.rts[k];
        }
      }
    }
  }

  lemma ElapseKeeps(s: State, ttl: int, d: nat)
    requires Inv(s, ttl)
    ensures Inv(Elapse(s, d), ttl)
  {
    var s' := Elapse(s, d);
    forall a | a in s'.ats ensures AccountedFor(s', a) {
      assert AccountedFor(s, a);
      if k :| k in s.rts && s.rts[k].value == Valid(a) {
        if s'.now < s.rts[k].until {
          assert k in s'.rts;
        }
      }
    }
  }
}
