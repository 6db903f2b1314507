/** What holds over whole runs of the session protocol, from an empty store onwards. */
module SessionRuns {
  import opened Sessions

  function Run(s: State, ttl: int, es: seq<Event>): State
    decreases |es|
  {
    if es == [] then s else Run(Step(s, ttl, es[0]), ttl, es[1..])
  }

  ghost predicate CanRun(s: State, ttl: int, es: seq<Event>)
    decreases |es|
  {
    es == [] || (Enabled(s, es[0]) && CanRun(Step(s, ttl, es[0]), ttl, es[1..]))
  }

  ghost predicate Reached(s: State, ttl: int, now: int, es: seq<Event>) {
    CanRun(Init(now), ttl, es) && s == Run(Init(now), ttl, es)
  }

  ghost predicate Reachable(s: State, ttl: int) {
    exists now, es :: Reached(s, ttl, now, es)
  }

  // ---- The invariant holds in every reachable state

  lemma UsersKeep(s: State, ttl: int, users: map<int, User>, nextUser: int)
    requires Inv(s, ttl) && Versions(s.(users := users, nextUser := nextUser))
    requires NamesUnique(s.(users := users, nextUser := nextUser))
    ensures Inv(s.(users := users, nextUser := nextUser), ttl)
  {
  }

  lemma PasswordKeeps(s: State, ttl: int, u: int, password: string)
    requires Inv(s, ttl) && u in s.users
    ensures Inv(RevokeAll(SetPassword(s, u, password), u), ttl)
  {
    UsersKeep(s, ttl, SetPassword(s, u, password).users, s.nextUser);
    RevokeAllKeeps(SetPassword(s, u, password), ttl, u);
  }

  lemma LoginKeeps(s: State, ttl: int, e: Event)
    requires Inv(s, ttl) && 0 < ttl <= RT_TTL && Enabled(s, e) && LogsIn(s, e)
    ensures Inv(Step(s, ttl, e), ttl)
  {
    EndSessionsKeeps(s, ttl, e.user);
    IssueKeeps(EndSessions(s, ttl, e.user), ttl, e.user, s.users[e.user].version, e.at, e.rt);
  }

  lemma RefreshKeeps(s: State, ttl: int, e: Event)
    requires Inv(s, ttl) && 0 < ttl <= RT_TTL && Enabled(s, e) && e.Refresh?
    ensures Inv(Step(s, ttl, e), ttl)
  {
    if Decodes(s, e.token) {
      var k := KeyOf(s, e.token);
      if k !in s.rts {
        RevokeAllKeeps(s, ttl, k.user);
      } else if s.rts[k].value.Valid? {
        RetireKeeps(s, ttl, k);
        IssueKeeps(Retire(s, ttl, k), ttl, k.user, 1, e.at, e.rt);
      }
    }
  }

  lemma RegisterKeeps(s: State, ttl: int, name: string, email: string, password: string, active: bool)
    requires Inv(s, ttl)
    ensures Inv(s.(nextUser := s.nextUser + 1), ttl)
    ensures !EmailTaken(s, email) && !NameTaken(s, name) ==> Inv(AddUser(s, name, email, password, active), ttl)
  {
    UsersKeep(s, ttl, s.users, s.nextUser + 1);
    if !EmailTaken(s, email) && !NameTaken(s, name) {
      UsersKeep(s, ttl, AddUser(s, name, email, password, active).users, s.nextUser + 1);
    }
  }

  function Activated(users: map<int, User>, u: int, active: bool): map<int, User>
    requires u in users
  {
    users[u := users[u].(active := active)]
  }

  lemma ActivatedVersions(s: State, u: int, active: bool)
    requires Versions(s) && NamesUnique(s) && u in s.users
    ensures Versions(s.(users := Activated(s.users, u, active))) && NamesUnique(s.(users := Activated(s.users, u, active)))
  {
  }

  lemma SetActiveKeeps(s: State, ttl: int, u: int, active: bool)
    requires Inv(s, ttl) && u in s.users
    ensures Inv(Step(s, ttl, SetActive(u, active)), ttl)
  {
    ActivatedVersions(s, u, active);
    UsersKeep(s, ttl, Activated(s.users, u, active), s.nextUser);
    if !active {
      RevokeAllKeeps(s.(users := Activated(s.users, u, active)), ttl, u);
    }
  }

  lemma DeleteKeeps(s: State, ttl: int, u: int)
    requires Inv(s, ttl) && u in s.users
    ensures Inv(Step(s, ttl, DeleteUser(u)), ttl)
  {
    RevokeAllKeeps(s, ttl, u);
    UsersKeep(RevokeAll(s, u), ttl, s.users - {u}, s.nextUser);
  }

  lemma StepKeeps(s: State, ttl: int, e: Event)
    requires Inv(s, ttl) && 0 < ttl <= RT_TTL && Enabled(s, e)
    ensures Inv(Step(s, ttl, e), ttl)
  {
    match e
    case Register(name, email, password) =>
      RegisterKeeps(s, ttl, name, email, password, true);
    case CreateUser(name, email, password, active) =>
      RegisterKeeps(s, ttl, name, email, password, active);
    case Login(_, _, _, _, _) =>
      if LogsIn(s, e) { LoginKeeps(s, ttl, e); }
    case Refresh(_, _, _) =>
      RefreshKeeps(s, ttl, e);
    case ChangePassword(u, _, password) =>
      if ChangesPassword(s, e) { PasswordKeeps(s, ttl, u, password); }
    case ResetPassword(u, password) =>
      if ChangesPassword(s, e) { PasswordKeeps(s, ttl, u, password); }
    case Logout(u) =>
      RevokeAllKeeps(s, ttl, u);
    case SetActive(u, active) =>
      if u in s.users { SetActiveKeeps(s, ttl, u, active); }
    case DeleteUser(u) =>
      if u in s.users { DeleteKeeps(s, ttl, u); }
    case Tick(d) =>
      ElapseKeeps(s, ttl, d);
  }

  lemma {:induction false} RunKeeps(s: State, ttl: int, es: seq<Event>)
    requires Inv(s, ttl) && 0 < ttl <= RT_TTL && CanRun(s, ttl, es)
    ensures Inv(Run(s, ttl, es), ttl)
    decreases |es|
  {
    if es != [] {
      StepKeeps(s, ttl, es[0]);
      RunKeeps(Step(s, ttl, es[0]), ttl, es[1..]);
    }
  }

  lemma ReachableInv(s: State, ttl: int)
    requires Reachable(s, ttl) && 0 < ttl <= RT_TTL
    ensures Inv(s, ttl)
  {
    var now, es :| Reached(s, ttl, now, es);
    RunKeeps(Init(now), ttl, es);
  }

  // ---- Who is accepted

  /** The token is within its lifetime, and its user is active and still at the token's version. */
  ghost predicate Current(s: State, a: int)
    requires a in s.ats
  {
    && s.now < s.ats[a].exp
    && s.ats[a].user in s.users && s.users[s.ats[a].user].active
    && s.users[s.ats[a].user].version == s.ats[a].ver
  }

  lemma EveryTokenAccountedFor(s: State, ttl: int)
    requires Reachable(s, ttl) && 0 < ttl <= RT_TTL
    ensures forall a | a in s.ats :: AccountedFor(s, a)
    ensures OneValid(s)
  {
    ReachableInv(s, ttl);
  }

  /** No token is ahead of its user: every version issued is at most the user's current one. */
  lemma NoTokenAhead(s: State, ttl: int, a: int)
    requires Reachable(s, ttl) && 0 < ttl <= RT_TTL && a in s.ats && s.ats[a].user in s.users
    ensures s.ats[a].ver <= s.users[s.ats[a].user].version
  {
    ReachableInv(s, ttl);
  }

  /** A current token is accepted exactly when a record names it, or it was only bulk-revoked and some session is open. */
  lemma AcceptedExactly(s: State, ttl: int, a: int)
    requires Reachable(s, ttl) && 0 < ttl <= RT_TTL && a in s.ats
    ensures Accepted(s, a) <==>
              Current(s, a) && (HasRecord(s, a) || (a in s.bulk && a !in s.blacklist && HasSession(s, s.ats[a].user)))
  {
    ReachableInv(s, ttl);
    assert AccountedFor(s, a);
    if k :| k in s.rts && s.rts[k].value == Valid(a) {
      assert k.user == s.ats[a].user && HasSession(s, k.user);
    }
  }

  lemma AtMostOneAccepted(s: State, ttl: int, a: int, b: int)
    requires Reachable(s, ttl) && 0 < ttl <= RT_TTL
    requires Accepted(s, a) && Accepted(s, b) && s.ats[a].user == s.ats[b].user && a !in s.bulk && b !in s.bulk
    ensures a == b
  {
    ReachableInv(s, ttl);
    AcceptedExactly(s, ttl, a);
    AcceptedExactly(s, ttl, b);
    var j :| j in s.rts && s.rts[j].value == Valid(a);
    var k :| k in s.rts && s.rts[k].value == Valid(b);
    assert j.user == k.user;
  }

  // ---- Each refresh token is exchanged at most once

  lemma SpentStays(s: State, ttl: int, e: Event, j: int)
    requires j in s.spent
    ensures j in Step(s, ttl, e).spent
  {
  }

  lemma {:induction false} RunSpentStays(s: State, ttl: int, es: seq<Event>, j: int)
    requires j in s.spent
    ensures j in Run(s, ttl, es).spent
    decreases |es|
  {
    if es != [] {
      SpentStays(s, ttl, es[0], j);
      RunSpentStays(Step(s, ttl, es[0]), ttl, es[1..], j);
    }
  }

  /** After an exchange, whatever happens in between, a second use yields nothing. */
  lemma RefreshAtMostOnce(s: State, ttl: int, e: Event, es: seq<Event>, again: Event)
    requires Reachable(s, ttl) && 0 < ttl <= RT_TTL && Enabled(s, e) && Rotates(s, e)
    requires CanRun(Step(s, ttl, e), ttl, es) && again.Refresh? && again.token == e.token
    ensures var s' := Run(Step(s, ttl, e), ttl, es);
            var s'' := Step(s', ttl, again);
            && !Rotates(s', again)
            && s''.ats == s'.ats && s''.issued == s'.issued
            && e.token in s'.issued
            && (Decodes(s', e.token) && KeyOf(s', e.token) !in s'.rts ==>
                  (forall k | k in s''.rts :: k.user != KeyOf(s', e.token).user)
                  && (forall k | k in s'.rts && k.user != KeyOf(s', e.token).user :: k in s''.rts && s''.rts[k] == s'.rts[k]))
            && (!Decodes(s', e.token) || KeyOf(s', e.token) in s'.rts ==> s'' == s')
  {
    ReachableInv(s, ttl);
    StepKeeps(s, ttl, e);
    RunKeeps(Step(s, ttl, e), ttl, es);
    assert e.token in Step(s, ttl, e).spent;
    RunSpentStays(Step(s, ttl, e), ttl, es, e.token);
  }

  /** The request revokes every refresh record of the user without blacklisting access tokens. */
  ghost predicate BulkRevokes(s: State, e: Event, u: int) {
    match e
    case Refresh(token, _, _) => Decodes(s, token) && KeyOf(s, token) !in s.rts && KeyOf(s, token).user == u
    case ChangePassword(v, _, _) => ChangesPassword(s, e) && v == u
    case ResetPassword(v, _) => ChangesPassword(s, e) && v == u
    case Logout(v) => v == u
    case SetActive(v, active) => v == u && v in s.users && !active
    case DeleteUser(v) => v == u && v in s.users
    case _ => false
  }

  ghost predicate LogsInAs(s: State, e: Event, u: int) {
    LogsIn(s, e) && e.user == u
  }

  /** No request of the run sweeps away the user's refresh records. */
  ghost predicate Unswept(s: State, ttl: int, es: seq<Event>, u: int)
    decreases |es|
  {
    es == [] || (!BulkRevokes(s, es[0], u) && !LogsInAs(s, es[0], u) && Unswept(Step(s, ttl, es[0]), ttl, es[1..], u))
  }

  lemma ClockOnlyAdvances(s: State, ttl: int, e: Event)
    ensures s.now <= Step(s, ttl, e).now
  {
  }

  lemma {:induction false} RunClock(s: State, ttl: int, es: seq<Event>)
    ensures s.now <= Run(s, ttl, es).now
    decreases |es|
  {
    if es != [] {
      ClockOnlyAdvances(s, ttl, es[0]);
      RunClock(Step(s, ttl, es[0]), ttl, es[1..]);
    }
  }

  lemma MarkerStays(s: State, ttl: int, e: Event, k: Key, until: int)
    requires Inv(s, ttl) && Enabled(s, e) && k in s.rts && s.rts[k] == Rt(Used, until)
    requires !BulkRevokes(s, e, k.user) && !LogsInAs(s, e, k.user) && Step(s, ttl, e).now < until
    ensures k in Step(s, ttl, e).rts && Step(s, ttl, e).rts[k] == Rt(Used, until)
  {
  }

  lemma {:induction false} RunMarkerStays(s: State, ttl: int, es: seq<Event>, k: Key, until: int)
    requires Inv(s, ttl) && 0 < ttl <= RT_TTL && CanRun(s, ttl, es) && Unswept(s, ttl, es, k.user)
    requires k in s.rts && s.rts[k] == Rt(Used, until) && Run(s, ttl, es).now < until
    ensures k in Run(s, ttl, es).rts && Run(s, ttl, es).rts[k] == Rt(Used, until)
    decreases |es|
  {
    if es != [] {
      RunClock(Step(s, ttl, es[0]), ttl, es[1..]);
      MarkerStays(s, ttl, es[0], k, until);
      StepKeeps(s, ttl, es[0]);
      RunMarkerStays(Step(s, ttl, es[0]), ttl, es[1..], k, until);
    }
  }

  /** For fifteen seconds after an exchange a second use is refused and changes nothing. */
  lemma MarkerRefuses(s: State, ttl: int, e: Event, es: seq<Event>, again: Event)
    requires Reachable(s, ttl) && 0 < ttl <= RT_TTL && Enabled(s, e) && Rotates(s, e)
    requires CanRun(Step(s, ttl, e), ttl, es) && Unswept(Step(s, ttl, e), ttl, es, KeyOf(s, e.token).user)
    requires Run(Step(s, ttl, e), ttl, es).now < s.now + 15
    requires again.Refresh? && again.token == e.token
    ensures var s' := Run(Step(s, ttl, e), ttl, es); Step(s', ttl, again) == s'
  {
    ReachableInv(s, ttl);
    StepKeeps(s, ttl, e);
    RunMarkerStays(Step(s, ttl, e), ttl, es, KeyOf(s, e.token), s.now + USED_TTL);
    IssuedStays(s, ttl, e, e.token);
    RunIssuedStays(Step(s, ttl, e), ttl, es, e.token);
  }

  // ---- What was issued stays as it was issued

  lemma IssuedStays(s: State, ttl: int, e: Event, j: int)
    requires Enabled(s, e) && j in s.issued
    ensures j in Step(s, ttl, e).issued && Step(s, ttl, e).issued[j] == s.issued[j]
  {
  }

  lemma {:induction false} RunIssuedStays(s: State, ttl: int, es: seq<Event>, j: int)
    requires CanRun(s, ttl, es) && j in s.issued
    ensures j in Run(s, ttl, es).issued && Run(s, ttl, es).issued[j] == s.issued[j]
    decreases |es|
  {
    if es != [] {
      IssuedStays(s, ttl, es[0], j);
      RunIssuedStays(Step(s, ttl, es[0]), ttl, es[1..], j);
    }
  }

  lemma AccessStays(s: State, ttl: int, e: Event, a: int)
    requires Enabled(s, e) && a in s.ats
    ensures a in Step(s, ttl, e).ats && Step(s, ttl, e).ats[a] == s.ats[a]
  {
  }

  // ---- Password changes end older tokens for good

  lemma VersionsGrow(s: State, ttl: int, e: Event, u: int)
    requires Versions(s) && u < s.nextUser && u in Step(s, ttl, e).users
    ensures u in s.users && s.users[u].version <= Step(s, ttl, e).users[u].version
    ensures u < Step(s, ttl, e).nextUser
  {
    match e
    case Register(_, _, _) =>
    case CreateUser(_, _, _, _) =>
    case ChangePassword(_, _, _) =>
    case ResetPassword(_, _) =>
    case SetActive(_, _) =>
    case DeleteUser(_) =>
    case _ =>
  }

  lemma {:induction false} VersionsOnlyGrow(s: State, ttl: int, es: seq<Event>, u: int)
    requires Inv(s, ttl) && 0 < ttl <= RT_TTL && CanRun(s, ttl, es)
    requires u < s.nextUser && u in Run(s, ttl, es).users
    ensures u in s.users && s.users[u].version <= Run(s, ttl, es).users[u].version
    decreases |es|
  {
    if es != [] {
      StepKeeps(s, ttl, es[0]);
      assert u < Step(s, ttl, es[0]).nextUser;
      VersionsOnlyGrow(Step(s, ttl, es[0]), ttl, es[1..], u);
      VersionsGrow(s, ttl, es[0], u);
    }
  }

  lemma {:induction false} RunAccessStays(s: State, ttl: int, es: seq<Event>, a: int)
    requires CanRun(s, ttl, es) && a in s.ats
    ensures a in Run(s, ttl, es).ats && Run(s, ttl, es).ats[a] == s.ats[a]
    decreases |es|
  {
    if es != [] {
      AccessStays(s, ttl, es[0], a);
      RunAccessStays(Step(s, ttl, es[0]), ttl, es[1..], a);
    }
  }

  /** A token issued before a password change or reset is not accepted in any continuation. */
  lemma PasswordChangeIsFinal(s: State, ttl: int, e: Event, es: seq<Event>, a: int)
    requires Reachable(s, ttl) && 0 < ttl <= RT_TTL && ChangesPassword(s, e)
    requires a in s.ats && s.ats[a].user == e.user && CanRun(Step(s, ttl, e), ttl, es)
    ensures !Accepted(Run(Step(s, ttl, e), ttl, es), a)
  {
    ReachableInv(s, ttl);
    StepKeeps(s, ttl, e);
    var s1 := Step(s, ttl, e);
    AccessStays(s, ttl, e, a);
    RunAccessStays(s1, ttl, es, a);
    if Accepted(Run(s1, ttl, es), a) {
      VersionsOnlyGrow(s1, ttl, es, e.user);
      assert false;
    }
  }

  // ---- A bulk revoke shuts every token out until the next login

  ghost predicate NoLogin(s: State, ttl: int, es: seq<Event>, u: int)
    decreases |es|
  {
    es == [] || (!LogsInAs(s, es[0], u) && NoLogin(Step(s, ttl, es[0]), ttl, es[1..], u))
  }

  lemma StaysOut(s: State, ttl: int, e: Event, u: int)
    requires Inv(s, ttl) && !HasSession(s, u) && !LogsInAs(s, e, u)
    ensures !HasSession(Step(s, ttl, e), u)
  {
  }

  lemma {:induction false} RunStaysOut(s: State, ttl: int, es: seq<Event>, u: int)
    requires Inv(s, ttl) && 0 < ttl <= RT_TTL && CanRun(s, ttl, es) && !HasSession(s, u) && NoLogin(s, ttl, es, u)
    ensures !HasSession(Run(s, ttl, es), u)
    decreases |es|
  {
    if es != [] {
      StaysOut(s, ttl, es[0], u);
      StepKeeps(s, ttl, es[0]);
      RunStaysOut(Step(s, ttl, es[0]), ttl, es[1..], u);
    }
  }

  lemma BulkRevokeClears(s: State, ttl: int, e: Event, u: int)
    requires BulkRevokes(s, e, u)
    ensures !HasSession(Step(s, ttl, e), u)
  {
  }

  lemma BulkRevokeLocksOut(s: State, ttl: int, e: Event, es: seq<Event>, u: int, a: int)
    requires Reachable(s, ttl) && 0 < ttl <= RT_TTL && Enabled(s, e) && BulkRevokes(s, e, u)
    requires CanRun(Step(s, ttl, e), ttl, es) && NoLogin(Step(s, ttl, e), ttl, es, u)
    ensures var s' := Run(Step(s, ttl, e), ttl, es); a in s'.ats && s'.ats[a].user == u ==> !Accepted(s', a)
  {
    ReachableInv(s, ttl);
    StepKeeps(s, ttl, e);
    BulkRevokeClears(s, ttl, e, u);
    RunStaysOut(Step(s, ttl, e), ttl, es, u);
  }

  // ---- When a revoked token comes back

  /** A login lets in a token issued before it exactly if that one is current, not blacklisted and in no live record. */
  lemma LoginReadmitsExactly(s: State, ttl: int, e: Event, a: int)
    requires Reachable(s, ttl) && 0 < ttl <= RT_TTL && Enabled(s, e) && LogsIn(s, e)
    requires a in s.ats && s.ats[a].user == e.user
    ensures Accepted(Step(s, ttl, e), a) <==> Current(s, a) && a !in s.blacklist && !HasRecord(s, a)
  {
    ReachableInv(s, ttl);
    assert Key(e.user, e.rt) in Step(s, ttl, e).rts;
    if k :| k in s.rts && s.rts[k].value == Valid(a) {
      assert a in BoundAts(s.rts, e.user);
    } else if a in BoundAts(s.rts, e.user) {
      assert false;
    }
  }

  /** The token can never be accepted again. */
  ghost predicate Dead(s: State, a: int) {
    && a in s.ats
    && (s.ats[a].exp <= s.now || a in s.blacklist || s.ats[a].user !in s.users
        || s.ats[a].ver < s.users[s.ats[a].user].version)
  }

  lemma DeadStays(s: State, ttl: int, e: Event, a: int)
    requires Inv(s, ttl) && 0 < ttl && Enabled(s, e) && Dead(s, a)
    ensures Dead(Step(s, ttl, e), a)
  {
  }

  lemma {:induction false} RunDeadStays(s: State, ttl: int, es: seq<Event>, a: int)
    requires Inv(s, ttl) && 0 < ttl <= RT_TTL && CanRun(s, ttl, es) && Dead(s, a)
    ensures Dead(Run(s, ttl, es), a)
    decreases |es|
  {
    if es != [] {
      StepKeeps(s, ttl, es[0]);
      DeadStays(s, ttl, es[0], a);
      RunDeadStays(Step(s, ttl, es[0]), ttl, es[1..], a);
    }
  }

  lemma UnusedId(taken: set<int>) returns (id: int)
    ensures forall x | x in taken :: x < id
  {
    if x :| x in taken {
      var rest := UnusedId(taken - {x});
      id := if rest <= x then x + 1 else rest;
      assert taken == (taken - {x}) + {x};
    } else {
      id := 0;
    }
  }

  /** Activating the user, should that be needed, and logging in. */
  function Return(s: State, u: int, at: int, rt: int): seq<Event>
    requires u in s.users
  {
    [SetActive(u, true), Login(u, s.users[u].password, true, at, rt)]
  }

  lemma ReturnAccepts(s: State, ttl: int, a: int, at: int, rt: int)
    requires Inv(s, ttl) && 0 < ttl <= RT_TTL && a in s.ats && !Dead(s, a) && !HasSession(s, s.ats[a].user)
    requires at !in s.ats && rt !in s.issued
    ensures CanRun(s, ttl, Return(s, s.ats[a].user, at, rt)) && Accepted(Run(s, ttl, Return(s, s.ats[a].user, at, rt)), a)
  {
    var u := s.ats[a].user;
    var es := Return(s, u, at, rt);
    var s1 := Step(s, ttl, es[0]);
    var s2 := Step(s1, ttl, es[1]);
    RunTwo(s, ttl, es[0], es[1]);
    assert s1.rts == s.rts && BoundAts(s1.rts, u) == {};
    assert Key(u, rt) in s2.rts;
  }

  /** The run is possible and ends with the token accepted. */
  ghost predicate LeadsBack(s: State, ttl: int, es: seq<Event>, a: int) {
    CanRun(s, ttl, es) && Accepted(Run(s, ttl, es), a)
  }

  /** What can be told before the revoke: the token is current up to its user's activity, and the revoke changes no version. */
  ghost predicate OutlivesRevoke(s: State, e: Event, a: int)
    requires a in s.ats
  {
    var u := s.ats[a].user;
    && s.now < s.ats[a].exp && a !in s.blacklist
    && u in s.users && s.users[u].version == s.ats[a].ver
    && !ChangesPassword(s, e) && !e.DeleteUser?
  }

  lemma DeadAfterRevoke(s: State, ttl: int, e: Event, u: int, a: int)
    requires Inv(s, ttl) && BulkRevokes(s, e, u) && a in s.ats && s.ats[a].user == u
    ensures Dead(Step(s, ttl, e), a) <==> !OutlivesRevoke(s, e, a)
  {
  }

  /**
   Exact: after a bulk revoke some continuation accepts an old access token of the user again if and
   only if the token is unexpired, not blacklisted and at the user's version, and the revoke came
   with neither a password change nor the user's deletion.
   */
  lemma RevokedReturnsExactly(s: State, ttl: int, e: Event, u: int, a: int)
    requires Reachable(s, ttl) && 0 < ttl <= RT_TTL && Enabled(s, e) && BulkRevokes(s, e, u)
    requires a in s.ats && s.ats[a].user == u
    ensures (exists es :: LeadsBack(Step(s, ttl, e), ttl, es, a)) <==> OutlivesRevoke(s, e, a)
  {
    ReachableInv(s, ttl);
    StepKeeps(s, ttl, e);
    DeadAfterRevoke(s, ttl, e, u, a);
    var s1 := Step(s, ttl, e);
    if Dead(s1, a) {
      forall es ensures !LeadsBack(s1, ttl, es, a) {
        if CanRun(s1, ttl, es) {
          RunDeadStays(s1, ttl, es, a);
        }
      }
    } else {
      BulkRevokeClears(s, ttl, e, u);
      var at := UnusedId(s1.ats.Keys);
      var rt := UnusedId(s1.issued.Keys);
      ReturnAccepts(s1, ttl, a, at, rt);
      assert LeadsBack(s1, ttl, Return(s1, u, at, rt), a);
    }
  }

  lemma RunTwo(s: State, ttl: int, a: Event, b: Event)
    ensures Run(s, ttl, [a, b]) == Step(Step(s, ttl, a), ttl, b)
    ensures CanRun(s, ttl, [a, b]) <==> Enabled(s, a) && Enabled(Step(s, ttl, a), b)
  {
    assert [a, b][1..] == [b] && [b][1..] == [];
    assert Run(Step(s, ttl, a), ttl, [b]) == Step(Step(s, ttl, a), ttl, b);
    assert CanRun(Step(s, ttl, a), ttl, [b]) <==> Enabled(Step(s, ttl, a), b);
  }

  lemma RunFour(s: State, ttl: int, a: Event, b: Event, c: Event, d: Event)
    ensures var s2 := Run(s, ttl, [a, b]);
            && Run(s, ttl, [a, b, c, d]) == Run(s2, ttl, [c, d])
            && (CanRun(s, ttl, [a, b, c, d]) <==> CanRun(s, ttl, [a, b]) && CanRun(s2, ttl, [c, d]))
  {
    var s1 := Step(s, ttl, a);
    RunTwo(s, ttl, a, b);
    assert [a, b, c, d][1..] == [b, c, d] && [b, c, d][1..] == [c, d];
    assert Run(s1, ttl, [b, c, d]) == Run(Step(s1, ttl, b), ttl, [c, d]);
    assert CanRun(s1, ttl, [b, c, d]) <==> Enabled(s1, b) && CanRun(Step(s1, ttl, b), ttl, [c, d]);
  }

  /** A concrete case: the login after a logout readmits the token that the logout revoked. */
  lemma LoginReadmitsRevoked()
    ensures var es := [Register("ann", "ann@x", "pw"), Login(1, "pw", true, 10, 20), Logout(1), Login(1, "pw", true, 11, 21)];
            CanRun(Init(0), 900, es) && Accepted(Run(Init(0), 900, es), 10) && 10 in Run(Init(0), 900, es).bulk
  {
    var a, b := Register("ann", "ann@x", "pw"), Login(1, "pw", true, 10, 20);
    var c, d := Logout(1), Login(1, "pw", true, 11, 21);
    RunFour(Init(0), 900, a, b, c, d);
    RunTwo(Init(0), 900, a, b);
    var s2 := Step(Step(Init(0), 900, a), 900, b);
    RunTwo(s2, 900, c, d);
    var s3 := Step(s2, 900, c);
    assert BoundAts(s3.rts, 1) == {};
    assert Key(1, 21) in Step(s3, 900, d).rts;
  }

  // ---- Session continuity

  /** Right after an exchange the new access token passes exactly for an active user still at version 1. */
  lemma RefreshedAccepted(s: State, ttl: int, e: Event)
    requires Reachable(s, ttl) && 0 < ttl <= RT_TTL && Enabled(s, e) && Rotates(s, e)
    ensures var u := KeyOf(s, e.token).user;
            Accepted(Step(s, ttl, e), e.at) <==> u in s.users && s.users[u].active && s.users[u].version == 1
  {
    ReachableInv(s, ttl);
    var u := KeyOf(s, e.token).user;
    assert Key(u, e.rt) in Step(s, ttl, e).rts;
  }

  /** So a refresh leaves a user at a later version without any accepted token that was not bulk-revoked. */
  lemma RefreshLocksOutLaterVersions(s: State, ttl: int, e: Event, a: int)
    requires Reachable(s, ttl) && 0 < ttl <= RT_TTL && Enabled(s, e) && Rotates(s, e)
    requires var u := KeyOf(s, e.token).user; u in s.users ==> s.users[u].version != 1
    requires a in Step(s, ttl, e).ats && Step(s, ttl, e).ats[a].user == KeyOf(s, e.token).user && a !in s.bulk
    ensures !Accepted(Step(s, ttl, e), a)
  {
    ReachableInv(s, ttl);
    StepKeeps(s, ttl, e);
    RefreshedAccepted(s, ttl, e);
    var s' := Step(s, ttl, e);
    var k := KeyOf(s, e.token);
    if a != e.at {
      assert AccountedFor(s', a);
      if j :| j in s'.rts && s'.rts[j].value == Valid(a) {
        assert Key(k.user, e.rt) in s'.rts;
      }
    }
  }

  /** Logged in after a password change, the user is shut out by the next refresh. */
  lemma RefreshAfterPasswordChange()
    ensures var es := [Register("ann", "ann@x", "pw"), ChangePassword(1, "pw", "new"), Login(1, "new", true, 10, 20)];
            var s := Run(Init(0), 900, es);
            var e := Refresh(20, 11, 21);
            && CanRun(Init(0), 900, es) && Accepted(s, 10) && Enabled(s, e) && Rotates(s, e)
            && !Accepted(Step(s, 900, e), 11) && !Accepted(Step(s, 900, e), 10)
  {
    var a, b, c := Register("ann", "ann@x", "pw"), ChangePassword(1, "pw", "new"), Login(1, "new", true, 10, 20);
    var s1 := Step(Init(0), 900, a);
    assert [a, b, c][1..] == [b, c];
    RunTwo(s1, 900, b, c);
    assert Key(1, 20) in Step(Step(s1, 900, b), 900, c).rts;
  }

  /** The newest pair of a chain of refreshes, and the access tokens it replaced. */
  datatype Chain = Chain(user: int, at: int, rt: int, older: set<int>)

  function Extend(c: Chain, e: Event): Chain {
    if e.Refresh? && e.token == c.rt then Chain(c.user, e.at, e.rt, c.older + {c.at}) else c
  }

  /** A request of, or about, this user: one that names them or carries one of their refresh tokens. */
  predicate Concerns(s: State, e: Event, u: int) {
    match e
    case Register(_, _, _) => false
    case CreateUser(_, _, _, _) => false
    case Refresh(token, _, _) => token in s.issued && s.issued[token].user == u
    case Tick(_) => false
    case _ => e.user == u
  }

  /** A refresh of the newest pair, a wait within its lifetime, or a request about somebody else. */
  predicate Continues(s: State, c: Chain, e: Event) {
    || (e.Refresh? && e.token == c.rt)
    || (e.Tick? && Key(c.user, c.rt) in s.rts && s.now + e.d < s.rts[Key(c.user, c.rt)].until)
    || (!e.Tick? && !Concerns(s, e, c.user))
  }

  predicate Continued(s: State, ttl: int, c: Chain, es: seq<Event>)
    decreases |es|
  {
    es == [] || (Continues(s, c, es[0]) && Continued(Step(s, ttl, es[0]), ttl, Extend(c, es[0]), es[1..]))
  }

  function ExtendAll(c: Chain, es: seq<Event>): Chain
    decreases |es|
  {
    if es == [] then c else ExtendAll(Extend(c, es[0]), es[1..])
  }

  ghost predicate Retired(s: State, u: int, a: int) {
    a in s.ats && s.ats[a].user == u && (s.ats[a].exp <= s.now || (a in s.blacklist && s.ats[a].exp <= s.blacklist[a]))
  }

  ghost predicate Linked(s: State, c: Chain) {
    && c.user in s.users && s.users[c.user].active && s.users[c.user].version == 1
    && c.at in s.ats && s.ats[c.at].user == c.user && s.ats[c.at].ver == 1
    && c.rt in s.issued && s.issued[c.rt].user == c.user
    && Key(c.user, c.rt) in s.rts && s.rts[Key(c.user, c.rt)] == Rt(Valid(c.at), s.issued[c.rt].exp)
    && forall a | a in c.older :: Retired(s, c.user, a)
  }

  lemma LinkedNewest(s: State, ttl: int, c: Chain)
    requires Inv(s, ttl) && Linked(s, c)
    ensures Accepted(s, c.at) <==> s.now < s.ats[c.at].exp
    ensures forall a | a in c.older :: !Accepted(s, a)
  {
    assert Key(c.user, c.rt) in s.rts;
    forall a | a in c.older ensures !Accepted(s, a) {
      assert Retired(s, c.user, a);
    }
  }

  lemma RetiredStays(s: State, ttl: int, e: Event, u: int, a: int)
    requires Inv(s, ttl) && 0 < ttl && Enabled(s, e) && Retired(s, u, a)
    ensures Retired(Step(s, ttl, e), u, a)
  {
  }

  /** What the newest pair needs to stay the newest pair, the replaced tokens apart. */
  ghost predicate Newest(s: State, c: Chain) {
    Linked(s, c.(older := {}))
  }

  lemma NewestAfterRefresh(s: State, ttl: int, c: Chain, e: Event)
    requires Inv(s, ttl) && 0 < ttl && Enabled(s, e) && Newest(s, c) && e.Refresh? && e.token == c.rt
    ensures Newest(Step(s, ttl, e), Extend(c, e)) && Retired(Step(s, ttl, e), c.user, c.at)
  {
  }

  lemma NewestAfterWait(s: State, ttl: int, c: Chain, e: Event)
    requires Inv(s, ttl) && Newest(s, c) && e.Tick? && Continues(s, c, e)
    ensures Newest(Step(s, ttl, e), c)
  {
  }

  lemma NewestBesideOthers(s: State, ttl: int, c: Chain, e: Event)
    requires Inv(s, ttl) && Enabled(s, e) && Newest(s, c) && !e.Tick? && !Concerns(s, e, c.user)
    ensures Newest(Step(s, ttl, e), c)
  {
  }

  lemma LinkKept(s: State, ttl: int, c: Chain, e: Event)
    requires Inv(s, ttl) && 0 < ttl && Enabled(s, e) && Linked(s, c) && Continues(s, c, e)
    ensures Linked(Step(s, ttl, e), Extend(c, e))
  {
    if e.Refresh? && e.token == c.rt {
      NewestAfterRefresh(s, ttl, c, e);
    } else if e.Tick? {
      NewestAfterWait(s, ttl, c, e);
    } else {
      NewestBesideOthers(s, ttl, c, e);
    }
    forall a | a in c.older ensures Retired(Step(s, ttl, e), c.user, a) {
      RetiredStays(s, ttl, e, c.user, a);
    }
  }

  lemma {:induction false} ChainKept(s: State, ttl: int, c: Chain, es: seq<Event>)
    requires Inv(s, ttl) && 0 < ttl <= RT_TTL && CanRun(s, ttl, es) && Linked(s, c) && Continued(s, ttl, c, es)
    ensures Linked(Run(s, ttl, es), ExtendAll(c, es))
    decreases |es|
  {
    if es != [] {
      LinkKept(s, ttl, c, es[0]);
      StepKeeps(s, ttl, es[0]);
      ChainKept(Step(s, ttl, es[0]), ttl, Extend(c, es[0]), es[1..]);
    }
  }

  /** From a login through any number of refreshes: the newest token works until it expires, the others never. */
  lemma SessionContinuity(s: State, ttl: int, e: Event, es: seq<Event>)
    requires Reachable(s, ttl) && 0 < ttl <= RT_TTL && Enabled(s, e) && LogsIn(s, e)
    requires s.users[e.user].active && s.users[e.user].version == 1
    requires CanRun(Step(s, ttl, e), ttl, es) && Continued(Step(s, ttl, e), ttl, Chain(e.user, e.at, e.rt, {}), es)
    ensures var s' := Run(Step(s, ttl, e), ttl, es);
            var c := ExtendAll(Chain(e.user, e.at, e.rt, {}), es);
            && c.at in s'.ats && (Accepted(s', c.at) <==> s'.now < s'.ats[c.at].exp)
            && forall a | a in c.older :: !Accepted(s', a)
  {
    ReachableInv(s, ttl);
    StepKeeps(s, ttl, e);
    var c := Chain(e.user, e.at, e.rt, {});
    ChainKept(Step(s, ttl, e), ttl, c, es);
    RunKeeps(Step(s, ttl, e), ttl, es);
    LinkedNewest(Run(Step(s, ttl, e), ttl, es), ttl, ExtendAll(c, es));
  }
}
