/** What each request leaves behind, read off the user table, the refresh records and the blacklist. */
module SessionEffects {
  import opened Sessions

  /** Without the user, the right password or access to the app a login changes nothing. */
  lemma RefusedLogin(s: State, ttl: int, e: Event)
    requires e.Login? && (e.user !in s.users || s.users[e.user].password != e.password || !e.granted)
    ensures Step(s, ttl, e) == s
  {
  }

  /** Exactly the records of other users stay, one of seven days is new, and the tokens of the old ones are blacklisted. */
  lemma LoginEffect(s: State, ttl: int, e: Event)
    requires e.Login? && e.user in s.users && s.users[e.user].password == e.password && e.granted
    ensures var s', u := Step(s, ttl, e), e.user;
            && s'.now == s.now && s'.users == s.users && s'.nextUser == s.nextUser
            && (forall k :: k in s'.rts <==> k == Key(u, e.rt) || (k in s.rts && k.user != u))
            && s'.rts[Key(u, e.rt)] == Rt(Valid(e.at), s.now + 7 * 86400)
            && (forall k | k in s.rts && k.user != u :: s'.rts[k] == s.rts[k])
            && s'.ats == s.ats[e.at := Access(u, s.users[u].version, s.now + ttl)]
            && s'.issued == s.issued[e.rt := Refresher(u, s.now + 7 * 86400)]
    ensures forall a :: var bound := exists k :: k in s.rts && k.user == e.user && s.rts[k].value == Valid(a);
              && (a in Step(s, ttl, e).blacklist <==> a in s.blacklist || bound)
              && (bound ==> Step(s, ttl, e).blacklist[a] == s.now + ttl)
              && (!bound && a in s.blacklist ==> Step(s, ttl, e).blacklist[a] == s.blacklist[a])
  {
    forall a ensures a in BoundAts(s.rts, e.user) <==>
                     exists k :: k in s.rts && k.user == e.user && s.rts[k].value == Valid(a) {
      if k :| k in s.rts && k.user == e.user && s.rts[k].value == Valid(a) {
        assert s.rts[k].value.at in BoundAts(s.rts, e.user);
      }
    }
  }

  /** The user's refresh records go; other records, the blacklist and everything else but the record of the revoke stay. */
  lemma RevokeEffect(s: State, u: int)
    ensures var s' := RevokeAll(s, u);
            && s'.now == s.now && s'.users == s.users && s'.nextUser == s.nextUser
            && s'.blacklist == s.blacklist && s'.ats == s.ats && s'.issued == s.issued && s'.spent == s.spent
            && (forall k :: k in s'.rts <==> k in s.rts && k.user != u)
            && (forall k | k in s'.rts :: s'.rts[k] == s.rts[k])
            && (forall a :: a in s'.bulk <==> a in s.bulk || (a in s.ats && s.ats[a].user == u))
  {
  }

  /** The four outcomes of a refresh: unknown or expired token, missing record, used record, valid record. */
  lemma RefreshEffect(s: State, ttl: int, e: Event)
    requires e.Refresh? && e.rt != e.token
    ensures var s' := Step(s, ttl, e);
            if e.token !in s.issued || s.issued[e.token].exp <= s.now then s' == s
            else
              var u := s.issued[e.token].user;
              var k := Key(u, e.token);
              if k !in s.rts then s' == RevokeAll(s, u)
              else if s.rts[k].value == Used then s' == s
              else
                && s'.now == s.now && s'.users == s.users && s'.nextUser == s.nextUser && s'.bulk == s.bulk
                && s'.rts == s.rts[k := Rt(Used, s.now + 15)][Key(u, e.rt) := Rt(Valid(e.at), s.now + 7 * 86400)]
                && s'.blacklist == s.blacklist[s.rts[k].value.at := s.now + ttl]
                && s'.ats == s.ats[e.at := Access(u, 1, s.now + ttl)]
                && s'.issued == s.issued[e.rt := Refresher(u, s.now + 7 * 86400)]
  {
  }

  /** A change with the right old password, or any reset, stores the new one, raises the version and revokes; else nothing. */
  lemma PasswordEffect(s: State, ttl: int, u: int, oldPassword: string, newPassword: string)
    ensures u !in s.users || s.users[u].password != oldPassword ==>
              Step(s, ttl, ChangePassword(u, oldPassword, newPassword)) == s
    ensures u !in s.users ==> Step(s, ttl, ResetPassword(u, newPassword)) == s
    ensures u in s.users ==>
              var r := s.users[u];
              var s' := RevokeAll(s.(users := s.users[u := User(r.name, r.email, r.version + 1, r.active, newPassword)]), u);
              && Step(s, ttl, ResetPassword(u, newPassword)) == s'
              && (r.password == oldPassword ==> Step(s, ttl, ChangePassword(u, oldPassword, newPassword)) == s')
  {
  }

  /** Status, deletion and logout: what happens to the user row, and that records go on deactivation, deletion and logout. */
  lemma AdministrationEffect(s: State, ttl: int, u: int, active: bool)
    ensures u !in s.users ==> Step(s, ttl, SetActive(u, active)) == s && Step(s, ttl, DeleteUser(u)) == s
    ensures u in s.users ==>
              var r := s.users[u];
              var changed := s.(users := s.users[u := User(r.name, r.email, r.version, active, r.password)]);
              && Step(s, ttl, SetActive(u, active)) == (if active then changed else RevokeAll(changed, u))
              && Step(s, ttl, DeleteUser(u)) == RevokeAll(s, u).(users := map v | v in s.users && v != u :: s.users[v])
    ensures Step(s, ttl, Logout(u)) == RevokeAll(s, u)
  {
    assert s.users - {u} == map v | v in s.users && v != u :: s.users[v];
  }

  /** A registration with a free address and name adds one user at version 1; any other adds none. */
  lemma RegistrationEffect(s: State, ttl: int, name: string, email: string, password: string, active: bool)
    ensures var emailTaken := exists u :: u in s.users && s.users[u].email == email;
            var nameTaken := exists u :: u in s.users && s.users[u].name == name;
            var own := Step(s, ttl, Register(name, email, password));
            var admin := Step(s, ttl, CreateUser(name, email, password, active));
            && (emailTaken ==> own == s && admin == s)
            && (!emailTaken && nameTaken ==> own == s.(nextUser := s.nextUser + 1) && admin == s)
            && (!emailTaken && !nameTaken ==>
                  && own == s.(users := s.users[s.nextUser := User(name, email, 1, true, password)], nextUser := s.nextUser + 1)
                  && admin == s.(users := s.users[s.nextUser := User(name, email, 1, active, password)], nextUser := s.nextUser + 1))
  {
    assert EmailTaken(s, email) <==> exists u :: u in s.users && s.users[u].email == email;
    assert NameTaken(s, name) <==> exists u :: u in s.users && s.users[u].name == name;
  }

  /** When time passes exactly the records and blacklist entries that have not reached their end stay. */
  lemma WaitEffect(s: State, ttl: int, d: nat)
    ensures var s' := Step(s, ttl, Tick(d));
            && s'.now == s.now + d && s'.users == s.users && s'.ats == s.ats && s'.issued == s.issued
            && (forall k :: k in s'.rts <==> k in s.rts && s.now + d < s.rts[k].until)
            && (forall k | k in s'.rts :: s'.rts[k] == s.rts[k])
            && (forall a :: a in s'.blacklist <==> a in s.blacklist && s.now + d < s.blacklist[a])
            && (forall a | a in s'.blacklist :: s'.blacklist[a] == s.blacklist[a])
  {
  }
}
