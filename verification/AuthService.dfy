/**
 The auth service and the access dependency, step by step over the user table and the Redis keys.
 Every request changes the state exactly as Sessions.Step says, so what holds of all runs there
 holds of the service. Token ids are handed in, as the UUID generator would supply them.
 */
module AuthService {
  import opened Prelude
  import opened Sessions

  datatype Kind = AccessKind | RefreshKind

  /** A JWT: the key that signed it, if one of ours did, and its claims. */
  datatype Token = Token(signedWith: Option<Kind>, kind: Kind, sub: int, ver: Option<int>, jti: int, exp: int)

  datatype Error =
    | TokenMissing | TokenInvalid | TokenMisuse | TokenRevoked | RefreshConflict
    | UserExists | ConstraintViolated | InvalidCredentials | AccessDenied | UserNotFound | UserBanned | VersionMismatch

  datatype Pair = Pair(access: Token, refresh: Token)

  /** The headers the gateway sets, whether its shared secret matches, and the bearer token. */
  datatype Request = Request(
    trusted: bool, userId: Option<int>, version: Option<int>, atJti: Option<int>, bearer: Option<Token>)

  datatype Claims = Claims(user: int, ver: Option<int>, jti: Option<int>)

  /** A user's grant for an app: whether it is switched on, and until when it lasts if it ends at all. */
  datatype GrantKey = GrantKey(user: int, app: string)
  datatype Grant = Grant(active: bool, expiresAt: Option<int>)

  predicate MayEnter(grants: map<GrantKey, Grant>, user: int, app: string, now: int) {
    var k := GrantKey(user, app);
    k in grants && grants[k].active && (grants[k].expiresAt.Some? ==> now <= grants[k].expiresAt.value)
  }

  function CreateAccessToken(user: int, version: int, jti: int, exp: int): Token {
    Token(Some(AccessKind), AccessKind, user, Some(version), jti, exp)
  }

  function GenerateRefreshToken(user: int, jti: int, exp: int): Token {
    Token(Some(RefreshKind), RefreshKind, user, None, jti, exp)
  }

  function DecodeToken(raw: Option<Token>, expected: Kind, now: int): Result<Token, Error> {
    if raw.None? then Err(TokenMissing)
    else if raw.value.signedWith != Some(expected) || raw.value.exp <= now then Err(TokenInvalid)
    else if raw.value.kind != expected then Err(TokenMisuse)
    else Ok(raw.value)
  }

  /** Whatever carries one of our signatures is a token we issued, claim for claim. */
  ghost predicate Unforged(s: State, raw: Option<Token>) {
    raw.Some? ==>
      match raw.value.signedWith
      case None => true
      case Some(AccessKind) =>
        raw.value.jti in s.ats
        && var a := s.ats[raw.value.jti];
           raw.value == CreateAccessToken(a.user, a.ver, raw.value.jti, a.exp)
      case Some(RefreshKind) =>
        raw.value.jti in s.issued
        && raw.value == GenerateRefreshToken(s.issued[raw.value.jti].user, raw.value.jti, s.issued[raw.value.jti].exp)
  }

  /** The user, version and token id a request stands for: from the gateway's headers or from its own token. */
  function ClaimsOf(req: Request, production: bool, now: int): Result<Claims, Error> {
    if req.trusted && req.userId.Some? then
      var jti :=
        if req.atJti.Some? then req.atJti
        else match DecodeToken(req.bearer, AccessKind, now)
             case Ok(t) => Some(t.jti)
             case Err(_) => None;
      Ok(Claims(req.userId.value, req.version, jti))
    else if production then Err(UserNotFound)
    else match DecodeToken(req.bearer, AccessKind, now)
         case Err(e) => Err(e)
         case Ok(t) => Ok(Claims(t.sub, t.ver, Some(t.jti)))
  }

  /** The verdict on those claims, in the order in which the checks are made. */
  ghost function Verdict(s: State, c: Claims): Result<int, Error> {
    if c.jti.Some? && c.jti.value in s.blacklist then Err(TokenRevoked)
    else if !HasSession(s, c.user) then Err(TokenRevoked)
    else if c.user !in s.users then Err(UserNotFound)
    else if !s.users[c.user].active then Err(UserBanned)
    else if c.ver.Some? && s.users[c.user].version != c.ver.value then Err(VersionMismatch)
    else Ok(c.user)
  }

  /** The request carries the issued access token itself, straight to a service that allows it. */
  ghost predicate Bears(s: State, production: bool, req: Request, a: int) {
    && a in s.ats && !production && !(req.trusted && req.userId.Some?)
    && req.bearer == Some(CreateAccessToken(s.ats[a].user, s.ats[a].ver, a, s.ats[a].exp))
  }

  /** The gateway verified the issued access token and passed its claims on. */
  ghost predicate PassedOn(s: State, req: Request, a: int) {
    && a in s.ats && s.now < s.ats[a].exp && req.trusted
    && req.userId == Some(s.ats[a].user) && req.version == Some(s.ats[a].ver) && req.atJti == Some(a)
  }

  /** The claims of the two kinds of token, and that only a token of the expected kind, signed by its key, decodes in time. */
  lemma TokenClaims(user: int, version: int, jti: int, exp: int, raw: Option<Token>, expected: Kind, now: int)
    ensures CreateAccessToken(user, version, jti, exp) == Token(Some(AccessKind), AccessKind, user, Some(version), jti, exp)
    ensures GenerateRefreshToken(user, jti, exp) == Token(Some(RefreshKind), RefreshKind, user, None, jti, exp)
    ensures DecodeToken(raw, expected, now).Ok? <==>
            raw.Some? && raw.value.signedWith == Some(expected) && raw.value.kind == expected && now < raw.value.exp
    ensures DecodeToken(raw, expected, now).Ok? ==> DecodeToken(raw, expected, now).value == raw.value
  {
  }

  /** Whom a request stands for: the gateway's headers count with its secret, in production nothing else does. */
  lemma ClaimsExactly(req: Request, production: bool, now: int)
    ensures var c := ClaimsOf(req, production, now);
            var b := req.bearer;
            var good := b.Some? && b.value.signedWith == Some(AccessKind) && b.value.kind == AccessKind && now < b.value.exp;
            if req.trusted && req.userId.Some? then
              c == Ok(Claims(req.userId.value, req.version,
                             if req.atJti.Some? then req.atJti else if good then Some(b.value.jti) else None))
            else if production then c == Err(UserNotFound)
            else if good then c == Ok(Claims(b.value.sub, b.value.ver, Some(b.value.jti)))
            else c.Err?
  {
  }

  /** Claims pass exactly if the token is not blacklisted, a record is valid, and the user is stored, active and at the version. */
  lemma VerdictExactly(s: State, c: Claims)
    ensures Verdict(s, c).Ok? <==>
            && (c.jti.Some? ==> c.jti.value !in s.blacklist)
            && (exists k :: k in s.rts && k.user == c.user && s.rts[k].value != Used)
            && c.user in s.users && s.users[c.user].active
            && (c.ver.Some? ==> s.users[c.user].version == c.ver.value)
    ensures Verdict(s, c).Ok? ==> Verdict(s, c).value == c.user
  {
    if k :| k in s.rts && k.user == c.user && s.rts[k].value != Used {
      assert s.rts[k].value.Valid? && HasSession(s, c.user);
    }
    if HasSession(s, c.user) {
      var k :| k in s.rts && k.user == c.user && s.rts[k].value.Valid?;
      assert s.rts[k].value != Used;
    }
  }

  lemma TakenBy(s: State, u: int, name: string)
    requires u in s.users && s.users[u].name == name
    ensures NameTaken(s, name)
  {
  }

  lemma SameBearer(s: State, u: int, v: int, name: string)
    requires NamesUnique(s)
    requires u in s.users && s.users[u].name == name && v in s.users && s.users[v].name == name
    ensures u == v
  {
  }

  lemma OnlyBearer(s: State, found: Option<int>, name: string)
    requires NamesUnique(s) && (found.None? <==> !NameTaken(s, name))
    requires found.Some? ==> found.value in s.users && s.users[found.value].name == name
    ensures forall u | u in s.users && s.users[u].name == name :: found == Some(u)
  {
    forall u | u in s.users && s.users[u].name == name ensures found == Some(u) {
      TakenBy(s, u, name);
      match found
      case Some(v) => SameBearer(s, u, v, name);
    }
  }

  function RtKeys(rts: map<Key, Rt>, u: int): set<Key> {
    set k | k in rts && k.user == u
  }

  ghost function BoundIn(rts: map<Key, Rt>, keys: set<Key>): set<int> {
    set k | k in keys && k in rts && rts[k].value.Valid? :: rts[k].value.at
  }

  lemma KeysDropped(rts: map<Key, Rt>, u: int)
    ensures rts - RtKeys(rts, u) == DropRts(rts, u)
  {
  }

  lemma BoundInOneMore(rts: map<Key, Rt>, keys: set<Key>, k: Key)
    requires k in rts
    ensures BoundIn(rts, keys + {k}) ==
              if rts[k].value.Valid? then BoundIn(rts, keys) + {rts[k].value.at} else BoundIn(rts, keys)
  {
  }

  /** What the pipeline holds once the first i keys have been read. */
  ghost function Queue(rts: map<Key, Rt>, keys: seq<Key>, i: nat, until: int): map<int, int>
    requires i <= |keys|
  {
    BlacklistOf(BoundIn(rts, Elements(keys[..i])), until)
  }

  lemma QueueOneMore(rts: map<Key, Rt>, keys: seq<Key>, i: nat, until: int)
    requires Distinct(keys) && i < |keys| && keys[i] in rts
    ensures Queue(rts, keys, i + 1, until) ==
              if rts[keys[i]].value.Valid? then Queue(rts, keys, i, until)[rts[keys[i]].value.at := until]
              else Queue(rts, keys, i, until)
  {
    OneFurther(keys, i);
    BoundInOneMore(rts, Elements(keys[..i]), keys[i]);
  }

  lemma KeysPresent(rts: map<Key, Rt>, keys: seq<Key>, u: int)
    requires Elements(keys) == RtKeys(rts, u)
    ensures forall i | 0 <= i < |keys| :: keys[i] in rts
  {
    forall i | 0 <= i < |keys| ensures keys[i] in rts {
      assert keys[i] in Elements(keys);
    }
  }

  lemma QueueAll(rts: map<Key, Rt>, keys: seq<Key>, u: int, until: int)
    requires Elements(keys) == RtKeys(rts, u)
    ensures Queue(rts, keys, |keys|, until) == BlacklistOf(BoundAts(rts, u), until)
  {
    AllTaken(keys);
    BoundInAll(rts, u);
  }

  lemma BoundInAll(rts: map<Key, Rt>, u: int)
    ensures BoundIn(rts, RtKeys(rts, u)) == BoundAts(rts, u)
  {
    forall a | a in BoundAts(rts, u) ensures a in BoundIn(rts, RtKeys(rts, u)) {
      var k :| k in rts && k.user == u && rts[k].value == Valid(a);
      assert k in RtKeys(rts, u);
    }
  }

  /** Reads the records one by one and queues a blacklist write for each valid one's access token. */
  method QueueBlacklist(rts: map<Key, Rt>, keys: seq<Key>, until: int) returns (queued: map<int, int>)
    requires Distinct(keys) && forall i | 0 <= i < |keys| :: keys[i] in rts
    ensures queued == Queue(rts, keys, |keys|, until)
  {
    queued := map[];
    var i := 0;
    while i < |keys|
      invariant 0 <= i <= |keys|
      invariant queued == Queue(rts, keys, i, until)
    {
      QueueOneMore(rts, keys, i, until);
      if rts[keys[i]].value.Valid? {
        queued := queued[rts[keys[i]].value.at := until];
      }
      i := i + 1;
    }
  }

  class AuthService {
    const ttl: int
    const production: bool
    var now: int
    var users: map<int, User>
    var nextUser: int
    var rts: map<Key, Rt>
    var blacklist: map<int, int>
    ghost var ats: map<int, Access>
    ghost var issued: map<int, Refresher>
    ghost var bulk: set<int>
    ghost var spent: set<int>

    ghost function Abs(): State
      reads this
    {
      State(now, users, nextUser, rts, blacklist, ats, issued, bulk, spent)
    }

    constructor (start: int, atTtl: int, inProduction: bool)
      ensures Abs() == Init(start) && ttl == atTtl && production == inProduction
    {
      ttl, production := atTtl, inProduction;
      now, users, nextUser, rts, blacklist := start, map[], 1, map[], map[];
      ats, issued, bulk, spent := map[], map[], {}, {};
    }

    method RevokeAllUserTokens(u: int)
      modifies this
      ensures Abs() == RevokeAll(old(Abs()), u)
    {
      KeysDropped(rts, u);
      rts := rts - RtKeys(rts, u);
      bulk := bulk + set a | a in ats && ats[a].user == u;
    }

    method RevokeAllSessions(u: int)
      modifies this
      ensures Abs() == EndSessions(old(Abs()), ttl, u)
    {
      var keys := AnyOrder(RtKeys(rts, u));
      KeysPresent(rts, keys, u);
      var queued := QueueBlacklist(rts, keys, now + ttl);
      QueueAll(rts, keys, u, now + ttl);
      KeysDropped(rts, u);
      blacklist := blacklist + queued;
      rts := rts - RtKeys(rts, u);
    }

    method IssueTokenPair(u: int, version: int, at: int, rt: int) returns (pair: Pair)
      modifies this
      ensures Abs() == Issue(old(Abs()), ttl, u, version, at, rt)
      ensures pair == Pair(CreateAccessToken(u, version, at, now + ttl), GenerateRefreshToken(u, rt, now + RT_TTL))
    {
      pair := Pair(CreateAccessToken(u, version, at, now + ttl), GenerateRefreshToken(u, rt, now + RT_TTL));
      rts := rts[Key(u, rt) := Rt(Valid(at), now + RT_TTL)];
      ats := ats[at := Access(u, version, now + ttl)];
      issued := issued[rt := Refresher(u, now + RT_TTL)];
    }

    /** The duplicate name is only caught by the table's constraint, after the id was drawn. */
    method Register(name: string, email: string, password: string) returns (r: Result<int, Error>)
      modifies this
      ensures Abs() == Step(old(Abs()), ttl, Event.Register(name, email, password))
      ensures r == if EmailTaken(old(Abs()), email) then Err(UserExists)
                   else if NameTaken(old(Abs()), name) then Err(ConstraintViolated) else Ok(old(nextUser))
    {
      if exists u | u in users :: users[u].email == email {
        return Err(UserExists);
      }
      var u := nextUser;
      nextUser := nextUser + 1;
      if exists v | v in users :: users[v].name == name {
        return Err(ConstraintViolated);
      }
      users := users[u := User(name, email, 1, true, password)];
      r := Ok(u);
    }

    method AdminCreateUser(name: string, email: string, password: string, active: bool) returns (r: Result<int, Error>)
      modifies this
      ensures Abs() == Step(old(Abs()), ttl, Event.CreateUser(name, email, password, active))
      ensures r == if EmailTaken(old(Abs()), email) || NameTaken(old(Abs()), name) then Err(UserExists) else Ok(old(nextUser))
    {
      if (exists u | u in users :: users[u].email == email) || (exists u | u in users :: users[u].name == name) {
        return Err(UserExists);
      }
      users := users[nextUser := User(name, email, 1, active, password)];
      r := Ok(nextUser);
      nextUser := nextUser + 1;
    }

    method GetByUsername(name: string) returns (found: Option<int>)
      ensures found.None? <==> !NameTaken(Abs(), name)
      ensures found.Some? ==> found.value in users && users[found.value].name == name
    {
      var order := AnyOrder(users.Keys);
      for i := 0 to |order|
        invariant forall u | u in Elements(order[..i]) :: u in users && users[u].name != name
      {
        OneFurther(order, i);
        if users[order[i]].name == name {
          TakenBy(Abs(), order[i], name);
          return Some(order[i]);
        }
      }
      AllTaken(order);
      assert !NameTaken(Abs(), name);
      found := None;
    }

    /** The user is looked up by name and needs an active, unexpired grant for the app. */
    method Login(name: string, password: string, app: string, grants: map<GrantKey, Grant>, at: int, rt: int)
        returns (r: Result<Pair, Error>)
      requires NamesUnique(Abs())
      modifies this
      ensures r.Ok? <==>
                exists u :: u in old(users) && old(users)[u].name == name && old(users)[u].password == password
                  && GrantKey(u, app) in grants && grants[GrantKey(u, app)].active
                  && (grants[GrantKey(u, app)].expiresAt.Some? ==> now <= grants[GrantKey(u, app)].expiresAt.value)
      ensures r.Err? ==> Abs() == old(Abs())
      ensures !NameTaken(old(Abs()), name) ==> Abs() == old(Abs()) && r == Err(InvalidCredentials)
      ensures forall u | u in old(users) && old(users)[u].name == name ::
                var e := Event.Login(u, password, MayEnter(grants, u, app, now), at, rt);
                && Abs() == Step(old(Abs()), ttl, e) && (r.Ok? <==> LogsIn(old(Abs()), e))
                && (r.Ok? ==> r.value.access == CreateAccessToken(u, old(users)[u].version, at, now + ttl))
                && (r.Ok? ==> r.value.refresh == GenerateRefreshToken(u, rt, now + RT_TTL))
                && (r.Err? ==> r.error == if old(users)[u].password == password then AccessDenied else InvalidCredentials)
    {
      var found := GetByUsername(name);
      OnlyBearer(Abs(), found, name);
      if found.None? || users[found.value].password != password {
        return Err(InvalidCredentials);
      }
      var u := found.value;
      if !MayEnter(grants, u, app, now) {
        return Err(AccessDenied);
      }
      RevokeAllSessions(u);
      var pair := IssueTokenPair(u, users[u].version, at, rt);
      r := Ok(pair);
    }

    /** Rotates the record the request names; the caller has already decoded the token. */
    method Refresh(u: int, jti: int, version: int, at: int, rt: int) returns (r: Result<Pair, Error>)
      modifies this
      ensures var k := Key(u, jti);
              Abs() ==
                if k !in old(rts) then RevokeAll(old(Abs()), u)
                else if old(rts)[k].value.Used? then old(Abs())
                else Issue(Retire(old(Abs()), ttl, k), ttl, u, version, at, rt)
      ensures r.Ok? <==> Key(u, jti) in old(rts) && old(rts)[Key(u, jti)].value.Valid?
      ensures r.Ok? ==>
                r.value == Pair(CreateAccessToken(u, version, at, now + ttl), GenerateRefreshToken(u, rt, now + RT_TTL))
      ensures r.Err? ==> r.error == if Key(u, jti) in old(rts) then RefreshConflict else TokenRevoked
    {
      var k := Key(u, jti);
      if k !in rts {
        RevokeAllUserTokens(u);
        return Err(TokenRevoked);
      }
      if rts[k].value.Used? {
        return Err(RefreshConflict);
      }
      var oldAt := rts[k].value.at;
      rts := rts[k := Rt(Used, now + USED_TTL)];
      rts := rts[Key(u, rt) := Rt(Valid(at), now + RT_TTL)];
      blacklist := blacklist[oldAt := now + ttl];
      ats := ats[at := Access(u, version, now + ttl)];
      issued := issued[rt := Refresher(u, now + RT_TTL)];
      spent := spent + {jti};
      r := Ok(Pair(CreateAccessToken(u, version, at, now + ttl), GenerateRefreshToken(u, rt, now + RT_TTL)));
    }

    /** Any unforged string a client may send: only an unexpired refresh token of ours is acted on. */
    method RefreshFromToken(raw: Option<Token>, at: int, rt: int) returns (r: Result<Pair, Error>)
      requires Unforged(Abs(), raw)
      modifies this
      ensures r.Ok? <==>
                && raw.Some? && raw.value.signedWith == Some(RefreshKind) && now < raw.value.exp
                && Key(raw.value.sub, raw.value.jti) in old(rts)
                && old(rts)[Key(raw.value.sub, raw.value.jti)].value != Used
      ensures raw.Some? && raw.value.signedWith == Some(RefreshKind) ==>
                && Abs() == Step(old(Abs()), ttl, Event.Refresh(raw.value.jti, at, rt))
                && (r.Ok? <==> Rotates(old(Abs()), Event.Refresh(raw.value.jti, at, rt)))
      ensures !(raw.Some? && raw.value.signedWith == Some(RefreshKind)) ==>
                Abs() == old(Abs()) && r == Err(if raw.None? then TokenMissing else TokenInvalid)
      ensures r.Ok? ==>
                && r.value.access == CreateAccessToken(raw.value.sub, 1, at, now + ttl)
                && r.value.refresh == GenerateRefreshToken(raw.value.sub, rt, now + RT_TTL)
    {
      match DecodeToken(raw, RefreshKind, now)
      case Err(e) => r := Err(e);
      case Ok(t) =>
        r := Refresh(t.sub, t.jti, ValueOr(t.ver, 1), at, rt);
    }

    method StorePassword(u: int, password: string)
      requires u in users
      modifies this
      ensures Abs() == SetPassword(old(Abs()), u, password)
    {
      users := users[u := users[u].(password := password, version := users[u].version + 1)];
    }

    method ChangePassword(u: int, oldPassword: string, newPassword: string) returns (r: Result<(), Error>)
      modifies this
      ensures Abs() == Step(old(Abs()), ttl, Event.ChangePassword(u, oldPassword, newPassword))
      ensures r == if u !in old(users) then Err(UserNotFound)
                   else if old(users)[u].password != oldPassword then Err(InvalidCredentials) else Ok(())
      ensures r.Err? ==> Abs() == old(Abs())
      ensures r.Ok? ==> u in users && users[u].password == newPassword && users[u].version == old(users)[u].version + 1
    {
      if u !in users {
        return Err(UserNotFound);
      }
      if users[u].password != oldPassword {
        return Err(InvalidCredentials);
      }
      StorePassword(u, newPassword);
      RevokeAllUserTokens(u);
      r := Ok(());
    }

    method AdminResetPassword(u: int, newPassword: string) returns (r: Result<(), Error>)
      modifies this
      ensures Abs() == Step(old(Abs()), ttl, ResetPassword(u, newPassword))
      ensures r == if u in old(users) then Ok(()) else Err(UserNotFound)
    {
      if u !in users {
        return Err(UserNotFound);
      }
      StorePassword(u, newPassword);
      RevokeAllUserTokens(u);
      r := Ok(());
    }

    method ForceLogout(u: int)
      modifies this
      ensures Abs() == Step(old(Abs()), ttl, Logout(u))
    {
      RevokeAllUserTokens(u);
    }

    method AdminSetActive(u: int, active: bool) returns (r: Result<(), Error>)
      modifies this
      ensures Abs() == Step(old(Abs()), ttl, SetActive(u, active))
      ensures r == if u in old(users) then Ok(()) else Err(UserNotFound)
    {
      if u !in users {
        return Err(UserNotFound);
      }
      users := users[u := users[u].(active := active)];
      if !active {
        RevokeAllUserTokens(u);
      }
      r := Ok(());
    }

    method AdminDeleteUser(u: int) returns (r: Result<(), Error>)
      modifies this
      ensures Abs() == Step(old(Abs()), ttl, DeleteUser(u))
      ensures r == if u in old(users) then Ok(()) else Err(UserNotFound)
    {
      if u !in users {
        return Err(UserNotFound);
      }
      RevokeAllUserTokens(u);
      users := users - {u};
      r := Ok(());
    }

    /** Time passes and the keys whose lifetime is over disappear. */
    method Wait(d: nat)
      modifies this
      ensures Abs() == Step(old(Abs()), ttl, Tick(d))
    {
      now := now + d;
      rts := map k | k in rts && now < rts[k].until :: rts[k];
      blacklist := map a | a in blacklist && now < blacklist[a] :: blacklist[a];
    }

    method HasValidSession(u: int) returns (found: bool)
      ensures found == HasSession(Abs(), u)
    {
      var keys := AnyOrder(RtKeys(rts, u));
      found := false;
      for i := 0 to |keys|
        invariant forall k | k in Elements(keys[..i]) :: k in rts && rts[k].value.Used?
      {
        OneFurther(keys, i);
        if rts[keys[i]].value.Valid? {
          found := true;
          break;
        }
      }
      AllTaken(keys);
    }

    method GetCurrentUser(req: Request) returns (r: Result<int, Error>)
      ensures production && !(req.trusted && req.userId.Some?) ==> r == Err(UserNotFound)
      ensures r == match ClaimsOf(req, production, now)
                   case Err(e) => Err(e)
                   case Ok(c) => Verdict(Abs(), c)
      ensures forall a | Bears(Abs(), production, req, a) || PassedOn(Abs(), req, a) ::
                (r.Ok? <==> Accepted(Abs(), a)) && (r.Ok? ==> r.value == Abs().ats[a].user)
    {
      var c: Claims;
      match ClaimsOf(req, production, now)
      case Err(e) => return Err(e);
      case Ok(claims) => c := claims;
      if c.jti.Some? && c.jti.value in blacklist {
        return Err(TokenRevoked);
      }
      var live := HasValidSession(c.user);
      if !live {
        return Err(TokenRevoked);
      }
      if c.user !in users {
        return Err(UserNotFound);
      }
      if !users[c.user].active {
        return Err(UserBanned);
      }
      if c.ver.Some? && users[c.user].version != c.ver.value {
        return Err(VersionMismatch);
      }
      r := Ok(c.user);
    }
  }
}
