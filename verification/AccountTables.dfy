/**
  Accounts, login sessions, recovery codes and control grants, and the write
  transactions over them. Keys, password hashes, identities and code digests
  are opaque unique tokens; times are nanoseconds on one clock, read once by
  each transaction.
 */
module AccountTables {
  import opened Options
  import opened SqlOrder

  const MAX_SESSIONS: nat := 20
  const MAX_CODES: nat := 8
  const MINUTE: int := 60 * 1000 * 1000 * 1000
  const LIFETIME: int := 12 * 60 * MINUTE

  type Token = nat

  datatype Account = Account(username: string, role: string, access: string, disabled: bool, hash: Token)

  /** `issuedFor` is the password hash the login was issued under; `created` ranks the stored timestamp text. */
  datatype Login = Login(user: Token, publicId: Token, created: int, lastSeen: int, expires: int,
                         audience: string, issuedFor: Token)

  datatype Grant = Grant(id: Token, issuedBy: Token, expires: Option<int>)

  datatype Db = Db(accounts: map<Token, Account>, sessions: map<Token, Login>, codes: map<Token, Token>,
                   grants: map<Token, Grant>, idleMinutes: Option<int>)

  datatype Error =
    | InvalidSession | InvalidCredentials | InterfaceAccess | AdministratorRequired | NotFound | LastAdmin
    | AlreadyInitialized | UsernameTaken | InvalidRole | InvalidPolicy | InvalidCode | NotManaged | TooManySessions
    | GrantRefused | ControlRequired

  datatype Tx = Applied(db: Db) | Refused(error: Error)

  function Normalized(access: string): string { if access == "" then "full" else access }

  predicate ValidIdleMinutes(minutes: int) { minutes in {0, 30, 60, 120, 240, 480} }

  /** Absolute and idle expiry, from the stored row and the stored policy. */
  predicate TimesValid(s: Login, idle: Option<int>, now: int) {
    && now < s.expires
    && idle.Some? && ValidIdleMinutes(idle.value)
    && (idle.value == 0 || now - s.lastSeen <= idle.value * MINUTE)
  }

  /** A login that authenticates at this instant. */
  predicate Live(db: Db, key: Token, now: int) {
    && key in db.sessions
    && db.sessions[key].user in db.accounts
    && !db.accounts[db.sessions[key].user].disabled
    && TimesValid(db.sessions[key], db.idleMinutes, now)
  }

  predicate LiveAdministrator(db: Db, key: Token, now: int) {
    && Live(db, key, now)
    && db.accounts[db.sessions[key].user].role == "admin"
    && db.accounts[db.sessions[key].user].access == "full"
    && db.sessions[key].audience == "full"
  }

  function ActorError(db: Db, key: Token, now: int): Error {
    if Live(db, key, now) then AdministratorRequired else InvalidSession
  }

  function SessionsOf(db: Db, user: Token): (r: set<Token>)
    ensures r <= db.sessions.Keys
  {
    set k | k in db.sessions && db.sessions[k].user == user
  }

  function WithoutSessions(db: Db, user: Token): Db {
    db.(sessions := map k | k in db.sessions && db.sessions[k].user != user :: db.sessions[k])
  }

  function WithoutCodes(db: Db, user: Token): Db {
    db.(codes := map c | c in db.codes && db.codes[c] != user :: db.codes[c])
  }

  // ----- Logging in -----

  /** `ORDER BY created_at, token_hash`: the later of two logins. */
  predicate Newer(db: Db, a: Token, b: Token)
    requires a in db.sessions && b in db.sessions
  {
    db.sessions[b].created < db.sessions[a].created || (db.sessions[a].created == db.sessions[b].created && b < a)
  }

  lemma {:induction false} NewestExists(db: Db, s: set<Token>)
    requires s != {} && s <= db.sessions.Keys
    ensures exists m :: m in s && forall x | x in s && x != m :: Newer(db, m, x)
  {
    var any := SomeMember(s);
    var rest := s - {any};
    if rest == {} {
      assert s == {any};
      assert any in s && forall x | x in s && x != any :: Newer(db, any, x);
    } else {
      NewestExists(db, rest);
      var m :| m in rest && forall x | x in rest && x != m :: Newer(db, m, x);
      var g := if Newer(db, any, m) then any else m;
      assert forall x | x in s :: x == any || x in rest;
      assert g in s && forall x | x in s && x != g :: Newer(db, g, x);
    }
  }

  function NewestOf(db: Db, s: set<Token>): (m: Token)
    requires s != {} && s <= db.sessions.Keys
    ensures m in s && forall x | x in s && x != m :: Newer(db, m, x)
  {
    NewestExists(db, s);
    var m :| m in s && forall x | x in s && x != m :: Newer(db, m, x);
    m
  }

  /** The `n` newest of some logins. */
  function KeptOf(db: Db, s: set<Token>, n: nat): (r: set<Token>)
    requires s <= db.sessions.Keys
    ensures r <= s && |r| == (if |s| <= n then |s| else n)
    ensures forall x, y | x in s - r && y in r :: Newer(db, y, x)
    decreases n
  {
    if s == {} || n == 0 then {}
    else
      var top := NewestOf(db, s);
      assert |s - {top}| == |s| - 1;
      {top} + KeptOf(db, s - {top}, n - 1)
  }

  /** Keep the new login and the newest others, up to the account's cap. */
  function Evicted(db: Db, user: Token, key: Token): Db {
    var others := SessionsOf(db, user) - {key};
    var kept := KeptOf(db, others, MAX_SESSIONS - 1);
    db.(sessions := db.sessions - (others - kept))
  }

  /** Insert a login. With a proof, the password it was checked against must still be current. */
  function NewSession(db: Db, user: Token, proof: Option<Token>, audience: string, key: Token, publicId: Token,
                      created: int, now: int): Tx {
    var audience := Normalized(audience);
    if audience != "full" && audience != "remote" then Refused(InterfaceAccess)
    else if user !in db.accounts then Refused(NotFound)
    else if db.accounts[user].disabled then Refused(InvalidCredentials)
    else if audience == "full" && Normalized(db.accounts[user].access) != "full" then Refused(InterfaceAccess)
    else if proof.Some? && proof.value != db.accounts[user].hash then Refused(InvalidCredentials)
    else
      var login := Login(user, publicId, created, now, now + LIFETIME, audience,
                         if proof.Some? then proof.value else db.accounts[user].hash);
      Applied(Evicted(db.(sessions := db.sessions[key := login]), user, key))
  }

  /** Activity: checked again under the writer, stamped with the earlier read's time. */
  function Touch(db: Db, key: Token, seen: int, now: int): Tx {
    if !Live(db, key, now) then Refused(InvalidSession)
    else Applied(db.(sessions := db.sessions[key := db.sessions[key].(lastSeen := seen)]))
  }

  // ----- Ending logins -----

  function Revoke(db: Db, key: Token): Db { db.(sessions := db.sessions - {key}) }

  function ManagedKeys(db: Db, owner: Token, publicId: Token): (r: set<Token>)
    ensures r <= db.sessions.Keys
  {
    set k | k in SessionsOf(db, owner) && db.sessions[k].publicId == publicId
  }

  /** End one of the caller's own logins by its management identity. */
  function RevokeOwn(db: Db, actor: Token, publicId: Token, now: int): Tx {
    if !Live(db, actor, now) then Refused(InvalidSession)
    else
      var keys := ManagedKeys(db, db.sessions[actor].user, publicId);
      if keys == {} then Refused(NotManaged) else Applied(db.(sessions := db.sessions - keys))
  }

  function RevokeOthers(db: Db, actor: Token, now: int): Tx {
    if !Live(db, actor, now) then Refused(InvalidSession)
    else
      var others := SessionsOf(db, db.sessions[actor].user) - {actor};
      if MAX_SESSIONS <= |others| then Refused(TooManySessions)
      else Applied(db.(sessions := db.sessions - others))
  }

  /** Logins past their time under a policy. */
  function Expired(db: Db, minutes: int, now: int): (r: set<Token>)
    ensures r <= db.sessions.Keys
  {
    set k | k in db.sessions && !TimesValid(db.sessions[k], Some(minutes), now)
  }

  function PruneExpired(db: Db, minutes: int, now: int): Db {
    db.(sessions := db.sessions - Expired(db, minutes, now))
  }

  /** Retire what the old policy expired, change the policy, retire what the new one expires. */
  function SetPolicy(db: Db, actor: Token, minutes: int, now: int): Tx {
    if !ValidIdleMinutes(minutes) then Refused(InvalidPolicy)
    else if !LiveAdministrator(db, actor, now) then Refused(ActorError(db, actor, now))
    else if db.idleMinutes.None? || !ValidIdleMinutes(db.idleMinutes.value) then Refused(InvalidPolicy)
    else
      var pruned := PruneExpired(db, db.idleMinutes.value, now);
      Applied(PruneExpired(pruned.(idleMinutes := Some(minutes)), minutes, now))
  }

  // ----- Passwords and recovery -----

  /** A new hash ends every login and removes every recovery code of the account. */
  function ReplacePassword(db: Db, user: Token, hash: Token): Tx {
    if MAX_SESSIONS < |SessionsOf(db, user)| then Refused(TooManySessions)
    else if user !in db.accounts then Refused(NotFound)
    else
      var updated := db.(accounts := db.accounts[user := db.accounts[user].(hash := hash)]);
      Applied(WithoutCodes(WithoutSessions(updated, user), user))
  }

  predicate ProofHolds(db: Db, user: Token, proof: Token) {
    user in db.accounts && !db.accounts[user].disabled && db.accounts[user].hash == proof
  }

  /** The caller is still logged in as the account whose password was just confirmed. */
  function OwnerError(db: Db, actor: Token, user: Token, proof: Token, now: int): Option<Error> {
    if !Live(db, actor, now) || db.sessions[actor].user != user then Some(InvalidSession)
    else if !ProofHolds(db, user, proof) then Some(InvalidCredentials)
    else None
  }

  function ChangeOwn(db: Db, actor: Token, user: Token, proof: Token, hash: Token, now: int): Tx {
    var failed := OwnerError(db, actor, user, proof, now);
    if failed.Some? then Refused(failed.value) else ReplacePassword(db, user, hash)
  }

  function ResetFor(db: Db, actor: Token, user: Token, hash: Token, now: int): Tx {
    if !LiveAdministrator(db, actor, now) then Refused(ActorError(db, actor, now)) else ReplacePassword(db, user, hash)
  }

  predicate Redeemable(db: Db, user: Token, username: string, code: Token) {
    && user in db.accounts && db.accounts[user].username == username && !db.accounts[user].disabled
    && code in db.codes && db.codes[code] == user
  }

  /** Redeem a saved code: it, every other code and every login go with it. */
  function Recover(db: Db, user: Token, username: string, code: Token, hash: Token): Tx {
    if !Redeemable(db, user, username, code) then Refused(InvalidCode) else ReplacePassword(db, user, hash)
  }

  /** Insert a batch of codes, one row each, in order. */
  function WithCodes(codes: map<Token, Token>, batch: seq<Token>, user: Token): (r: map<Token, Token>)
    ensures forall c :: c in r <==> c in codes || c in batch
    ensures forall c | c in r :: r[c] == if c in batch then user else codes[c]
  {
    if batch == [] then codes else WithCodes(codes, batch[..|batch| - 1], user)[batch[|batch| - 1] := user]
  }

  function ReplaceCodes(db: Db, actor: Token, user: Token, proof: Token, batch: seq<Token>, now: int): Tx {
    var failed := OwnerError(db, actor, user, proof, now);
    if failed.Some? then Refused(failed.value)
    else
      var cleared := WithoutCodes(db, user);
      Applied(cleared.(codes := WithCodes(cleared.codes, batch, user)))
  }

  function RemoveCodes(db: Db, actor: Token, user: Token, proof: Token, now: int): Tx {
    var failed := OwnerError(db, actor, user, proof, now);
    if failed.Some? then Refused(failed.value) else Applied(WithoutCodes(db, user))
  }

  // ----- Administration -----

  function EnabledAdmins(db: Db): set<Token> {
    set a | a in db.accounts && db.accounts[a].role == "admin" && !db.accounts[a].disabled
  }

  /** `actor` is absent for trusted internal callers. */
  function SetDisabled(db: Db, actor: Option<Token>, user: Token, disabled: bool, now: int): Tx {
    if actor.Some? && !LiveAdministrator(db, actor.value, now) then Refused(ActorError(db, actor.value, now))
    else if user !in db.accounts then Refused(NotFound)
    else if disabled && !db.accounts[user].disabled && db.accounts[user].role == "admin" && |EnabledAdmins(db)| <= 1
    then Refused(LastAdmin)
    else
      var updated := db.(accounts := db.accounts[user := db.accounts[user].(disabled := disabled)]);
      if !disabled then Applied(updated)
      else if MAX_SESSIONS < |SessionsOf(db, user)| then Refused(TooManySessions)
      else Applied(WithoutCodes(WithoutSessions(updated, user), user))
  }

  function Create(db: Db, actor: Option<Token>, bootstrap: bool, id: Token, username: string, role: string,
                  access: string, hash: Token, now: int): Tx {
    var access := Normalized(access);
    if role != "admin" && role != "operator" then Refused(InvalidRole)
    else if (access != "full" && access != "remote") || (access == "remote" && role != "operator")
        then Refused(InterfaceAccess)
    else if actor.Some? && !LiveAdministrator(db, actor.value, now) then Refused(ActorError(db, actor.value, now))
    else if bootstrap && db.accounts != map[] then Refused(AlreadyInitialized)
    else if exists a :: a in db.accounts && db.accounts[a].username == username then Refused(UsernameTaken)
    else Applied(db.(accounts := db.accounts[id := Account(username, role, access, false, hash)]))
  }

  /** Changing access ends every login and grant of the account. */
  function SetAccess(db: Db, actor: Token, user: Token, access: string, now: int): Tx {
    if access != "full" && access != "remote" then Refused(InterfaceAccess)
    else if !LiveAdministrator(db, actor, now) then Refused(ActorError(db, actor, now))
    else if user !in db.accounts then Refused(NotFound)
    else if access == "remote" && db.accounts[user].role != "operator" then Refused(InterfaceAccess)
    else if db.accounts[user].access == access then Applied(db)
    else if MAX_SESSIONS < |SessionsOf(db, user)| then Refused(TooManySessions)
    else
      var updated := db.(accounts := db.accounts[user := db.accounts[user].(access := access)]);
      Applied(WithoutSessions(updated, user).(grants := db.grants - {user}))
  }

  function GrantControl(db: Db, actor: Option<Token>, administrator: Token, user: Token, id: Token,
                        expires: Option<int>, now: int): Tx {
    if actor.Some? && !LiveAdministrator(db, actor.value, now) then Refused(ActorError(db, actor.value, now))
    else
      var issuer := if actor.Some? then db.sessions[actor.value].user else administrator;
      if issuer !in EnabledAdmins(db) || user !in db.accounts || db.accounts[user].disabled
          || db.accounts[user].role != "operator"
      then Refused(GrantRefused)
      else Applied(db.(grants := db.grants[user := Grant(id, issuer, expires)]))
  }

  function RevokeControl(db: Db, actor: Option<Token>, administrator: Token, user: Token, now: int): Tx {
    if actor.Some? && !LiveAdministrator(db, actor.value, now) then Refused(ActorError(db, actor.value, now))
    else
      var issuer := if actor.Some? then db.sessions[actor.value].user else administrator;
      if issuer !in EnabledAdmins(db) then Refused(AdministratorRequired)
      else Applied(db.(grants := db.grants - {user}))
  }
}
