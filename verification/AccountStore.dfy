/**
  The account store: row tables changed in place. Row scans visit a table in
  any order; each transaction commits or leaves every table as it was.
 */
module AccountStore {
  import opened Options
  import opened AccountTables
  import AccountInvariant

  class Store {
    var accounts: map<Token, Account>
    var sessions: map<Token, Login>
    var codes: map<Token, Token>
    var grants: map<Token, Grant>
    var idleMinutes: Option<int>

    constructor ()
      ensures State() == Db(map[], map[], map[], map[], None)
    {
      accounts, sessions, codes, grants, idleMinutes := map[], map[], map[], map[], None;
    }

    /** The stored rows as one value. */
    function State(): Db
      reads this
    {
      Db(accounts, sessions, codes, grants, idleMinutes)
    }

    /** The account invariant, once a policy is stored. */
    ghost predicate Valid()
      reads this
    {
      AccountInvariant.Valid(State())
    }

    /** Collect the logins past their time, then delete them one by one. */
    method PruneExpiredSessions(minutes: int, now: int) returns (expired: set<Token>)
      modifies `sessions
      ensures State() == PruneExpired(old(State()), minutes, now)
      ensures expired == Expired(old(State()), minutes, now)
    {
      expired := {};
      var unread := sessions.Keys;
      while unread != {}
        invariant unread <= sessions.Keys && sessions == old(sessions)
        invariant expired == set k | k in sessions.Keys - unread && !TimesValid(sessions[k], Some(minutes), now)
        decreases unread
      {
        var key :| key in unread;
        unread := unread - {key};
        if !TimesValid(sessions[key], Some(minutes), now) {
          expired := expired + {key};
        }
      }
      assert expired == Expired(old(State()), minutes, now);
      var doomed := expired;
      while doomed != {}
        invariant doomed <= expired
        invariant sessions == old(sessions) - (expired - doomed)
        decreases doomed
      {
        var key :| key in doomed;
        sessions := sessions - {key};
        assert old(sessions) - (expired - (doomed - {key})) == old(sessions) - (expired - doomed) - {key};
        doomed := doomed - {key};
      }
      assert expired - doomed == expired;
    }

    /** Change the idle limit under a live administrator; returns the logins it ended. */
    method SetSessionPolicy(actor: Token, minutes: int, now: int) returns (retired: set<Token>, failed: Option<Error>)
      modifies `sessions, `idleMinutes
      ensures var tx := SetPolicy(old(State()), actor, minutes, now);
              && failed == (if tx.Refused? then Some(tx.error) else None)
              && State() == (if tx.Refused? then old(State()) else tx.db)
      ensures failed.None? ==> retired == old(sessions).Keys - sessions.Keys
      ensures old(Valid()) ==> Valid()
    {
      hide AccountInvariant.Valid, LiveAdministrator, EnabledAdmins;
      ghost var was := State();
      if Valid() {
        AccountInvariant.SetPolicyKeepsValid(was, actor, minutes, now);
      }
      retired := {};
      if !ValidIdleMinutes(minutes) {
        return {}, Some(InvalidPolicy);
      }
      if !LiveAdministrator(State(), actor, now) {
        return {}, Some(ActorError(State(), actor, now));
      }
      if idleMinutes.None? || !ValidIdleMinutes(idleMinutes.value) {
        return {}, Some(InvalidPolicy);
      }
      var stale := PruneExpiredSessions(idleMinutes.value, now);
      idleMinutes := Some(minutes);
      var newly := PruneExpiredSessions(minutes, now);
      retired, failed := stale + newly, None;
    }

    /** The private keys of an account's logins; refuses a table over the cap. */
    method RecoverySessionKeys(user: Token) returns (keys: set<Token>, failed: Option<Error>)
      ensures failed == (if MAX_SESSIONS < |SessionsOf(State(), user)| then Some(TooManySessions) else None)
      ensures failed.None? ==> keys == SessionsOf(State(), user)
    {
      keys := {};
      var rows := SessionsOf(State(), user);
      while rows != {} && |keys| <= MAX_SESSIONS
        invariant rows !! keys && rows + keys == SessionsOf(State(), user)
        invariant |keys| <= MAX_SESSIONS + 1
        decreases rows
      {
        var key :| key in rows;
        rows, keys := rows - {key}, keys + {key};
      }
      assert |SessionsOf(State(), user)| == |rows| + |keys|;
      failed := if MAX_SESSIONS < |keys| then Some(TooManySessions) else None;
    }

    /** Store a hash, end every login and drop every recovery code of the account. */
    method ReplacePasswordTx(user: Token, hash: Token) returns (keys: set<Token>, failed: Option<Error>)
      modifies this
      ensures var tx := ReplacePassword(old(State()), user, hash);
              && failed == (if tx.Refused? then Some(tx.error) else None)
              && State() == (if tx.Refused? then old(State()) else tx.db)
      ensures failed.None? ==> keys == old(sessions).Keys - sessions.Keys
      ensures old(Valid()) ==> Valid()
    {
      hide AccountInvariant.Valid, LiveAdministrator, EnabledAdmins;
      ghost var was := State();
      if Valid() {
        AccountInvariant.ReplacePasswordKeepsValid(was, user, hash);
      }
      keys, failed := RecoverySessionKeys(user);
      if failed.Some? {
        return;
      }
      if user !in accounts {
        return keys, Some(NotFound);
      }
      accounts := accounts[user := accounts[user].(hash := hash)];
      sessions := map k | k in sessions && sessions[k].user != user :: sessions[k];
      codes := map c | c in codes && codes[c] != user :: codes[c];
    }

    /** Redeem a saved code inside the writer. */
    method RecoverPassword(user: Token, username: string, code: Token, hash: Token)
      returns (keys: set<Token>, failed: Option<Error>)
      modifies this
      ensures var tx := Recover(old(State()), user, username, code, hash);
              && failed == (if tx.Refused? then Some(tx.error) else None)
              && State() == (if tx.Refused? then old(State()) else tx.db)
      ensures failed.None? ==> keys == old(sessions).Keys - sessions.Keys
      ensures old(Valid()) ==> Valid()
    {
      if !Redeemable(State(), user, username, code) {
        return {}, Some(InvalidCode);
      }
      keys, failed := ReplacePasswordTx(user, hash);
    }

    /** Change the caller's own password after it was confirmed outside the writer. */
    method ChangeOwnPassword(actor: Token, user: Token, proof: Token, hash: Token, now: int)
      returns (keys: set<Token>, failed: Option<Error>)
      modifies this
      ensures var tx := ChangeOwn(old(State()), actor, user, proof, hash, now);
              && failed == (if tx.Refused? then Some(tx.error) else None)
              && State() == (if tx.Refused? then old(State()) else tx.db)
      ensures failed.None? ==> keys == old(sessions).Keys - sessions.Keys
      ensures old(Valid()) ==> Valid()
    {
      failed := OwnerError(State(), actor, user, proof, now);
      if failed.Some? {
        return {}, failed;
      }
      keys, failed := ReplacePasswordTx(user, hash);
    }

    /** Delete the old recovery codes and insert the new ones row by row. */
    method ReplaceRecoveryCodes(actor: Token, user: Token, proof: Token, batch: seq<Token>, now: int)
      returns (failed: Option<Error>)
      modifies `codes
      ensures var tx := ReplaceCodes(old(State()), actor, user, proof, batch, now);
              && failed == (if tx.Refused? then Some(tx.error) else None)
              && State() == (if tx.Refused? then old(State()) else tx.db)
      ensures old(Valid()) && |batch| == MAX_CODES && (forall c | c in batch :: c !in old(codes)) ==> Valid()
    {
      hide AccountInvariant.Valid, LiveAdministrator, EnabledAdmins;
      ghost var was := State();
      if Valid() && |batch| == MAX_CODES && forall c | c in batch :: c !in codes {
        AccountInvariant.ReplaceCodesKeepsValid(was, actor, user, proof, batch, now);
      }
      failed := OwnerError(State(), actor, user, proof, now);
      if failed.Some? {
        return;
      }
      codes := map c | c in codes && codes[c] != user :: codes[c];
      ghost var cleared := codes;
      var i := 0;
      while i < |batch|
        invariant 0 <= i <= |batch|
        invariant codes == WithCodes(cleared, batch[..i], user)
      {
        assert batch[..i + 1][..i] == batch[..i];
        codes := codes[batch[i] := user];
        i := i + 1;
      }
      assert batch[..i] == batch;
    }

    /** Enable or disable an account; disabling ends its logins and removes its codes. */
    method SetDisabledTx(actor: Option<Token>, user: Token, disabled: bool, now: int)
      returns (keys: set<Token>, failed: Option<Error>)
      modifies this
      ensures var tx := SetDisabled(old(State()), actor, user, disabled, now);
              && failed == (if tx.Refused? then Some(tx.error) else None)
              && State() == (if tx.Refused? then old(State()) else tx.db)
      ensures failed.None? ==> keys == old(sessions).Keys - sessions.Keys
      ensures old(Valid()) ==> Valid()
    {
      hide AccountInvariant.Valid, LiveAdministrator, EnabledAdmins, ActorError;
      ghost var was, tx := State(), SetDisabled(State(), actor, user, disabled, now);
      assert Valid() && tx.Applied? ==> AccountInvariant.Valid(tx.db) by {
        if Valid() {
          AccountInvariant.SetDisabledKeepsValid(was, actor, user, disabled, now);
        }
      }
      keys, failed := {}, None;
      if actor.Some? && !LiveAdministrator(State(), actor.value, now) {
        return {}, Some(ActorError(State(), actor.value, now));
      }
      if user !in accounts {
        return {}, Some(NotFound);
      }
      if disabled && !accounts[user].disabled && accounts[user].role == "admin" && |EnabledAdmins(State())| <= 1 {
        return {}, Some(LastAdmin);
      }
      if disabled {
        keys, failed := RecoverySessionKeys(user);
        if failed.Some? {
          return;
        }
      }
      accounts := accounts[user := accounts[user].(disabled := disabled)];
      if disabled {
        sessions := map k | k in sessions && sessions[k].user != user :: sessions[k];
        codes := map c | c in codes && codes[c] != user :: codes[c];
      }
    }

    /** Insert a login, then evict the account's oldest others beyond the cap. */
    method NewSessionWithClient(user: Token, proof: Option<Token>, audience: string, key: Token, publicId: Token,
                                created: int, now: int) returns (failed: Option<Error>)
      requires key !in sessions
      modifies `sessions
      ensures var tx := NewSession(old(State()), user, proof, audience, key, publicId, created, now);
              && failed == (if tx.Refused? then Some(tx.error) else None)
              && State() == (if tx.Refused? then old(State()) else tx.db)
      ensures old(Valid()) ==> Valid()
    {
      hide AccountInvariant.Valid, LiveAdministrator, EnabledAdmins;
      ghost var was := State();
      if Valid() {
        AccountInvariant.NewSessionKeepsValid(was, user, proof, audience, key, publicId, created, now);
      }
      var audience := Normalized(audience);
      if audience != "full" && audience != "remote" {
        return Some(InterfaceAccess);
      }
      if user !in accounts {
        return Some(NotFound);
      }
      if accounts[user].disabled {
        return Some(InvalidCredentials);
      }
      if audience == "full" && Normalized(accounts[user].access) != "full" {
        return Some(InterfaceAccess);
      }
      if proof.Some? && proof.value != accounts[user].hash {
        return Some(InvalidCredentials);
      }
      sessions := sessions[key := Login(user, publicId, created, now, now + LIFETIME, audience, accounts[user].hash)];
      var others := SessionsOf(State(), user) - {key};
      sessions := sessions - (others - KeptOf(State(), others, MAX_SESSIONS - 1));
      failed := None;
    }

    /** Record activity, stamped with the time of the earlier read. */
    method RecordActivity(key: Token, seen: int, now: int) returns (failed: Option<Error>)
      modifies `sessions
      ensures var tx := Touch(old(State()), key, seen, now);
              && failed == (if tx.Refused? then Some(tx.error) else None)
              && State() == (if tx.Refused? then old(State()) else tx.db)
      ensures old(Valid()) ==> Valid()
    {
      ghost var was := State();
      if Valid() {
        AccountInvariant.TouchKeepsValid(was, key, seen, now);
      }
      if !Live(State(), key, now) {
        return Some(InvalidSession);
      }
      sessions := sessions[key := sessions[key].(lastSeen := seen)];
      failed := None;
    }

    /** End one of the caller's own logins. */
    method RevokeOwnSession(actor: Token, publicId: Token, now: int) returns (failed: Option<Error>)
      modifies `sessions
      ensures var tx := RevokeOwn(old(State()), actor, publicId, now);
              && failed == (if tx.Refused? then Some(tx.error) else None)
              && State() == (if tx.Refused? then old(State()) else tx.db)
      ensures old(Valid()) ==> Valid()
    {
      ghost var was := State();
      if Valid() {
        AccountInvariant.RevokeOwnReachesOnlyItsOwn(was, actor, publicId, now);
      }
      if !Live(State(), actor, now) {
        return Some(InvalidSession);
      }
      var keys := ManagedKeys(State(), sessions[actor].user, publicId);
      if keys == {} {
        return Some(NotManaged);
      }
      sessions := sessions - keys;
      failed := None;
    }

    /** End the account's other logins. */
    method RevokeOtherSessions(actor: Token, now: int) returns (keys: set<Token>, failed: Option<Error>)
      modifies `sessions
      ensures var tx := RevokeOthers(old(State()), actor, now);
              && failed == (if tx.Refused? then Some(tx.error) else None)
              && State() == (if tx.Refused? then old(State()) else tx.db)
      ensures failed.None? ==> keys == old(sessions).Keys - sessions.Keys
      ensures old(Valid()) ==> Valid()
    {
      ghost var was := State();
      if Valid() {
        AccountInvariant.RevokeOthersLeavesTheCaller(was, actor, now);
      }
      if !Live(State(), actor, now) {
        return {}, Some(InvalidSession);
      }
      keys := SessionsOf(State(), sessions[actor].user) - {actor};
      if |keys| >= MAX_SESSIONS {
        return keys, Some(TooManySessions);
      }
      sessions := sessions - keys;
      failed := None;
    }

    /** Change an account's interface; a real change ends its logins and its grant. */
    method SetInterfaceAccess(actor: Token, user: Token, access: string, now: int)
      returns (keys: set<Token>, failed: Option<Error>)
      modifies this
      ensures var tx := SetAccess(old(State()), actor, user, access, now);
              && failed == (if tx.Refused? then Some(tx.error) else None)
              && State() == (if tx.Refused? then old(State()) else tx.db)
      ensures failed.None? ==> keys == old(sessions).Keys - sessions.Keys
      ensures old(Valid()) ==> Valid()
    {
      hide AccountInvariant.Valid, LiveAdministrator, EnabledAdmins;
      ghost var was := State();
      if Valid() {
        AccountInvariant.SetAccessKeepsValid(was, actor, user, access, now);
      }
      keys, failed := {}, None;
      if access != "full" && access != "remote" {
        return {}, Some(InterfaceAccess);
      }
      if !LiveAdministrator(State(), actor, now) {
        return {}, Some(ActorError(State(), actor, now));
      }
      if user !in accounts {
        return {}, Some(NotFound);
      }
      if access == "remote" && accounts[user].role != "operator" {
        return {}, Some(InterfaceAccess);
      }
      if accounts[user].access == access {
        return;
      }
      keys, failed := RecoverySessionKeys(user);
      if failed.Some? {
        return;
      }
      accounts := accounts[user := accounts[user].(access := access)];
      sessions := map k | k in sessions && sessions[k].user != user :: sessions[k];
      grants := grants - {user};
    }

    /** Replace an operator's permission; the issuer is checked in the same transaction. */
    method GrantControlTx(actor: Option<Token>, administrator: Token, user: Token, id: Token, expires: Option<int>,
                          now: int)
      returns (failed: Option<Error>)
      modifies `grants
      ensures var tx := GrantControl(old(State()), actor, administrator, user, id, expires, now);
              && failed == (if tx.Refused? then Some(tx.error) else None)
              && State() == (if tx.Refused? then old(State()) else tx.db)
      ensures old(Valid()) ==> Valid()
    {
      hide AccountInvariant.Valid, EnabledAdmins;
      ghost var was := State();
      if Valid() {
        AccountInvariant.GrantControlKeepsValid(was, actor, administrator, user, id, expires, now);
      }
      var issuer := administrator;
      if actor.Some? {
        if !LiveAdministrator(State(), actor.value, now) {
          return Some(ActorError(State(), actor.value, now));
        }
        issuer := sessions[actor.value].user;
      }
      if issuer !in EnabledAdmins(State()) || user !in accounts || accounts[user].disabled
          || accounts[user].role != "operator" {
        return Some(GrantRefused);
      }
      grants := grants[user := Grant(id, issuer, expires)];
      failed := None;
    }

    /** Remove a permission, if there is one. */
    method RevokeControlTx(actor: Option<Token>, administrator: Token, user: Token, now: int)
      returns (failed: Option<Error>)
      modifies `grants
      ensures var tx := RevokeControl(old(State()), actor, administrator, user, now);
              && failed == (if tx.Refused? then Some(tx.error) else None)
              && State() == (if tx.Refused? then old(State()) else tx.db)
      ensures old(Valid()) ==> Valid()
    {
      ghost var was := State();
      if Valid() {
        AccountInvariant.ShrinkingKeepsValid(was, was.(grants := was.grants - {user}));
      }
      var issuer := administrator;
      if actor.Some? {
        if !LiveAdministrator(State(), actor.value, now) {
          return Some(ActorError(State(), actor.value, now));
        }
        issuer := sessions[actor.value].user;
      }
      if issuer !in EnabledAdmins(State()) {
        return Some(AdministratorRequired);
      }
      grants := grants - {user};
      failed := None;
    }

    /** Create an account; the emptiness and name checks share the transaction with the insert. */
    method CreateAccount(actor: Option<Token>, bootstrap: bool, id: Token, username: string, role: string,
                         access: string, hash: Token, now: int) returns (failed: Option<Error>)
      modifies `accounts
      ensures var tx := Create(old(State()), actor, bootstrap, id, username, role, access, hash, now);
              && failed == (if tx.Refused? then Some(tx.error) else None)
              && State() == (if tx.Refused? then old(State()) else tx.db)
      ensures old(Valid()) && id !in old(accounts) ==> Valid()
    {
      hide AccountInvariant.Valid, LiveAdministrator, EnabledAdmins;
      ghost var was := State();
      if Valid() && id !in accounts {
        AccountInvariant.CreateKeepsValid(was, actor, bootstrap, id, username, role, access, hash, now);
      }
      var access := Normalized(access);
      if role != "admin" && role != "operator" {
        return Some(InvalidRole);
      }
      if (access != "full" && access != "remote") || (access == "remote" && role != "operator") {
        return Some(InterfaceAccess);
      }
      if actor.Some? && !LiveAdministrator(State(), actor.value, now) {
        return Some(ActorError(State(), actor.value, now));
      }
      if bootstrap && accounts != map[] {
        return Some(AlreadyInitialized);
      }
      if exists a :: a in accounts && accounts[a].username == username {
        return Some(UsernameTaken);
      }
      accounts := accounts[id := Account(username, role, access, false, hash)];
      failed := None;
    }

    /** Remove the caller's recovery codes after a fresh password proof. */
    method RemoveRecoveryCodes(actor: Token, user: Token, proof: Token, now: int) returns (failed: Option<Error>)
      modifies `codes
      ensures var tx := RemoveCodes(old(State()), actor, user, proof, now);
              && failed == (if tx.Refused? then Some(tx.error) else None)
              && State() == (if tx.Refused? then old(State()) else tx.db)
      ensures old(Valid()) ==> Valid()
    {
      ghost var was := State();
      if Valid() {
        AccountInvariant.ShrinkingKeepsValid(was, WithoutCodes(was, user));
      }
      failed := OwnerError(State(), actor, user, proof, now);
      if failed.Some? {
        return;
      }
      codes := map c | c in codes && codes[c] != user :: codes[c];
    }

    /** The first start under a stored policy. */
    method InitializeSessionPolicy(now: int)
      modifies `sessions, `idleMinutes
      ensures State() == AccountInvariant.Initialized(old(State()), now)
      ensures old(AccountInvariant.RowsSound(State()) && (idleMinutes.Some? ==> AccountInvariant.PolicyOk(State()))) ==>
                Valid()
    {
      hide AccountInvariant.RowsSound;
      if idleMinutes.None? {
        AccountInvariant.UpgradeEstablishesValid(State(), now);
      }
      if idleMinutes.Some? {
        return;
      }
      var retired := PruneExpiredSessions(30, now);
      idleMinutes := Some(480);
    }
  }
}
