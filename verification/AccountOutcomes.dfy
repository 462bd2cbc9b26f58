/**
  When each account request succeeds and what it stores, with the times in
  nanoseconds and the limits as numbers.
 */
module AccountOutcomes {
  import opened Options
  import opened SqlOrder
  import opened AccountTables
  import opened AccountInvariant

  /** The login's account may use it now: neither limit has passed. */
  lemma LiveExactly(db: Db, key: Token, now: int)
    ensures Live(db, key, now) <==>
            && key in db.sessions && db.sessions[key].user in db.accounts
            && !db.accounts[db.sessions[key].user].disabled
            && now < db.sessions[key].expires
            && (db.idleMinutes == Some(0)
                || exists m :: (m == 30 || m == 60 || m == 120 || m == 240 || m == 480) && db.idleMinutes == Some(m)
                               && now - db.sessions[key].lastSeen <= m * 60000000000)
  {}

  lemma AdministratorExactly(db: Db, key: Token, now: int)
    ensures LiveAdministrator(db, key, now) <==>
            && Live(db, key, now) && db.sessions[key].audience == "full"
            && db.accounts[db.sessions[key].user].access == "full" && db.accounts[db.sessions[key].user].role == "admin"
  {
    hide TimesValid;
  }

  // ----- Logging in -----

  /** Who may log in, and the login stored for them: twelve hours from now. */
  lemma LoginSucceedsExactly(db: Db, user: Token, proof: Option<Token>, audience: string, key: Token, publicId: Token,
                             created: int, now: int)
    ensures var tx := NewSession(db, user, proof, audience, key, publicId, created, now);
            && (tx.Applied? <==>
                  && user in db.accounts && !db.accounts[user].disabled
                  && (audience == "remote"
                      || ((audience == "full" || audience == "")
                          && (db.accounts[user].access == "full" || db.accounts[user].access == "")))
                  && (proof.Some? ==> proof.value == db.accounts[user].hash))
            && (tx.Applied? ==>
                  && key in tx.db.sessions
                  && tx.db.sessions[key] == Login(user, publicId, created, now, now + 43200000000000,
                                                  if audience == "remote" then "remote" else "full",
                                                  db.accounts[user].hash)
                  && (forall k | k in tx.db.sessions && k != key ::
                        k in db.sessions && tx.db.sessions[k] == db.sessions[k])
                  && tx.db == db.(sessions := tx.db.sessions))
  {
    var tx := NewSession(db, user, proof, audience, key, publicId, created, now);
    if tx.Applied? {
      var login := Login(user, publicId, created, now, now + LIFETIME, Normalized(audience), db.accounts[user].hash);
      EvictionKeepsNewest(db.(sessions := db.sessions[key := login]), user, key);
    }
    hide Evicted, SessionsOf, Newer;
  }

  /** An issued login is live from now on until twelve hours have passed, or the idle minutes of the policy have. */
  lemma IssuedLoginLives(db: Db, user: Token, proof: Option<Token>, audience: string, key: Token, publicId: Token,
                         created: int, now: int, later: int)
    requires Valid(db) && NewSession(db, user, proof, audience, key, publicId, created, now).Applied? && now <= later
    ensures Live(NewSession(db, user, proof, audience, key, publicId, created, now).db, key, later) <==>
            && later < now + 43200000000000
            && (db.idleMinutes == Some(0) || later - now <= db.idleMinutes.value * 60000000000)
  {
    LoginSucceedsExactly(db, user, proof, audience, key, publicId, created, now);
    hide NewSession, RowsSound;
  }

  /**
    An account keeps at most twenty logins: the new one and the nineteen newest
    others, by creation and then by key.
   */
  lemma LoginKeepsTwenty(db: Db, user: Token, proof: Option<Token>, audience: string, key: Token, publicId: Token,
                         created: int, now: int)
    requires key !in db.sessions && NewSession(db, user, proof, audience, key, publicId, created, now).Applied?
    ensures var after := NewSession(db, user, proof, audience, key, publicId, created, now).db;
            && |SessionsOf(after, user)| == (if |SessionsOf(db, user)| < 20 then |SessionsOf(db, user)| + 1 else 20)
            && (forall k | k in db.sessions && db.sessions[k].user != user :: k in after.sessions)
            && (forall k, gone |
                  k in db.sessions && gone in db.sessions && db.sessions[k].user == db.sessions[gone].user == user
                  && k in after.sessions && gone !in after.sessions ::
                  || db.sessions[k].created > db.sessions[gone].created
                  || (db.sessions[k].created == db.sessions[gone].created && k > gone))
  {
    var login := Login(user, publicId, created, now, now + LIFETIME, Normalized(audience), db.accounts[user].hash);
    var with := db.(sessions := db.sessions[key := login]);
    assert NewSession(db, user, proof, audience, key, publicId, created, now) == Applied(Evicted(with, user, key));
    hide NewSession, Evicted, SessionsOf, Newer;
    EvictionKeepsNewest(with, user, key);
    TwentyKept(db, with, Evicted(with, user, key), user, key);
  }

  lemma TwentyKept(db: Db, with: Db, after: Db, user: Token, key: Token)
    requires key !in db.sessions && key in with.sessions && with.sessions[key].user == user
    requires with == db.(sessions := db.sessions[key := with.sessions[key]]) && Sub(after.sessions, with.sessions)
    requires forall k | k in with.sessions && with.sessions[k].user != user :: k in after.sessions
    requires forall k, gone |
               k in SessionsOf(after, user) && k != key && gone in SessionsOf(with, user) && gone !in after.sessions ::
               Newer(with, k, gone)
    requires |SessionsOf(after, user)| ==
             if |SessionsOf(with, user)| <= 20 then |SessionsOf(with, user)| else 20
    ensures |SessionsOf(after, user)| == (if |SessionsOf(db, user)| < 20 then |SessionsOf(db, user)| + 1 else 20)
    ensures forall k | k in db.sessions && db.sessions[k].user != user :: k in after.sessions
    ensures forall k, gone |
              k in db.sessions && gone in db.sessions && db.sessions[k].user == db.sessions[gone].user == user
              && k in after.sessions && gone !in after.sessions ::
              || db.sessions[k].created > db.sessions[gone].created
              || (db.sessions[k].created == db.sessions[gone].created && k > gone)
  {
    assert SessionsOf(with, user) == SessionsOf(db, user) + {key};
    forall k, gone | k in db.sessions && gone in db.sessions && db.sessions[k].user == db.sessions[gone].user == user
      && k in after.sessions && gone !in after.sessions
      ensures db.sessions[k].created > db.sessions[gone].created
              || (db.sessions[k].created == db.sessions[gone].created && k > gone)
    {
      assert k in SessionsOf(after, user) && gone in SessionsOf(with, user);
      assert Newer(with, k, gone);
    }
  }

  /** The limits every valid store keeps. */
  lemma ValidStoreIsCapped(db: Db, user: Token)
    requires Valid(db)
    ensures |SessionsOf(db, user)| <= 20 && |CodesOf(db, user)| <= 8
  {}

  /** Activity is recorded exactly for a login that is still live. */
  lemma TouchSucceedsExactly(db: Db, key: Token, seen: int, now: int)
    ensures Touch(db, key, seen, now).Applied? <==> Live(db, key, now)
    ensures Live(db, key, now) ==>
              Touch(db, key, seen, now).db == db.(sessions := db.sessions[key := db.sessions[key].(lastSeen := seen)])
  {
    hide TimesValid;
  }

  /** Logging out ends that login and nothing else. */
  lemma RevokeIsExact(db: Db, key: Token)
    ensures var after := Revoke(db, key);
            && after == db.(sessions := after.sessions)
            && (forall k :: k in after.sessions <==> k in db.sessions && k != key)
            && (forall k | k in after.sessions :: after.sessions[k] == db.sessions[k])
  {}

  /** The policy changes exactly for a live administrator, to one of six limits. */
  lemma PolicyChangesExactly(db: Db, actor: Token, minutes: int, now: int)
    ensures SetPolicy(db, actor, minutes, now).Applied? <==>
            LiveAdministrator(db, actor, now)
            && (minutes == 0 || minutes == 30 || minutes == 60 || minutes == 120 || minutes == 240 || minutes == 480)
    ensures SetPolicy(db, actor, minutes, now).Applied? ==>
              var after := SetPolicy(db, actor, minutes, now).db;
              after == db.(sessions := after.sessions, idleMinutes := Some(minutes))
  {
    hide RowsSound, Expired;
  }

  // ----- Passwords and codes -----

  /** The account keeps its place under the new hash; its logins and codes are gone, everyone else's stay. */
  ghost predicate Replaced(db: Db, after: Db, user: Token, hash: Token)
    requires user in db.accounts
  {
    && after.accounts == db.accounts[user := db.accounts[user].(hash := hash)]
    && (forall k :: k in after.sessions <==> k in db.sessions && db.sessions[k].user != user)
    && (forall k | k in after.sessions :: after.sessions[k] == db.sessions[k])
    && (forall c :: c in after.codes <==> c in db.codes && db.codes[c] != user)
    && (forall c | c in after.codes :: after.codes[c] == db.codes[c])
    && after.grants == db.grants && after.idleMinutes == db.idleMinutes
  }

  lemma ReplaceSucceedsExactly(db: Db, user: Token, hash: Token)
    requires Valid(db)
    ensures ReplacePassword(db, user, hash).Applied? <==> user in db.accounts
    ensures user in db.accounts ==> Replaced(db, ReplacePassword(db, user, hash).db, user, hash)
  {
    assert |SessionsOf(db, user)| <= MAX_SESSIONS;
    hide RowsSound, SessionsOf;
  }

  /** The caller is live as this account, and the password it proved is still the current one. */
  predicate Confirmed(db: Db, actor: Token, user: Token, proof: Token, now: int) {
    && Live(db, actor, now) && db.sessions[actor].user == user && db.accounts[user].hash == proof
  }

  lemma OwnerChecked(db: Db, actor: Token, user: Token, proof: Token, now: int)
    ensures OwnerError(db, actor, user, proof, now).None? <==> Confirmed(db, actor, user, proof, now)
  {
    hide TimesValid;
  }

  /** Who may replace a password: its confirmed owner, a live administrator, or whoever holds one of its codes. */
  lemma PasswordChangesExactly(db: Db, actor: Token, user: Token, proof: Token, username: string, code: Token,
                               hash: Token, now: int)
    requires Valid(db)
    ensures ChangeOwn(db, actor, user, proof, hash, now).Applied? <==> Confirmed(db, actor, user, proof, now)
    ensures ResetFor(db, actor, user, hash, now).Applied? <==>
            LiveAdministrator(db, actor, now) && user in db.accounts
    ensures Recover(db, user, username, code, hash).Applied? <==>
            && user in db.accounts && !db.accounts[user].disabled && db.accounts[user].username == username
            && code in db.codes && db.codes[code] == user
    ensures forall tx |
              tx == ChangeOwn(db, actor, user, proof, hash, now) || tx == ResetFor(db, actor, user, hash, now)
              || tx == Recover(db, user, username, code, hash) ::
              tx.Applied? ==> user in db.accounts && Replaced(db, tx.db, user, hash)
  {
    ReplaceSucceedsExactly(db, user, hash);
    OwnerChecked(db, actor, user, proof, now);
    hide ReplacePassword, Replaced, OwnerError, LiveAdministrator, RowsSound, TimesValid;
  }

  /** A confirmed owner replaces its codes by the new ones, or removes them; nobody else's change. */
  lemma CodesChangeExactly(db: Db, actor: Token, user: Token, proof: Token, batch: seq<Token>, now: int)
    ensures ReplaceCodes(db, actor, user, proof, batch, now).Applied? <==> Confirmed(db, actor, user, proof, now)
    ensures RemoveCodes(db, actor, user, proof, now).Applied? <==> Confirmed(db, actor, user, proof, now)
    ensures Confirmed(db, actor, user, proof, now) ==>
              var replaced, removed := ReplaceCodes(db, actor, user, proof, batch, now).db,
                                       RemoveCodes(db, actor, user, proof, now).db;
              && replaced == db.(codes := replaced.codes) && removed == db.(codes := removed.codes)
              && (forall c :: c in removed.codes <==> c in db.codes && db.codes[c] != user)
              && (forall c :: c in replaced.codes <==> c in batch || (c in db.codes && db.codes[c] != user))
              && (forall c | c in removed.codes :: removed.codes[c] == db.codes[c])
              && (forall c | c in replaced.codes :: replaced.codes[c] == if c in batch then user else db.codes[c])
  {
    OwnerChecked(db, actor, user, proof, now);
    hide OwnerError, Confirmed;
  }

  // ----- Administration -----

  /** A request made through a login needs it to be a live administrator's; the program itself needs none. */
  predicate Authorized(db: Db, actor: Option<Token>, now: int) {
    actor.Some? ==> LiveAdministrator(db, actor.value, now)
  }

  /** Disabling is refused only for a missing account and for the one administrator left; it ends logins and codes. */
  lemma DisablingSucceedsExactly(db: Db, actor: Option<Token>, user: Token, disabled: bool, now: int)
    requires Valid(db)
    ensures SetDisabled(db, actor, user, disabled, now).Applied? <==>
            && Authorized(db, actor, now) && user in db.accounts
            && (disabled && user in EnabledAdmins(db) ==> exists other :: other in EnabledAdmins(db) && other != user)
    ensures SetDisabled(db, actor, user, disabled, now).Applied? ==>
              var after := SetDisabled(db, actor, user, disabled, now).db;
              && after.accounts == db.accounts[user := db.accounts[user].(disabled := disabled)]
              && (forall k :: k in after.sessions <==> k in db.sessions && !(disabled && db.sessions[k].user == user))
              && (forall c :: c in after.codes <==> c in db.codes && !(disabled && db.codes[c] == user))
              && (forall k | k in after.sessions :: after.sessions[k] == db.sessions[k])
              && (forall c | c in after.codes :: after.codes[c] == db.codes[c])
              && after.grants == db.grants && after.idleMinutes == db.idleMinutes
  {
    assert |SessionsOf(db, user)| <= MAX_SESSIONS;
    var admins := EnabledAdmins(db);
    if user in admins {
      if |admins| <= 1 {
        SubsetSize({user}, admins);
        assert admins == {user};
      } else {
        assert admins - {user} != {};
        var other := SomeMember(admins - {user});
      }
    }
    assert user in admins <==> user in db.accounts && db.accounts[user].role == "admin" && !db.accounts[user].disabled;
    hide RowsSound, SessionsOf, EnabledAdmins, LiveAdministrator;
  }

  lemma EnabledAdministrators(db: Db, a: Token)
    ensures a in EnabledAdmins(db) <==>
              a in db.accounts && db.accounts[a].role == "admin" && db.accounts[a].disabled == false
  {}

  /** An account is created exactly with a known role, an interface that role may have and a name nobody has. */
  lemma CreationSucceedsExactly(db: Db, actor: Option<Token>, bootstrap: bool, id: Token, username: string,
                                role: string, access: string, hash: Token, now: int)
    ensures Create(db, actor, bootstrap, id, username, role, access, hash, now).Applied? <==>
            && Authorized(db, actor, now)
            && (role == "operator" || role == "admin")
            && (access == "full" || access == "" || (access == "remote" && role == "operator"))
            && (bootstrap ==> |db.accounts| == 0)
            && (forall a | a in db.accounts :: db.accounts[a].username != username)
    ensures Create(db, actor, bootstrap, id, username, role, access, hash, now).Applied? ==>
              Create(db, actor, bootstrap, id, username, role, access, hash, now).db ==
              db.(accounts :=
                  db.accounts[id := Account(username, role, if access == "" then "full" else access, false, hash)])
  {
    hide LiveAdministrator;
  }

  /** Access changes exactly for a live administrator, remote only for operators; a change ends logins and the grant. */
  lemma AccessChangesExactly(db: Db, actor: Token, user: Token, access: string, now: int)
    requires Valid(db)
    ensures SetAccess(db, actor, user, access, now).Applied? <==>
            && LiveAdministrator(db, actor, now) && user in db.accounts
            && (access == "full" || (access == "remote" && db.accounts[user].role == "operator"))
    ensures SetAccess(db, actor, user, access, now).Applied? ==>
              var after := SetAccess(db, actor, user, access, now).db;
              if db.accounts[user].access == access then after == db
              else
                && after.accounts == db.accounts[user := db.accounts[user].(access := access)]
                && (forall k :: k in after.sessions <==> k in db.sessions && db.sessions[k].user != user)
                && (forall k | k in after.sessions :: after.sessions[k] == db.sessions[k])
                && after.grants == db.grants - {user} && after.codes == db.codes && after.idleMinutes == db.idleMinutes
  {
    assert |SessionsOf(db, user)| <= MAX_SESSIONS;
    if user in db.accounts {
      assert AccountOk(db.accounts[user]);
    }
    hide RowsSound, SessionsOf, LiveAdministrator;
  }

  /** Control is granted exactly to an enabled operator, in the name of an enabled administrator. */
  lemma GrantSucceedsExactly(db: Db, actor: Option<Token>, administrator: Token, user: Token, id: Token,
                             expires: Option<int>, now: int)
    ensures var tx := GrantControl(db, actor, administrator, user, id, expires, now);
            var issuer := if actor.Some? && actor.value in db.sessions then db.sessions[actor.value].user
                else administrator;
            && (tx.Applied? <==>
                  && Authorized(db, actor, now) && issuer in EnabledAdmins(db)
                  && user in db.accounts && !db.accounts[user].disabled && db.accounts[user].role == "operator")
            && (tx.Applied? ==> tx.db == db.(grants := db.grants[user := Grant(id, issuer, expires)]))
  {
    hide EnabledAdmins, TimesValid;
  }

  /** Control is revoked exactly in the name of an enabled administrator, whether or not there was a grant. */
  lemma RevocationSucceedsExactly(db: Db, actor: Option<Token>, administrator: Token, user: Token, now: int)
    ensures var tx := RevokeControl(db, actor, administrator, user, now);
            var issuer := if actor.Some? && actor.value in db.sessions then db.sessions[actor.value].user
                else administrator;
            && (tx.Applied? <==> Authorized(db, actor, now) && issuer in EnabledAdmins(db))
            && (tx.Applied? ==> tx.db == db.(grants := db.grants - {user}))
  {
    hide EnabledAdmins, TimesValid;
  }
}
