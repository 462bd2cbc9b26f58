/**
  What every account transaction keeps: who may hold a login, how many, and
  which administrators remain.
 */
module AccountInvariant {
  import opened Options
  import opened SqlOrder
  import opened AccountTables

  /** Roles and interface values are stored explicitly, and an administrator is never remote-only. */
  predicate AccountOk(a: Account) {
    && (a.role == "admin" || a.role == "operator")
    && (a.access == "full" || a.access == "remote")
    && (a.role == "admin" ==> a.access == "full")
  }

  /** A login belongs to an enabled account, to its current password, and to an interface it may use. */
  predicate LoginOk(accounts: map<Token, Account>, s: Login) {
    && s.user in accounts && !accounts[s.user].disabled
    && s.issuedFor == accounts[s.user].hash
    && (s.audience == "full" || s.audience == "remote")
    && (s.audience == "full" ==> accounts[s.user].access == "full")
  }

  predicate OwnerOk(accounts: map<Token, Account>, owner: Token) {
    owner in accounts && !accounts[owner].disabled
  }

  predicate GrantOk(accounts: map<Token, Account>, user: Token, g: Grant) {
    && user in accounts && accounts[user].role == "operator"
    && g.issuedBy in accounts && accounts[g.issuedBy].role == "admin"
  }

  function CodesOf(db: Db, user: Token): (r: set<Token>)
    ensures r <= db.codes.Keys
  {
    set c | c in db.codes && db.codes[c] == user
  }

  predicate AccountsOk(db: Db) {
    && (forall a | a in db.accounts :: AccountOk(db.accounts[a]))
    && (forall a, b | a in db.accounts && b in db.accounts && db.accounts[a].username == db.accounts[b].username ::
          a == b)
  }

  predicate LoginsOk(db: Db) { forall k | k in db.sessions :: LoginOk(db.accounts, db.sessions[k]) }

  predicate OwnersOk(db: Db) { forall c | c in db.codes :: OwnerOk(db.accounts, db.codes[c]) }

  predicate GrantsOk(db: Db) { forall u | u in db.grants :: GrantOk(db.accounts, u, db.grants[u]) }

  ghost predicate Capped(db: Db) {
    && (forall u: Token :: |SessionsOf(db, u)| <= MAX_SESSIONS)
    && (forall u: Token :: |CodesOf(db, u)| <= MAX_CODES)
  }

  predicate PolicyOk(db: Db) { db.idleMinutes.Some? && ValidIdleMinutes(db.idleMinutes.value) }

  /** The invariant of the rows, with or without a stored policy. */
  ghost predicate RowsSound(db: Db) {
    AccountsOk(db) && LoginsOk(db) && OwnersOk(db) && GrantsOk(db) && Capped(db)
  }

  ghost predicate Valid(db: Db) { RowsSound(db) && PolicyOk(db) }

  /** Role and name never change, and no account disappears. */
  predicate SameIdentities(before: Db, after: Db) {
    forall a | a in before.accounts ::
      && a in after.accounts && after.accounts[a].role == before.accounts[a].role
      && after.accounts[a].username == before.accounts[a].username
  }

  predicate Sub<T, U(==)>(small: map<T, U>, large: map<T, U>) {
    forall k | k in small :: k in large && small[k] == large[k]
  }

  /** Rows went away and nothing else changed. */
  predicate Shrunk(before: Db, after: Db) {
    && after.accounts == before.accounts && PolicyOk(after)
    && Sub(after.sessions, before.sessions) && Sub(after.codes, before.codes) && Sub(after.grants, before.grants)
  }

  lemma CapsShrink(before: Db, after: Db)
    requires Capped(before) && Sub(after.sessions, before.sessions) && Sub(after.codes, before.codes)
    ensures Capped(after)
  {
    forall u: Token
      ensures |SessionsOf(after, u)| <= MAX_SESSIONS && |CodesOf(after, u)| <= MAX_CODES
    {
      forall k | k in SessionsOf(after, u) ensures k in SessionsOf(before, u) {}
      forall c | c in CodesOf(after, u) ensures c in CodesOf(before, u) {}
      SubsetSize(SessionsOf(after, u), SessionsOf(before, u));
      SubsetSize(CodesOf(after, u), CodesOf(before, u));
    }
  }

  lemma ShrinkingKeepsValid(before: Db, after: Db)
    requires Valid(before) && Shrunk(before, after)
    ensures Valid(after)
  {
    CapsShrink(before, after);
  }

  /** One account row changed, and the rows that no longer fit it went away. */
  predicate Rewritten(before: Db, after: Db, user: Token, row: Account) {
    && user in before.accounts && AccountOk(row)
    && row.role == before.accounts[user].role && row.username == before.accounts[user].username
    && after.accounts == before.accounts[user := row]
    && after.idleMinutes == before.idleMinutes
    && Sub(after.sessions, before.sessions) && Sub(after.codes, before.codes) && Sub(after.grants, before.grants)
    && (forall k | k in after.sessions :: after.sessions[k].user != user)
    && (row.disabled ==> forall c | c in after.codes :: after.codes[c] != user)
  }

  lemma RewritingKeepsValid(before: Db, after: Db, user: Token, row: Account)
    requires Valid(before) && Rewritten(before, after, user, row)
    ensures Valid(after) && SameIdentities(before, after)
  {
    CapsShrink(before, after);
  }

  // ----- Each transaction -----

  /**
    A password change, reset or recovery never meets the session-limit error and
    leaves the account no login and no code.
   */
  lemma ReplacePasswordKeepsValid(db: Db, user: Token, hash: Token)
    requires Valid(db)
    ensures ReplacePassword(db, user, hash).Refused? <==> user !in db.accounts
    ensures ReplacePassword(db, user, hash).Refused? ==> ReplacePassword(db, user, hash).error == NotFound
    ensures user in db.accounts ==>
              var after := ReplacePassword(db, user, hash).db;
              Rewritten(db, after, user, db.accounts[user].(hash := hash)) && Valid(after) && SameIdentities(db, after)
              && SessionsOf(after, user) == {} && CodesOf(after, user) == {}
  {
    if user in db.accounts {
      var after := ReplacePassword(db, user, hash).db;
      RewritingKeepsValid(db, after, user, db.accounts[user].(hash := hash));
    }
  }

  lemma SetDisabledKeepsValid(db: Db, actor: Option<Token>, user: Token, disabled: bool, now: int)
    requires Valid(db)
    ensures var tx := SetDisabled(db, actor, user, disabled, now);
            && (tx.Refused? ==> tx.error != TooManySessions)
            && (tx.Applied? ==> Valid(tx.db) && SameIdentities(db, tx.db))
            && (tx.Applied? && disabled ==> SessionsOf(tx.db, user) == {} && CodesOf(tx.db, user) == {})
  {
    var tx := SetDisabled(db, actor, user, disabled, now);
    if tx.Applied? {
      RewriteForDisabled(db, tx.db, user, disabled);
    }
  }

  lemma DisabledShape(db: Db, actor: Option<Token>, user: Token, disabled: bool, now: int)
    ensures var tx := SetDisabled(db, actor, user, disabled, now);
            tx.Applied? ==>
              && user in db.accounts
              && var updated := db.(accounts := db.accounts[user := db.accounts[user].(disabled := disabled)]);
                 (tx.db == if disabled then WithoutCodes(WithoutSessions(updated, user), user) else updated)
  {}

  lemma RewriteForDisabled(db: Db, after: Db, user: Token, disabled: bool)
    requires Valid(db) && user in db.accounts
    requires var updated := db.(accounts := db.accounts[user := db.accounts[user].(disabled := disabled)]);
             after == if disabled then WithoutCodes(WithoutSessions(updated, user), user) else updated
    ensures Valid(after) && SameIdentities(db, after)
    ensures disabled ==> SessionsOf(after, user) == {} && CodesOf(after, user) == {}
  {
    if !disabled && !db.accounts[user].disabled {
      assert after == db;
    } else {
      RewritingKeepsValid(db, after, user, db.accounts[user].(disabled := disabled));
    }
  }

  lemma SetAccessKeepsValid(db: Db, actor: Token, user: Token, access: string, now: int)
    requires Valid(db)
    ensures var tx := SetAccess(db, actor, user, access, now);
            && (tx.Refused? ==> tx.error != TooManySessions)
            && (tx.Applied? ==> Valid(tx.db) && SameIdentities(db, tx.db))
            && (tx.Applied? && db.accounts[user].access != access ==>
                  SessionsOf(tx.db, user) == {} && user !in tx.db.grants)
  {
    var tx := SetAccess(db, actor, user, access, now);
    if tx.Applied? && tx.db != db {
      RewritingKeepsValid(db, tx.db, user, db.accounts[user].(access := access));
    }
  }

  lemma CreateKeepsValid(db: Db, actor: Option<Token>, bootstrap: bool, id: Token, username: string, role: string,
                         access: string, hash: Token, now: int)
    requires Valid(db) && id !in db.accounts
    ensures var tx := Create(db, actor, bootstrap, id, username, role, access, hash, now);
            tx.Applied? ==> Valid(tx.db) && SameIdentities(db, tx.db) && tx.db.sessions == db.sessions
  {
    hide Capped, LiveAdministrator, LoginOk, GrantOk;
    var tx := Create(db, actor, bootstrap, id, username, role, access, hash, now);
    if tx.Applied? {
      AccountAdded(db, id, tx.db.accounts[id]);
    }
  }

  lemma AccountAdded(db: Db, id: Token, a: Account)
    requires Valid(db) && id !in db.accounts && AccountOk(a)
    requires forall other | other in db.accounts :: db.accounts[other].username != a.username
    ensures var after := db.(accounts := db.accounts[id := a]); Valid(after) && SameIdentities(db, after)
  {
    var after := db.(accounts := db.accounts[id := a]);
    assert AccountsOk(after) && SameIdentities(db, after) by { hide LoginOk, GrantOk, Capped, AccountOk; }
    assert LoginsOk(after) && OwnersOk(after) && GrantsOk(after) by { hide AccountOk, AccountsOk, Capped; }
    CapsShrink(db, after);
    hide AccountsOk, LoginsOk, OwnersOk, GrantsOk, Capped, SameIdentities;
  }

  lemma GrantControlKeepsValid(db: Db, actor: Option<Token>, administrator: Token, user: Token, id: Token,
                               expires: Option<int>, now: int)
    requires Valid(db)
    ensures var tx := GrantControl(db, actor, administrator, user, id, expires, now);
            tx.Applied? ==> Valid(tx.db) && tx.db == db.(grants := tx.db.grants)
  {
    var tx := GrantControl(db, actor, administrator, user, id, expires, now);
    if tx.Applied? {
      CapsShrink(db, tx.db);
    }
  }

  lemma TouchKeepsValid(db: Db, key: Token, seen: int, now: int)
    requires Valid(db)
    ensures var tx := Touch(db, key, seen, now);
            tx.Applied? ==>
              && Valid(tx.db) && Live(db, key, now) && tx.db == db.(sessions := tx.db.sessions)
              && tx.db.sessions.Keys == db.sessions.Keys && tx.db.sessions[key].lastSeen == seen
              && (forall k | k in db.sessions ::
                    tx.db.sessions[k] ==
                    if k == key then db.sessions[k].(lastSeen := tx.db.sessions[k].lastSeen) else db.sessions[k])
  {
    var tx := Touch(db, key, seen, now);
    if tx.Applied? {
      forall u: Token
        ensures |SessionsOf(tx.db, u)| <= MAX_SESSIONS && |CodesOf(tx.db, u)| <= MAX_CODES
      {
        assert SessionsOf(tx.db, u) == SessionsOf(db, u);
        assert CodesOf(tx.db, u) == CodesOf(db, u);
      }
    }
  }

  lemma ReplaceCodesKeepsValid(db: Db, actor: Token, user: Token, proof: Token, batch: seq<Token>, now: int)
    requires Valid(db) && |batch| == MAX_CODES && forall c | c in batch :: c !in db.codes
    ensures var tx := ReplaceCodes(db, actor, user, proof, batch, now);
            tx.Applied? ==>
              && Valid(tx.db) && tx.db == db.(codes := tx.db.codes)
              && forall c :: c in CodesOf(tx.db, user) <==> c in batch
  {
    var tx := ReplaceCodes(db, actor, user, proof, batch, now);
    if tx.Applied? {
      forall u: Token
        ensures |SessionsOf(tx.db, u)| <= MAX_SESSIONS && |CodesOf(tx.db, u)| <= MAX_CODES
      {
        assert SessionsOf(tx.db, u) == SessionsOf(db, u);
        if u == user {
          BatchSize(batch);
          forall c ensures c in CodesOf(tx.db, u) <==> c in Members(batch) {}
          assert CodesOf(tx.db, u) == Members(batch);
        } else {
          forall c ensures c in CodesOf(tx.db, u) <==> c in CodesOf(db, u) {}
          assert CodesOf(tx.db, u) == CodesOf(db, u);
        }
      }
    }
  }

  function Members(batch: seq<Token>): set<Token> { set c | c in batch }

  lemma {:induction false} BatchSize(batch: seq<Token>)
    ensures |Members(batch)| <= |batch|
  {
    if batch == [] {
      assert Members(batch) == {};
    } else {
      BatchSize(batch[1..]);
      forall c ensures c in Members(batch) <==> c == batch[0] || c in Members(batch[1..]) {}
      assert Members(batch) == {batch[0]} + Members(batch[1..]);
    }
  }

  // ----- Logging in -----

  /** The new login is never the one evicted; of the others exactly the newest nineteen stay. */
  lemma EvictionKeepsNewest(db: Db, user: Token, key: Token)
    requires key in db.sessions && db.sessions[key].user == user
    ensures var after := Evicted(db, user, key);
            && Sub(after.sessions, db.sessions) && after == db.(sessions := after.sessions)
            && key in after.sessions
            && (forall k | k in db.sessions && db.sessions[k].user != user :: k in after.sessions)
            && (forall k, gone |
                  k in SessionsOf(after, user) && k != key && gone in SessionsOf(db, user) && gone !in after.sessions ::
                  Newer(db, k, gone))
            && |SessionsOf(after, user)| ==
                if |SessionsOf(db, user)| <= MAX_SESSIONS then |SessionsOf(db, user)| else MAX_SESSIONS
  {
    var others := SessionsOf(db, user) - {key};
    var kept := KeptOf(db, others, MAX_SESSIONS - 1);
    var after := Evicted(db, user, key);
    forall k ensures k in SessionsOf(after, user) <==> k == key || k in kept {}
    assert SessionsOf(after, user) == {key} + kept;
    assert |SessionsOf(db, user)| == |others| + 1;
  }

  /** A login is issued only to an enabled account, for an interface it may use, under its current password. */
  lemma IssuedLoginIsOk(db: Db, user: Token, proof: Option<Token>, audience: string, key: Token, publicId: Token,
                        created: int, now: int) returns (login: Login)
    requires AccountsOk(db)
    ensures var tx := NewSession(db, user, proof, audience, key, publicId, created, now);
            tx.Applied? ==>
              && tx.db == Evicted(db.(sessions := db.sessions[key := login]), user, key)
              && login.user == user && LoginOk(db.accounts, login) && (proof.Some? ==> login.issuedFor == proof.value)
  {
    hide Evicted, Newer;
    login := Login(user, publicId, created, now, now + LIFETIME, Normalized(audience),
                   if proof.Some? then proof.value else if user in db.accounts then db.accounts[user].hash else 0);
    assert user in db.accounts ==> AccountOk(db.accounts[user]);
  }

  lemma NewSessionKeepsValid(db: Db, user: Token, proof: Option<Token>, audience: string, key: Token, publicId: Token,
                             created: int, now: int)
    requires Valid(db) && key !in db.sessions
    ensures var tx := NewSession(db, user, proof, audience, key, publicId, created, now);
            tx.Applied? ==>
              && Valid(tx.db) && tx.db == db.(sessions := tx.db.sessions)
              && key in tx.db.sessions && tx.db.sessions[key].user == user
              && Sub(tx.db.sessions - {key}, db.sessions)
              && (proof.Some? ==> tx.db.sessions[key].issuedFor == proof.value)
  {
    hide NewSession, Evicted, Capped, SessionsOf, CodesOf, Newer, LoginOk, AccountOk;
    var login := IssuedLoginIsOk(db, user, proof, audience, key, publicId, created, now);
    var tx := NewSession(db, user, proof, audience, key, publicId, created, now);
    if tx.Applied? {
      var inserted := db.(sessions := db.sessions[key := login]);
      EvictionKeepsNewest(inserted, user, key);
      CapsAfterLogin(db, inserted, tx.db, user, key);
      LoginAdded(db, login, tx.db, key);
    }
  }

  lemma LoginAdded(db: Db, login: Login, after: Db, key: Token)
    requires LoginsOk(db) && LoginOk(db.accounts, login)
    requires Sub(after.sessions, db.sessions[key := login]) && after == db.(sessions := after.sessions)
    ensures LoginsOk(after) && Sub(after.sessions - {key}, db.sessions)
  {
    forall k | k in after.sessions ensures LoginOk(after.accounts, after.sessions[k]) {
      assert after.sessions[k] == if k == key then login else db.sessions[k];
    }
  }

  lemma CapsAfterLogin(db: Db, inserted: Db, after: Db, user: Token, key: Token)
    requires Capped(db) && key !in db.sessions && key in inserted.sessions && inserted.sessions[key].user == user
    requires inserted == db.(sessions := db.sessions[key := inserted.sessions[key]])
    requires Sub(after.sessions, inserted.sessions) && after == inserted.(sessions := after.sessions)
    requires |SessionsOf(after, user)| <= MAX_SESSIONS
    ensures Capped(after)
  {
    forall u: Token
      ensures |SessionsOf(after, u)| <= MAX_SESSIONS && |CodesOf(after, u)| <= MAX_CODES
    {
      assert CodesOf(after, u) == CodesOf(db, u);
      if u != user {
        forall k | k in SessionsOf(after, u) ensures k in SessionsOf(db, u) {}
        SubsetSize(SessionsOf(after, u), SessionsOf(db, u));
      }
    }
  }

  // ----- Ending logins -----

  lemma SetPolicyKeepsValid(db: Db, actor: Token, minutes: int, now: int)
    requires Valid(db)
    ensures var tx := SetPolicy(db, actor, minutes, now);
            tx.Applied? ==>
              && Valid(tx.db) && tx.db == db.(sessions := tx.db.sessions, idleMinutes := Some(minutes))
              && Sub(tx.db.sessions, db.sessions)
              && (forall k | k in db.sessions ::
                    k in tx.db.sessions <==>
                        TimesValid(db.sessions[k], db.idleMinutes, now)
                        && TimesValid(db.sessions[k], Some(minutes), now))
  {
    var tx := SetPolicy(db, actor, minutes, now);
    if tx.Applied? {
      ShrinkingKeepsValid(db, tx.db);
    }
  }

  lemma RevokingKeepsValid(db: Db, gone: set<Token>)
    requires Valid(db)
    ensures Valid(db.(sessions := db.sessions - gone))
  {
    ShrinkingKeepsValid(db, db.(sessions := db.sessions - gone));
  }

  /** Ending the account's other logins never meets its session-limit error. */
  lemma RevokeOthersLeavesTheCaller(db: Db, actor: Token, now: int)
    requires Valid(db)
    ensures var tx := RevokeOthers(db, actor, now);
            && (tx.Applied? <==> Live(db, actor, now))
            && (tx.Applied? ==>
                  && Valid(tx.db) && SessionsOf(tx.db, db.sessions[actor].user) == {actor}
                  && forall k | k in db.sessions && db.sessions[k].user != db.sessions[actor].user ::
                      k in tx.db.sessions)
  {
    if Live(db, actor, now) {
      var user := db.sessions[actor].user;
      var others := SessionsOf(db, user) - {actor};
      assert |SessionsOf(db, user)| <= MAX_SESSIONS;
      assert |others| == |SessionsOf(db, user)| - 1;
      RevokingKeepsValid(db, others);
    }
  }

  /** A caller can end only logins of its own account, and only the one it names. */
  lemma RevokeOwnReachesOnlyItsOwn(db: Db, actor: Token, publicId: Token, now: int)
    requires Valid(db)
    ensures var tx := RevokeOwn(db, actor, publicId, now);
            && (tx.Applied? ==>
                  && Live(db, actor, now) && Valid(tx.db) && tx.db == db.(sessions := tx.db.sessions)
                  && (forall k | k in db.sessions ::
                        k in tx.db.sessions <==>
                            db.sessions[k].user != db.sessions[actor].user || db.sessions[k].publicId != publicId)
                  && exists k :: k in db.sessions && k !in tx.db.sessions)
            && (Live(db, actor, now) && tx.Refused? ==>
                  forall k | k in db.sessions && db.sessions[k].publicId == publicId ::
                      db.sessions[k].user != db.sessions[actor].user)
  {
    if Live(db, actor, now) {
      var keys := ManagedKeys(db, db.sessions[actor].user, publicId);
      RevokingKeepsValid(db, keys);
      if keys != {} {
        var k := SomeMember(keys);
        assert k in db.sessions && k !in RevokeOwn(db, actor, publicId, now).db.sessions;
      } else {
        forall k | k in db.sessions && db.sessions[k].publicId == publicId
          ensures db.sessions[k].user != db.sessions[actor].user
        {
          assert k !in keys;
        }
      }
    }
  }

  // ----- Administrators -----

  /** Whatever a transaction does to the accounts, an enabled administrator is left. */
  lemma DisablingLeavesAnAdministrator(db: Db, actor: Option<Token>, user: Token, disabled: bool, now: int)
    requires EnabledAdmins(db) != {}
    ensures var tx := SetDisabled(db, actor, user, disabled, now); tx.Applied? ==> EnabledAdmins(tx.db) != {}
  {
    var tx := SetDisabled(db, actor, user, disabled, now);
    if tx.Applied? {
      var any := SomeMember(EnabledAdmins(db));
      if user in EnabledAdmins(db) && disabled {
        assert |EnabledAdmins(db)| > 1;
        if EnabledAdmins(db) - {user} == {} {
          SubsetSize(EnabledAdmins(db), {user});
          assert false;
        }
        var other := SomeMember(EnabledAdmins(db) - {user});
        assert other in EnabledAdmins(tx.db);
      } else {
        assert any in EnabledAdmins(tx.db);
      }
    }
  }

  /** The first start under a stored policy: logins already past the old thirty minutes go, the rest get eight hours. */
  function Initialized(db: Db, now: int): Db {
    if db.idleMinutes.Some? then db else PruneExpired(db, 30, now).(idleMinutes := Some(480))
  }

  /** An upgrade revives nothing: a login is live afterwards exactly if it was valid under the old thirty minutes. */
  lemma UpgradeRevivesNothing(db: Db, key: Token, now: int)
    requires db.idleMinutes.None?
    ensures Live(Initialized(db, now), key, now) <==> Live(db.(idleMinutes := Some(30)), key, now)
    ensures key in Initialized(db, now).sessions <==> key in db.sessions && TimesValid(db.sessions[key], Some(30), now)
  {}

  /**
    The first start establishes the invariant exactly if the rows it leaves are
    sound, which they are whenever the rows it found were.
   */
  lemma UpgradeEstablishesValid(db: Db, now: int)
    requires db.idleMinutes.None?
    ensures Valid(Initialized(db, now)) <==> RowsSound(PruneExpired(db, 30, now))
    ensures RowsSound(db) ==> Valid(Initialized(db, now))
  {
    var left := PruneExpired(db, 30, now);
    var next := Initialized(db, now);
    hide PruneExpired;
    forall u: Token
      ensures SessionsOf(next, u) == SessionsOf(left, u) && CodesOf(next, u) == CodesOf(left, u)
    {
    }
    if RowsSound(db) {
      PruningKeepsSound(db, 30, now);
    }
  }

  lemma PruningKeepsSound(db: Db, minutes: int, now: int)
    requires RowsSound(db)
    ensures RowsSound(PruneExpired(db, minutes, now))
  {
    var left := PruneExpired(db, minutes, now);
    CapsShrink(db, left);
  }

  /** Accounts and logins from before interfaces existed keep the full application. */
  function WithInterfaces(db: Db): Db {
    db.(accounts := map a | a in db.accounts :: db.accounts[a].(access := "full"),
        sessions := map k | k in db.sessions :: db.sessions[k].(audience := "full"))
  }

  /** Rows sound but for their missing interface values are sound with them. */
  lemma InterfacesMigrateSound(db: Db)
    requires forall a | a in db.accounts :: db.accounts[a].role == "admin" || db.accounts[a].role == "operator"
    requires forall a, b | a in db.accounts && b in db.accounts && db.accounts[a].username == db.accounts[b].username ::
               a == b
    requires forall k | k in db.sessions ::
               && OwnerOk(db.accounts, db.sessions[k].user)
               && db.sessions[k].issuedFor == db.accounts[db.sessions[k].user].hash
    requires OwnersOk(db) && GrantsOk(db) && Capped(db)
    ensures RowsSound(WithInterfaces(db))
  {
    var next := WithInterfaces(db);
    forall u: Token
      ensures SessionsOf(next, u) == SessionsOf(db, u) && CodesOf(next, u) == CodesOf(db, u)
    {
    }
  }
}
