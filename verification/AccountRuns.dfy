/**
  Every interleaving of account requests. A password is checked against a
  stored hash outside the writer; the transaction that uses the proof comes
  any number of steps later. Fresh tokens come from a counter.
 */
module AccountRuns {
  import opened Options
  import opened SqlOrder
  import opened AccountTables
  import opened AccountInvariant

  type Password = string

  /** A password that matched the hash read for an account. */
  datatype Proof = Proof(user: Token, hash: Token, password: Password)

  /**
    `secrets` is the password behind every hash ever stored, `typed` the
    password each password login was opened with, `redeemed` the recovery
    codes accepted so far, in order.
   */
  datatype World = World(db: Db, clock: int, next: Token, secrets: map<Token, Password>, proofs: set<Proof>,
                         typed: map<Token, Password>, redeemed: seq<Token>)

  datatype Event =
    | TimePasses(to: int)
    | PasswordChecked(user: Token, password: Password)
    | LoggedIn(proof: Proof, audience: string, created: int, at: int)
    | SessionOpened(user: Token, audience: string, created: int, at: int)
    | Touched(key: Token, seen: int)
    | LoggedOut(key: Token)
    | OwnLoginEnded(actor: Token, publicId: Token)
    | OtherLoginsEnded(actor: Token)
    | PolicySet(actor: Token, minutes: int)
    | PasswordChanged(actor: Token, proof: Proof, password: Password)
    | PasswordReset(actor: Token, user: Token, password: Password)
    | PasswordSet(user: Token, password: Password)
    | PasswordRecovered(user: Token, username: string, code: Token, password: Password)
    | CodesReplaced(actor: Token, proof: Proof)
    | CodesRemoved(actor: Token, proof: Proof)
    | DisabledSet(through: Option<Token>, user: Token, disabled: bool)
    | AccountCreated(through: Option<Token>, bootstrap: bool, username: string, role: string, access: string,
                     password: Password)
    | AccessSet(actor: Token, user: Token, access: string)
    | ControlGranted(through: Option<Token>, administrator: Token, user: Token, expires: Option<int>)
    | ControlRevoked(through: Option<Token>, administrator: Token, user: Token)

  /** What can happen: time never goes back, a proof was really obtained, and a captured time is a past one. */
  predicate Enabled(w: World, e: Event) {
    match e
    case TimePasses(to) => w.clock <= to
    case PasswordChecked(user, password) =>
      && user in w.db.accounts && !w.db.accounts[user].disabled
      && w.db.accounts[user].hash in w.secrets && w.secrets[w.db.accounts[user].hash] == password
    case LoggedIn(proof, _, _, at) => proof in w.proofs && at <= w.clock
    case SessionOpened(_, _, _, at) => at <= w.clock
    case Touched(_, seen) => seen <= w.clock
    case PasswordChanged(_, proof, _) => proof in w.proofs
    case CodesReplaced(_, proof) => proof in w.proofs
    case CodesRemoved(_, proof) => proof in w.proofs
    case _ => true
  }

  function Batch(first: Token): (r: seq<Token>)
    ensures |r| == MAX_CODES && forall i | 0 <= i < MAX_CODES :: r[i] == first + i
  {
    seq(MAX_CODES, i requires 0 <= i => first + i)
  }

  /** The transaction an event runs; `n` is the first unused token. */
  function Commit(db: Db, e: Event, now: int, n: Token): Tx {
    match e
    case TimePasses(_) => Applied(db)
    case PasswordChecked(_, _) => Applied(db)
    case LoggedIn(proof, audience, created, at) =>
      NewSession(db, proof.user, Some(proof.hash), audience, n, n, created, at)
    case SessionOpened(user, audience, created, at) => NewSession(db, user, None, audience, n, n, created, at)
    case Touched(key, seen) => Touch(db, key, seen, now)
    case LoggedOut(key) => Applied(Revoke(db, key))
    case OwnLoginEnded(actor, publicId) => RevokeOwn(db, actor, publicId, now)
    case OtherLoginsEnded(actor) => RevokeOthers(db, actor, now)
    case PolicySet(actor, minutes) => SetPolicy(db, actor, minutes, now)
    case PasswordChanged(actor, proof, _) => ChangeOwn(db, actor, proof.user, proof.hash, n, now)
    case PasswordReset(actor, user, _) => ResetFor(db, actor, user, n, now)
    case PasswordSet(user, _) => ReplacePassword(db, user, n)
    case PasswordRecovered(user, username, code, _) => Recover(db, user, username, code, n)
    case CodesReplaced(actor, proof) => ReplaceCodes(db, actor, proof.user, proof.hash, Batch(n), now)
    case CodesRemoved(actor, proof) => RemoveCodes(db, actor, proof.user, proof.hash, now)
    case DisabledSet(actor, user, disabled) => SetDisabled(db, actor, user, disabled, now)
    case AccountCreated(actor, bootstrap, username, role, access, _) =>
      Create(db, actor, bootstrap, n, username, role, access, n + 1, now)
    case AccessSet(actor, user, access) => SetAccess(db, actor, user, access, now)
    case ControlGranted(actor, administrator, user, expires) =>
      GrantControl(db, actor, administrator, user, n, expires, now)
    case ControlRevoked(actor, administrator, user) => RevokeControl(db, actor, administrator, user, now)
  }

  /** The hash an event stores, and the password behind it. */
  function NewSecret(e: Event, n: Token): map<Token, Password> {
    match e
    case PasswordChanged(_, _, password) => map[n := password]
    case PasswordReset(_, _, password) => map[n := password]
    case PasswordSet(_, password) => map[n := password]
    case PasswordRecovered(_, _, _, password) => map[n := password]
    case AccountCreated(_, _, _, _, _, password) => map[n + 1 := password]
    case _ => map[]
  }

  function Step(w: World, e: Event): World
    requires Enabled(w, e)
  {
    var tx := Commit(w.db, e, w.clock, w.next);
    if tx.Refused? then w.(next := w.next + 8)
    else
      World(tx.db, if e.TimePasses? then e.to else w.clock, w.next + 8, w.secrets + NewSecret(e, w.next),
            if e.PasswordChecked? then w.proofs + {Proof(e.user, w.db.accounts[e.user].hash, e.password)} else w.proofs,
            if e.LoggedIn? then w.typed[w.next := e.proof.password] else w.typed,
            if e.PasswordRecovered? then w.redeemed + [e.code] else w.redeemed)
  }

  /** A run skips what cannot happen. */
  function Run(w: World, events: seq<Event>): World
    decreases |events|
  {
    if events == [] then w
    else Run(if Enabled(w, events[0]) then Step(w, events[0]) else w, events[1..])
  }

  // ----- The invariant -----

  predicate Issued(db: Db, next: Token) {
    && (forall a | a in db.accounts :: a < next && db.accounts[a].hash < next)
    && (forall k | k in db.sessions :: k < next)
    && (forall c | c in db.codes :: c < next)
  }

  predicate ProofsMatch(w: World) {
    forall p | p in w.proofs :: p.hash in w.secrets && w.secrets[p.hash] == p.password && p.hash < w.next
  }

  predicate HashesKnown(w: World) {
    && (forall a | a in w.db.accounts :: w.db.accounts[a].hash in w.secrets)
    && (forall h | h in w.secrets :: h < w.next)
  }

  /** Every password login still stored was opened with the account's current password. */
  predicate TypedCurrent(w: World) {
    && (forall k | k in w.typed :: k < w.next)
    && (forall k | k in w.db.sessions && k in w.typed ::
          && w.db.sessions[k].user in w.db.accounts
          && w.db.accounts[w.db.sessions[k].user].hash in w.secrets
          && w.typed[k] == w.secrets[w.db.accounts[w.db.sessions[k].user].hash])
  }

  /** An accepted recovery code is spent: gone from the table, and listed once. */
  predicate CodesSpent(w: World) {
    && (forall i | 0 <= i < |w.redeemed| :: w.redeemed[i] < w.next && w.redeemed[i] !in w.db.codes)
    && (forall i, j | 0 <= i < j < |w.redeemed| :: w.redeemed[i] != w.redeemed[j])
  }

  ghost predicate Inv(w: World) {
    Valid(w.db) && Issued(w.db, w.next) && ProofsMatch(w) && HashesKnown(w) && TypedCurrent(w) && CodesSpent(w)
  }

  predicate Empty(w: World) {
    && w.db.accounts == map[] && w.db.sessions == map[] && w.db.codes == map[] && w.db.grants == map[]
    && w.db.idleMinutes == Some(480)
    && w.secrets == map[] && w.proofs == {} && w.typed == map[] && w.redeemed == []
  }

  lemma EmptyIsInv(w: World)
    requires Empty(w)
    ensures Inv(w)
  {
    forall u: Token
      ensures |SessionsOf(w.db, u)| <= MAX_SESSIONS && |CodesOf(w.db, u)| <= MAX_CODES
    {
      assert SessionsOf(w.db, u) == {} && CodesOf(w.db, u) == {};
    }
  }

  /** The first start of an upgraded store: its rows were sound, and every stored hash has a password behind it. */
  ghost predicate Upgraded(w: World, db: Db, now: int) {
    && db.idleMinutes.None? && RowsSound(db) && w.db == Initialized(db, now)
    && Issued(db, w.next)
    && (forall a | a in db.accounts :: db.accounts[a].hash in w.secrets)
    && (forall h | h in w.secrets :: h < w.next)
    && w.proofs == {} && w.typed == map[] && w.redeemed == []
  }

  lemma UpgradedIsInv(w: World, db: Db, now: int)
    requires Upgraded(w, db, now)
    ensures Inv(w)
  {
    UpgradeEstablishesValid(db, now);
    hide Valid, RowsSound;
  }

  // ----- One committed transaction -----

  /** The rows a transaction leaves, compared with the rows it found; `n` is the first token it may issue. */
  ghost predicate Kept(before: Db, after: Db, n: Token, now: int) {
    && SameIdentities(before, after)
    && (forall a | a in after.accounts && a !in before.accounts :: a == n)
    && (forall a | a in after.accounts && a in before.accounts && after.accounts[a].hash != before.accounts[a].hash ::
          forall k | k in after.sessions :: after.sessions[k].user != a)
    && (forall k | k in after.sessions && k in before.sessions :: after.sessions[k].user == before.sessions[k].user)
    && (forall k | k in after.sessions && k !in before.sessions :: k == n)
    && (forall c | c in after.codes && c !in before.codes :: n <= c < n + 8)
    && (forall k | k in after.sessions && k in before.sessions :: Live(after, k, now) ==> Live(before, k, now))
  }

  lemma ShrunkIsKept(before: Db, after: Db, n: Token, now: int)
    requires Valid(before) && Shrunk(before, after) && after.idleMinutes == before.idleMinutes
    ensures Valid(after) && Kept(before, after, n, now)
  {
    ShrinkingKeepsValid(before, after);
  }

  lemma RewrittenIsKept(before: Db, after: Db, user: Token, row: Account, n: Token, now: int)
    requires Valid(before) && Rewritten(before, after, user, row)
    ensures Valid(after) && Kept(before, after, n, now)
  {
    RewritingKeepsValid(before, after, user, row);
  }

  lemma OpenedIsKept(before: Db, after: Db, n: Token, now: int)
    requires Issued(before, n)
    requires after == before.(sessions := after.sessions) && Sub(after.sessions - {n}, before.sessions)
    ensures Kept(before, after, n, now)
  {
    forall k | k in after.sessions && k in before.sessions
      ensures after.sessions[k] == before.sessions[k]
    {
      assert k in after.sessions - {n};
    }
    forall k | k in after.sessions ensures k != n ==> k in before.sessions {
      assert k != n ==> k in after.sessions - {n};
    }
  }

  lemma NewSessionIsKept(db: Db, user: Token, proof: Option<Token>, audience: string, n: Token, created: int, at: int,
                         now: int)
    requires Valid(db) && Issued(db, n)
    ensures var tx := NewSession(db, user, proof, audience, n, n, created, at);
            tx.Applied? ==>
              && Valid(tx.db) && Kept(db, tx.db, n, now) && tx.db == db.(sessions := tx.db.sessions)
              && (proof.Some? && n in tx.db.sessions ==>
                    tx.db.sessions[n].user == user && user in db.accounts && db.accounts[user].hash == proof.value)
  {
    hide NewSession, Kept, Capped, SessionsOf, CodesOf;
    NewSessionKeepsValid(db, user, proof, audience, n, n, created, at);
    var tx := NewSession(db, user, proof, audience, n, n, created, at);
    if tx.Applied? {
      OpenedIsKept(db, tx.db, n, now);
      assert LoginOk(tx.db.accounts, tx.db.sessions[n]);
    }
  }

  lemma TouchIsKept(db: Db, key: Token, seen: int, n: Token, now: int)
    requires Valid(db)
    ensures var tx := Touch(db, key, seen, now); tx.Applied? ==>
              Valid(tx.db) && Kept(db, tx.db, n, now) && tx.db.codes == db.codes
  {
    TouchKeepsValid(db, key, seen, now);
  }

  lemma PolicyIsKept(db: Db, actor: Token, minutes: int, n: Token, now: int)
    requires Valid(db)
    ensures var tx := SetPolicy(db, actor, minutes, now); tx.Applied? ==> Valid(tx.db) && Kept(db, tx.db, n, now)
  {
    SetPolicyKeepsValid(db, actor, minutes, now);
  }

  lemma DisabledIsKept(db: Db, actor: Option<Token>, user: Token, disabled: bool, n: Token, now: int)
    requires Valid(db)
    ensures var tx := SetDisabled(db, actor, user, disabled, now); tx.Applied? ==>
              Valid(tx.db) && Kept(db, tx.db, n, now)
  {
    hide SetDisabled, Kept, Capped;
    DisabledShape(db, actor, user, disabled, now);
    var tx := SetDisabled(db, actor, user, disabled, now);
    if tx.Applied? {
      if disabled || db.accounts[user].disabled {
        RewrittenIsKept(db, tx.db, user, db.accounts[user].(disabled := disabled), n, now);
      } else {
        assert tx.db == db;
        ShrunkIsKept(db, db, n, now);
      }
    }
  }

  lemma AccessIsKept(db: Db, actor: Token, user: Token, access: string, n: Token, now: int)
    requires Valid(db)
    ensures var tx := SetAccess(db, actor, user, access, now); tx.Applied? ==> Valid(tx.db) && Kept(db, tx.db, n, now)
  {
    var tx := SetAccess(db, actor, user, access, now);
    if tx.Applied? && tx.db != db {
      RewrittenIsKept(db, tx.db, user, db.accounts[user].(access := access), n, now);
    }
  }

  lemma ReplacedPasswordIsKept(db: Db, user: Token, hash: Token, n: Token, now: int)
    requires Valid(db)
    ensures var tx := ReplacePassword(db, user, hash);
            tx.Applied? ==>
              && Valid(tx.db) && Kept(db, tx.db, n, now) && user in db.accounts
              && tx.db.accounts == db.accounts[user := db.accounts[user].(hash := hash)]
              && CodesOf(tx.db, user) == {} && Sub(tx.db.codes, db.codes)
  {
    ReplacePasswordKeepsValid(db, user, hash);
    if user in db.accounts {
      RewrittenIsKept(db, ReplacePassword(db, user, hash).db, user, db.accounts[user].(hash := hash), n, now);
    }
  }

  lemma AddedIsKept(before: Db, row: Account, n: Token, now: int)
    requires Valid(before) && Issued(before, n)
    ensures Kept(before, before.(accounts := before.accounts[n := row]), n, now)
  {
    var after := before.(accounts := before.accounts[n := row]);
    forall k | k in after.sessions && Live(after, k, now)
      ensures Live(before, k, now)
    {
      assert LoginOk(before.accounts, before.sessions[k]);
    }
  }

  lemma CreatedIsKept(db: Db, actor: Option<Token>, bootstrap: bool, username: string, role: string, access: string,
                      n: Token, now: int)
    requires Valid(db) && Issued(db, n)
    ensures var tx := Create(db, actor, bootstrap, n, username, role, access, n + 1, now);
            tx.Applied? ==>
              && Valid(tx.db) && Kept(db, tx.db, n, now)
              && tx.db == db.(accounts := tx.db.accounts) && tx.db.accounts.Keys == db.accounts.Keys + {n}
              && tx.db.accounts[n].hash == n + 1
              && forall a | a in db.accounts :: tx.db.accounts[a] == db.accounts[a]
  {
    hide Kept, Valid;
    assert n !in db.accounts;
    CreateKeepsValid(db, actor, bootstrap, n, username, role, access, n + 1, now);
    var tx := Create(db, actor, bootstrap, n, username, role, access, n + 1, now);
    if tx.Applied? {
      AddedIsKept(db, tx.db.accounts[n], n, now);
    }
  }

  lemma CodesReplacedIsKept(db: Db, actor: Token, user: Token, proof: Token, n: Token, now: int)
    requires Valid(db) && Issued(db, n)
    ensures var tx := ReplaceCodes(db, actor, user, proof, Batch(n), now);
            tx.Applied? ==> Valid(tx.db) && Kept(db, tx.db, n, now) && forall c | c in tx.db.codes :: c < n + 8
  {
    ReplaceCodesKeepsValid(db, actor, user, proof, Batch(n), now);
  }

  /** Every hash is an old one or the one this event stores. */
  predicate HashesFrom(before: Db, after: Db, e: Event, n: Token) {
    forall a | a in after.accounts ::
      || after.accounts[a].hash in NewSecret(e, n)
      || (a in before.accounts && after.accounts[a].hash == before.accounts[a].hash)
  }

  predicate SetsPassword(e: Event) {
    e.PasswordChanged? || e.PasswordReset? || e.PasswordSet? || e.PasswordRecovered?
  }

  function Holder(e: Event): Token
    requires SetsPassword(e)
  {
    if e.PasswordChanged? then e.proof.user else e.user
  }

  lemma PasswordEventsReplace(db: Db, e: Event, now: int, n: Token)
    requires SetsPassword(e)
    ensures Commit(db, e, now, n).Applied? ==> Commit(db, e, now, n) == ReplacePassword(db, Holder(e), n)
    ensures n in NewSecret(e, n)
    ensures Commit(db, e, now, n).Applied? && e.PasswordRecovered? ==> e.code in db.codes && db.codes[e.code] == e.user
  {
    hide ReplacePassword, Live;
  }

  lemma PasswordEventsAreKept(db: Db, e: Event, now: int, n: Token)
    requires SetsPassword(e) && Valid(db)
    ensures var tx := Commit(db, e, now, n);
            && (tx.Applied? ==> Valid(tx.db) && Kept(db, tx.db, n, now) && HashesFrom(db, tx.db, e, n))
            && (tx.Applied? && e.PasswordRecovered? ==> e.code in db.codes && e.code !in tx.db.codes)
  {
    hide Commit, ReplacePassword, Kept, Valid, CodesOf, NewSecret;
    PasswordEventsReplace(db, e, now, n);
    ReplacedPasswordIsKept(db, Holder(e), n, n, now);
    if Commit(db, e, now, n).Applied? && e.PasswordRecovered? {
      CodesGone(db, Commit(db, e, now, n).db, e.user, e.code);
    }
  }

  lemma CodesGone(before: Db, after: Db, user: Token, code: Token)
    requires code in before.codes && before.codes[code] == user
    requires Sub(after.codes, before.codes) && CodesOf(after, user) == {}
    ensures code !in after.codes
  {
    assert code in after.codes ==> code in CodesOf(after, user);
  }

  predicate Shrinks(e: Event) {
    e.LoggedOut? || e.OwnLoginEnded? || e.OtherLoginsEnded? || e.CodesRemoved? || e.ControlRevoked?
  }

  lemma ShrinkingEventsShrink(db: Db, e: Event, now: int, n: Token)
    requires Shrinks(e) && PolicyOk(db)
    ensures var tx := Commit(db, e, now, n); tx.Applied? ==> Shrunk(db, tx.db) && tx.db.idleMinutes == db.idleMinutes
  {
    hide Live, LiveAdministrator, EnabledAdmins, ProofHolds;
    if e.CodesRemoved? {
      hide SessionsOf, ManagedKeys;
    } else {
      hide WithoutCodes;
    }
  }

  lemma ShrinkingEventsAreKept(db: Db, e: Event, now: int, n: Token)
    requires Shrinks(e) && Valid(db)
    ensures var tx := Commit(db, e, now, n);
            tx.Applied? ==> Valid(tx.db) && Kept(db, tx.db, n, now) && HashesFrom(db, tx.db, e, n)
  {
    ShrinkingEventsShrink(db, e, now, n);
    hide Commit, Kept, Capped, LoginsOk, OwnersOk, GrantsOk, AccountsOk, NewSecret;
    var tx := Commit(db, e, now, n);
    if tx.Applied? {
      ShrunkIsKept(db, tx.db, n, now);
    }
  }

  lemma OtherEventsAreKept(db: Db, e: Event, now: int, n: Token)
    requires e.PolicySet? || e.CodesReplaced? || e.DisabledSet? || e.AccountCreated? || e.AccessSet?
             || e.ControlGranted?
    requires Valid(db) && Issued(db, n)
    ensures var tx := Commit(db, e, now, n);
            tx.Applied? ==> Valid(tx.db) && Kept(db, tx.db, n, now) && HashesFrom(db, tx.db, e, n)
  {
    hide Valid, Kept;
    if e.PolicySet? {
      PolicyIsKept(db, e.actor, e.minutes, n, now);
    } else if e.CodesReplaced? {
      CodesReplacedIsKept(db, e.actor, e.proof.user, e.proof.hash, n, now);
    } else if e.DisabledSet? {
      DisabledIsKept(db, e.through, e.user, e.disabled, n, now);
    } else if e.AccountCreated? {
      CreatedIsKept(db, e.through, e.bootstrap, e.username, e.role, e.access, n, now);
    } else if e.AccessSet? {
      AccessIsKept(db, e.actor, e.user, e.access, n, now);
    } else {
      GrantIsKept(db, e, now, n);
    }
  }

  lemma GrantIsKept(db: Db, e: Event, now: int, n: Token)
    requires e.ControlGranted? && Valid(db)
    ensures var tx := Commit(db, e, now, n);
            tx.Applied? ==> Valid(tx.db) && Kept(db, tx.db, n, now) && tx.db.accounts == db.accounts
  {
    GrantControlKeepsValid(db, e.through, e.administrator, e.user, n, e.expires, now);
  }

  /** Every transaction, whoever asks and in whatever state. */
  lemma CommitIsKept(db: Db, e: Event, now: int, n: Token)
    requires Valid(db) && Issued(db, n)
    ensures var tx := Commit(db, e, now, n);
            tx.Applied? ==> Valid(tx.db) && Kept(db, tx.db, n, now) && HashesFrom(db, tx.db, e, n)
  {
    if SetsPassword(e) {
      PasswordEventsAreKept(db, e, now, n);
    } else if Shrinks(e) {
      ShrinkingEventsAreKept(db, e, now, n);
    } else if e.PolicySet? || e.CodesReplaced? || e.DisabledSet? || e.AccountCreated? || e.AccessSet?
        || e.ControlGranted? {
      OtherEventsAreKept(db, e, now, n);
    } else if e.LoggedIn? {
      hide Valid, Kept, Issued, NewSession;
      NewSessionIsKept(db, e.proof.user, Some(e.proof.hash), e.audience, n, e.created, e.at, now);
    } else if e.SessionOpened? {
      hide Valid, Kept, Issued, NewSession;
      NewSessionIsKept(db, e.user, None, e.audience, n, e.created, e.at, now);
    } else if e.Touched? {
      TouchIsKept(db, e.key, e.seen, n, now);
    } else {
      ShrunkIsKept(db, db, n, now);
    }
  }

  // ----- The step -----

  lemma IssuedAfter(before: Db, after: Db, e: Event, n: Token, now: int)
    requires Issued(before, n) && Kept(before, after, n, now) && HashesFrom(before, after, e, n)
    ensures Issued(after, n + 8)
  {}

  lemma TypedAfter(w: World, e: Event)
    requires Enabled(w, e) && Inv(w) && Commit(w.db, e, w.clock, w.next).Applied?
    requires Kept(w.db, Step(w, e).db, w.next, w.clock) && HashesFrom(w.db, Step(w, e).db, e, w.next)
             && Valid(Step(w, e).db)
    ensures TypedCurrent(Step(w, e)) && HashesKnown(Step(w, e)) && ProofsMatch(Step(w, e))
  {
    var after := Step(w, e);
    if e.LoggedIn? {
      NewSessionIsKept(w.db, e.proof.user, Some(e.proof.hash), e.audience, w.next, e.created, e.at, w.clock);
    }
    assert forall h | h in NewSecret(e, w.next) :: w.next <= h < w.next + 8;
    hide Commit, Capped, NewSecret, Kept, HashesFrom, TypedCurrent, HashesKnown, ProofsMatch, CodesSpent, Issued,
         LoginsOk;
    TypedFacts(w, e, after);
  }

  lemma TypedFacts(w: World, e: Event, after: World)
    requires LoginsOk(w.db) && Issued(w.db, w.next) && ProofsMatch(w) && HashesKnown(w) && TypedCurrent(w)
             && Enabled(w, e)
    requires Kept(w.db, after.db, w.next, w.clock) && HashesFrom(w.db, after.db, e, w.next) && LoginsOk(after.db)
    requires forall h | h in NewSecret(e, w.next) :: w.next <= h < w.next + 8
    requires after.secrets == w.secrets + NewSecret(e, w.next) && after.next == w.next + 8
    requires after.proofs ==
               if e.PasswordChecked? then w.proofs + {Proof(e.user, w.db.accounts[e.user].hash, e.password)}
               else w.proofs
    requires after.typed == if e.LoggedIn? then w.typed[w.next := e.proof.password] else w.typed
    requires e.LoggedIn? && w.next in after.db.sessions ==>
               && after.db.accounts == w.db.accounts
               && after.db.sessions[w.next].user == e.proof.user && e.proof.user in w.db.accounts
               && w.db.accounts[e.proof.user].hash == e.proof.hash
    ensures TypedCurrent(after) && HashesKnown(after) && ProofsMatch(after)
  {
    hide Live, SameIdentities, NewSecret;
    forall k | k in after.db.sessions && k in after.typed
      ensures && after.db.sessions[k].user in after.db.accounts
              && after.db.accounts[after.db.sessions[k].user].hash in after.secrets
              && after.typed[k] == after.secrets[after.db.accounts[after.db.sessions[k].user].hash]
    {
      var user := after.db.sessions[k].user;
      if k in w.db.sessions {
        assert w.db.sessions[k].user == user;
        assert after.db.accounts[user].hash == w.db.accounts[user].hash;
        assert k in w.typed;
      } else {
        assert k == w.next;
      }
    }
  }

  lemma SpentAfter(w: World, e: Event)
    requires Enabled(w, e) && Inv(w) && Commit(w.db, e, w.clock, w.next).Applied?
    requires Kept(w.db, Step(w, e).db, w.next, w.clock)
    ensures CodesSpent(Step(w, e))
  {
    if e.PasswordRecovered? {
      PasswordEventsAreKept(w.db, e, w.clock, w.next);
    }
    hide Commit, Valid, Capped, LoginsOk, TypedCurrent, HashesKnown, ProofsMatch, Live, NewSecret;
    SpentFacts(w, e, Step(w, e));
  }

  lemma SpentFacts(w: World, e: Event, after: World)
    requires CodesSpent(w) && after.next == w.next + 8 && forall c | c in w.db.codes :: c < w.next
    requires forall c | c in after.db.codes && c !in w.db.codes :: w.next <= c
    requires after.redeemed == if e.PasswordRecovered? then w.redeemed + [e.code] else w.redeemed
    requires e.PasswordRecovered? ==> e.code in w.db.codes && e.code !in after.db.codes
    ensures CodesSpent(after)
  {}

  lemma StepKeepsInv(w: World, e: Event)
    requires Enabled(w, e) && Inv(w)
    ensures Inv(Step(w, e))
    ensures w.next <= Step(w, e).next
  {
    var after := Step(w, e);
    CommitIsKept(w.db, e, w.clock, w.next);
    if Commit(w.db, e, w.clock, w.next).Applied? {
      TypedAfter(w, e);
      SpentAfter(w, e);
      hide Commit, Valid, Kept, TypedCurrent, HashesKnown, ProofsMatch, CodesSpent;
      IssuedAfter(w.db, after.db, e, w.next, w.clock);
    }
  }

  lemma StepRevivesNothing(w: World, e: Event, key: Token)
    requires Enabled(w, e) && Inv(w) && key < w.next
    requires !Live(w.db, key, w.clock)
    ensures !Live(Step(w, e).db, key, Step(w, e).clock)
  {
    CommitIsKept(w.db, e, w.clock, w.next);
    hide Commit;
    var after := Step(w, e);
    assert Live(after.db, key, w.clock) ==> key in w.db.sessions;
    assert !Live(after.db, key, w.clock);
    Outlived(after.db, key, w.clock, after.clock);
  }

  lemma Outlived(db: Db, key: Token, earlier: int, later: int)
    requires !Live(db, key, earlier) && earlier <= later
    ensures !Live(db, key, later)
  {}

  // ----- Whole runs -----

  lemma {:induction false} RunKeepsInv(w: World, events: seq<Event>)
    requires Inv(w)
    ensures Inv(Run(w, events))
    ensures w.next <= Run(w, events).next
    decreases |events|
  {
    hide Inv;
    if events != [] {
      if Enabled(w, events[0]) {
        StepKeepsInv(w, events[0]);
        RunKeepsInv(Step(w, events[0]), events[1..]);
      } else {
        RunKeepsInv(w, events[1..]);
      }
    }
  }

  /**
    A login that has ended, expired or was shut out by disabling is never valid
    again, whatever happens afterwards: policy changes in either direction, late
    activity, the account enabled again, new logins.
   */
  lemma {:induction false} NeverValidAgain(w: World, events: seq<Event>, key: Token)
    requires Inv(w) && key < w.next && !Live(w.db, key, w.clock)
    ensures !Live(Run(w, events).db, key, Run(w, events).clock)
    decreases |events|
  {
    hide Inv, Live, Step;
    if events != [] {
      if Enabled(w, events[0]) {
        StepKeepsInv(w, events[0]);
        StepRevivesNothing(w, events[0], key);
        NeverValidAgain(Step(w, events[0]), events[1..], key);
      } else {
        NeverValidAgain(w, events[1..], key);
      }
    }
  }

  /** In every reachable state a stored password login was opened with the account's current password. */
  lemma LoginsMatchTheCurrentPassword(w: World, events: seq<Event>, key: Token)
    requires Inv(w) && key in Run(w, events).db.sessions
    ensures var end := Run(w, events);
            var s := end.db.sessions[key];
            && s.user in end.db.accounts && s.issuedFor == end.db.accounts[s.user].hash
            && (key in end.typed ==> s.issuedFor in end.secrets && end.typed[key] == end.secrets[s.issuedFor])
  {
    RunKeepsInv(w, events);
    var end := Run(w, events);
    assert LoginOk(end.db.accounts, end.db.sessions[key]);
  }

  /** Of any number of attempts to redeem one recovery code, at most one succeeds. */
  lemma RedeemedOnce(w: World, events: seq<Event>, i: nat, j: nat)
    requires Inv(w) && i < |Run(w, events).redeemed| && j < |Run(w, events).redeemed|
    requires Run(w, events).redeemed[i] == Run(w, events).redeemed[j]
    ensures i == j
  {
    RunKeepsInv(w, events);
  }

  // ----- What no request can do -----

  /** The session-limit errors are never returned: no account exceeds the cap. */
  lemma SessionLimitErrorIsUnreachable(w: World, events: seq<Event>, e: Event)
    requires Inv(w)
    ensures var end := Run(w, events); Commit(end.db, e, end.clock, end.next) != Refused(TooManySessions)
  {
    RunKeepsInv(w, events);
    var end := Run(w, events);
    hide Run;
    NoOverflow(end.db, e, end.clock, end.next);
  }

  lemma NoOverflow(db: Db, e: Event, now: int, n: Token)
    requires Valid(db)
    ensures Commit(db, e, now, n) != Refused(TooManySessions)
  {
    hide ReplacePassword, Valid, Live, Evicted, PruneExpired, EnabledAdmins, SessionsOf, LiveAdministrator,
         WithoutSessions, WithoutCodes;
    if SetsPassword(e) {
      ReplacePasswordKeepsValid(db, Holder(e), n);
    } else if e.OtherLoginsEnded? {
      RevokeOthersLeavesTheCaller(db, e.actor, now);
    } else if e.DisabledSet? {
      SetDisabledKeepsValid(db, e.through, e.user, e.disabled, now);
    } else if e.AccessSet? {
      SetAccessKeepsValid(db, e.actor, e.user, e.access, now);
    }
  }

  lemma OthersDisableNobody(db: Db, e: Event, now: int, n: Token)
    requires !e.DisabledSet? && n !in db.accounts
    ensures var tx := Commit(db, e, now, n);
            tx.Applied? ==> forall a | a in db.accounts ::
              && a in tx.db.accounts && tx.db.accounts[a].disabled == db.accounts[a].disabled
              && tx.db.accounts[a].role == db.accounts[a].role
  {
    if SetsPassword(e) {
      PasswordEventsReplace(db, e, now, n);
      hide Commit;
    } else {
      hide Live, EnabledAdmins, SessionsOf, TimesValid;
    }
  }

  lemma StepKeepsAnAdministrator(w: World, e: Event)
    requires Enabled(w, e) && Inv(w) && EnabledAdmins(w.db) != {}
    ensures EnabledAdmins(Step(w, e).db) != {}
  {
    var tx := Commit(w.db, e, w.clock, w.next);
    if tx.Applied? {
      if e.DisabledSet? {
        DisablingLeavesAnAdministrator(w.db, e.through, e.user, e.disabled, w.clock);
      } else {
        assert w.next !in w.db.accounts;
        OthersDisableNobody(w.db, e, w.clock, w.next);
        hide Commit;
        var any := SomeMember(EnabledAdmins(w.db));
        assert any in EnabledAdmins(tx.db);
      }
    }
  }

  /** Once there is an enabled administrator, there always is one. */
  lemma {:induction false} AnAdministratorRemains(w: World, events: seq<Event>)
    requires Inv(w) && EnabledAdmins(w.db) != {}
    ensures EnabledAdmins(Run(w, events).db) != {}
    decreases |events|
  {
    hide Inv, EnabledAdmins, Step;
    if events != [] {
      if Enabled(w, events[0]) {
        StepKeepsInv(w, events[0]);
        StepKeepsAnAdministrator(w, events[0]);
        AnAdministratorRemains(Step(w, events[0]), events[1..]);
      } else {
        AnAdministratorRemains(w, events[1..]);
      }
    }
  }
}
