/**
  The two independent checks that admit a login to motion control: a decision
  inside a write transaction, and the session value resolved for a request.
 */
module ControlAdmission {
  import opened Options
  import opened AccountTables
  import opened AccountInvariant

  /** What resolving a login tells the caller. */
  datatype View = View(audience: string, access: string, role: string, disabled: bool, grant: Option<Grant>)

  // ----- The session value resolved for a request -----

  /** A permanent or unexpired permission from an enabled administrator, looked up as the session value is built. */
  function ControlGrant(db: Db, user: Token, now: int): Option<Grant> {
    if user !in db.grants then None
    else
      var g := db.grants[user];
      if g.issuedBy !in db.accounts || db.accounts[g.issuedBy].disabled || db.accounts[g.issuedBy].role != "admin"
          then None
      else if g.expires.Some? && !(now < g.expires.value) then None
      else Some(g)
  }

  /**
    Read the login joined with its account, then check the times and the
    account; an administrator's grant is never loaded.
   */
  function Resolve(db: Db, key: Token, now: int): Option<View> {
    if key !in db.sessions || db.sessions[key].user !in db.accounts || db.idleMinutes.None? then None
    else
      var s := db.sessions[key];
      var a := db.accounts[s.user];
      if !TimesValid(s, db.idleMinutes, now) || a.disabled then None
      else Some(View(s.audience, a.access, a.role, a.disabled,
                     if a.role == "admin" then None else ControlGrant(db, s.user, now)))
  }

  predicate CanUseRemote(v: View, now: int) {
    && !v.disabled
    && (|| v.role == "admin"
        || (v.role == "operator" && v.grant.Some?
            && (v.grant.value.expires.None? || now < v.grant.value.expires.value)))
  }

  predicate CanControl(v: View, now: int) {
    Normalized(v.audience) == "full" && Normalized(v.access) == "full" && CanUseRemote(v, now)
  }

  // ----- The decision inside a write transaction -----

  /** The owner of a login of an enabled account, if its times hold. */
  function LiveOwner(db: Db, key: Token, now: int): Option<Token> {
    if key in db.sessions && db.sessions[key].user in EnabledAccounts(db)
        && TimesValid(db.sessions[key], db.idleMinutes, now)
    then Some(db.sessions[key].user) else None
  }

  function EnabledAccounts(db: Db): set<Token> { set a | a in db.accounts && !db.accounts[a].disabled }

  /** The expiry of a grant joined with an enabled administrator; absent when there is no such row. */
  function IssuedExpiry(db: Db, user: Token): Option<Option<int>> {
    if user in db.grants && db.grants[user].issuedBy in EnabledAdmins(db) then Some(db.grants[user].expires) else None
  }

  function RequireControl(db: Db, key: Token, now: int): Option<Error> {
    var owner := LiveOwner(db, key, now);
    if owner.None? then Some(InvalidSession)
    else
      var a := db.accounts[owner.value];
      if a.access != "full" || db.sessions[key].audience != "full" then Some(ControlRequired)
      else if a.role == "admin" then None
      else
        var expiry := IssuedExpiry(db, owner.value);
        if expiry.None? then Some(ControlRequired)
        else if expiry.value.None? then None
        else if now < expiry.value.value then None
        else Some(ControlRequired)
  }

  /** Both readings of a login agree on when it is live. */
  lemma LivenessAgrees(db: Db, key: Token, now: int)
    ensures Resolve(db, key, now).Some? <==> LiveOwner(db, key, now).Some?
    ensures LiveOwner(db, key, now).Some? <==> Live(db, key, now)
  {}

  predicate Admitted(db: Db, key: Token, now: int) {
    Resolve(db, key, now).Some? && CanControl(Resolve(db, key, now).value, now)
  }

  /** Both checks normalise to the same interface: full. */
  predicate FullInterface(db: Db, key: Token)
    requires key in db.sessions && db.sessions[key].user in db.accounts
  {
    Normalized(db.accounts[db.sessions[key].user].access) == "full" && Normalized(db.sessions[key].audience) == "full"
  }

  /** Control is backed by a permission in force at this instant. */
  predicate Permitted(db: Db, key: Token, now: int)
    requires key in db.sessions && db.sessions[key].user in db.accounts
  {
    var s := db.sessions[key];
    db.accounts[s.user].role == "admin" || ControlGrant(db, s.user, now).Some?
  }

  predicate Blank(db: Db, key: Token)
    requires key in db.sessions && db.sessions[key].user in db.accounts
  {
    db.accounts[db.sessions[key].user].access == "" || db.sessions[key].audience == ""
  }

  predicate UnknownRole(db: Db, key: Token)
    requires key in db.sessions && db.sessions[key].user in db.accounts
  {
    db.accounts[db.sessions[key].user].role != "admin" && db.accounts[db.sessions[key].user].role != "operator"
  }

  /** Both grant lookups find the same permission in force. */
  lemma GrantsAgree(db: Db, user: Token, now: int)
    ensures ControlGrant(db, user, now).Some? <==>
            IssuedExpiry(db, user).Some?
                && (IssuedExpiry(db, user).value.None? || now < IssuedExpiry(db, user).value.value)
  {}

  /**
    Over arbitrary rows the two checks disagree exactly on a live, permitted,
    full-interface login with a blank interface value or an unknown role, but
    not both.
   */
  lemma ChecksAgreeExactly(db: Db, key: Token, now: int)
    ensures RequireControl(db, key, now).None? == Admitted(db, key, now) <==>
            !(Live(db, key, now) && FullInterface(db, key) && Permitted(db, key, now)
              && Blank(db, key) != UnknownRole(db, key))
  {
    LivenessAgrees(db, key, now);
    if Live(db, key, now) {
      GrantsAgree(db, db.sessions[key].user, now);
    }
  }

  /** In every state the transactions can reach, both checks give one answer at one instant. */
  lemma ChecksAgree(db: Db, key: Token, now: int)
    requires Valid(db)
    ensures RequireControl(db, key, now).None? <==> Admitted(db, key, now)
  {
    ChecksAgreeExactly(db, key, now);
    if Live(db, key, now) {
      assert LoginOk(db.accounts, db.sessions[key]);
      assert AccountOk(db.accounts[db.sessions[key].user]);
    }
  }

  /** What admission means: a live full-interface login of an administrator, or of an operator with a standing grant. */
  lemma AdmissionMeans(db: Db, key: Token, now: int)
    requires Valid(db)
    ensures RequireControl(db, key, now).None? <==>
            && Live(db, key, now) && db.sessions[key].audience == "full"
            && (|| db.accounts[db.sessions[key].user].role == "admin"
                || (exists g: Grant ::
                      && db.sessions[key].user in db.grants && g == db.grants[db.sessions[key].user]
                      && g.issuedBy in db.accounts && !db.accounts[g.issuedBy].disabled
                      && (g.expires.None? || now < g.expires.value)))
  {
    if Live(db, key, now) {
      var s := db.sessions[key];
      assert LoginOk(db.accounts, s) && AccountOk(db.accounts[s.user]);
      if s.user in db.grants {
        assert GrantOk(db.accounts, s.user, db.grants[s.user]);
      }
    }
  }

  /**
    A session value read at one instant and consulted later gives control until
    its grant expires, whatever became of the login meanwhile.
   */
  lemma HeldValueLasts(db: Db, key: Token, now: int, later: int)
    requires Valid(db) && Live(db, key, now) && now <= later
    ensures Resolve(db, key, now).Some?
    ensures var s := db.sessions[key];
            CanControl(Resolve(db, key, now).value, later) <==>
            && s.audience == "full"
            && (|| db.accounts[s.user].role == "admin"
                || (s.user in db.grants && db.grants[s.user].issuedBy in EnabledAdmins(db)
                    && (db.grants[s.user].expires.None? || later < db.grants[s.user].expires.value)))
  {
    var s := db.sessions[key];
    assert LoginOk(db.accounts, s) && AccountOk(db.accounts[s.user]);
    if s.user in db.grants {
      assert GrantOk(db.accounts, s.user, db.grants[s.user]);
    }
  }

  /** Disabling an account, or the administrator who issued its grant, ends its control for good under that row set. */
  lemma DisablingEndsControl(db: Db, actor: Option<Token>, user: Token, key: Token, now: int, later: int)
    requires Valid(db) && SetDisabled(db, actor, user, true, now).Applied?
    requires key in db.sessions
    requires db.sessions[key].user == user || (db.accounts[db.sessions[key].user].role == "operator"
               && db.sessions[key].user in db.grants && db.grants[db.sessions[key].user].issuedBy == user)
    ensures RequireControl(SetDisabled(db, actor, user, true, now).db, key, later).Some?
  {
    SetDisabledKeepsValid(db, actor, user, true, now);
    var after := SetDisabled(db, actor, user, true, now).db;
    assert LoginOk(db.accounts, db.sessions[key]);
    assert key in after.sessions && after.sessions[key].user == user ==> key in SessionsOf(after, user);
    if key in after.sessions {
      assert after.sessions[key] == db.sessions[key];
      assert user !in EnabledAdmins(after);
    }
  }

  /** A grant admits its operator's full-interface login exactly until it expires. */
  lemma GrantAdmitsUntilExpiry(db: Db, actor: Option<Token>, administrator: Token, user: Token, id: Token,
                               expires: Option<int>, now: int, key: Token, later: int)
    requires Valid(db)
    requires var tx := GrantControl(db, actor, administrator, user, id, expires, now);
             tx.Applied? && Live(tx.db, key, later) && tx.db.sessions[key].user == user
                 && tx.db.sessions[key].audience == "full"
    ensures var after := GrantControl(db, actor, administrator, user, id, expires, now).db;
            RequireControl(after, key, later).None? <==> expires.None? || later < expires.value
  {
    var after := GrantControl(db, actor, administrator, user, id, expires, now).db;
    GrantControlKeepsValid(db, actor, administrator, user, id, expires, now);
    assert LoginOk(after.accounts, after.sessions[key]);
    assert EnabledAdmins(after) == EnabledAdmins(db);
    hide LiveAdministrator, Live;
  }

  /** Without its grant an operator's login is refused, and an administrator's is not affected. */
  lemma RevokingEndsControl(db: Db, actor: Option<Token>, administrator: Token, user: Token, now: int, key: Token,
                            later: int)
    requires Valid(db)
    requires var tx := RevokeControl(db, actor, administrator, user, now);
             tx.Applied? && Live(tx.db, key, later) && tx.db.sessions[key].user == user
    ensures var after := RevokeControl(db, actor, administrator, user, now).db;
            RequireControl(after, key, later).None? ==> db.accounts[user].role == "admin"
  {
    hide LiveAdministrator, Live, EnabledAdmins;
  }
}
