/** `add`: the ordered validation chain for a new admin and the row it inserts. */
module CreateAdmin {
  import opened Resources
  import opened Normalise
  import opened Outcomes
  import opened AdminStore
  import opened Environment

  /** The parameters of `add`, with the parameter defaults already applied
      (empty notes, notes hidden "0", empty password and login name, any
      address), except the language, whose default is a setting. Limits are
      in user units: disk space in MiB, traffic in GiB. */
  datatype AddRequest = AddRequest(
    name: string,
    email: string,
    defLanguage: Option<string>,
    customNotes: string,
    customNotesShow: string,
    password: string,
    loginname: string,
    limits: Vec,
    privileges: map<Privilege, string>,
    ip: IpRestriction)

  /** Some customer or admin already has the login name, ignoring case. */
  predicate LoginTaken(s: Store, loginname: string) {
    || (exists c :: c in s.customers && Lower(s.customers[c].loginname) == Lower(loginname))
    || (exists id :: id in s.admins && Lower(s.admins[id].loginname) == Lower(loginname))
  }

  /** The login name starts with the system-account prefix followed by a digit. */
  predicate IsSystemAccountName(loginname: string, prefix: string) {
    |loginname| > |prefix| && loginname[..|prefix|] == prefix
    && '0' <= loginname[|prefix|] <= '9'
  }

  /** The prefix test read as the pattern `^<prefix>[0-9]`: prefix, one digit,
      then anything. */
  lemma SystemAccountNameShape(loginname: string, prefix: string)
    ensures IsSystemAccountName(loginname, prefix)
        <==> exists d: char, rest: string :: '0' <= d <= '9' && loginname == prefix + [d] + rest
  {
    if IsSystemAccountName(loginname, prefix) {
      var d := loginname[|prefix|];
      var rest := loginname[|prefix| + 1..];
      assert loginname == prefix + [d] + rest;
    }
    if exists d: char, rest: string :: '0' <= d <= '9' && loginname == prefix + [d] + rest {
      var d: char, rest: string :| '0' <= d <= '9' && loginname == prefix + [d] + rest;
      assert loginname[..|prefix|] == prefix;
      assert loginname[|prefix|] == d;
    }
  }

  /** The checks of `add`, in the order they run: permission, password policy
      (only for a non-empty password), then the login name, the name and the
      e-mail address. */
  function CreateChecks(s: Store, caller: Caller, col: Collaborators, settings: Settings, req: AddRequest): seq<Check> {
    [ Check(!(caller.isAdmin && caller.changeServerSettings), NotAllowed),
      Check(req.password != "" && !col.validPassword(req.password), PasswordInvalid),
      Check(req.loginname == "", LoginEmpty),
      Check(LoginTaken(s, req.loginname), LoginExists),
      Check(IsSystemAccountName(req.loginname, settings.accountPrefix), LoginIsSystemAccount),
      Check(!col.validUsername(req.loginname), LoginInvalid),
      Check(req.name == "", NameEmpty),
      Check(req.email == "", EmailEmpty),
      Check(!col.validEmail(req.email), EmailInvalid) ]
  }

  /** The row `add` inserts under the next auto-increment id. */
  function NewAdmin(s: Store, col: Collaborators, settings: Settings, req: AddRequest): Admin {
    var limits := ScaleToStorage(FeatureGate(req.limits, settings.MailQuotaOn(), settings.TicketsOn()));
    var password := if req.password == "" then col.generatedPassword else req.password;
    Admin(
      adminid := s.nextAdminId,
      loginname := req.loginname,
      password := col.crypt(password),
      name := req.name,
      email := req.email,
      defLanguage := req.defLanguage.GetOr(settings.standardLanguage),
      customNotes := ReplaceCrLf(req.customNotes),
      customNotesShow := req.customNotesShow,
      theme := settings.defaultTheme,
      deactivated := "0",
      privileges := NormPrivileges(ApplyPrivileges(req.privileges, AllOff)),
      limits := limits,
      used := Zero,
      loginfailCount := 0,
      ip := EncodeIp(req.ip))
  }

  /** `add`: runs the checks in order and, when all pass, inserts one row. */
  function Add(s: Store, caller: Caller, col: Collaborators, settings: Settings, req: AddRequest): (r: Result<Written>)
    requires Valid(s)
    ensures !(caller.isAdmin && caller.changeServerSettings) ==> r == Err(NotAllowed)
    ensures r.Ok? ==>
      && r.value.admin.adminid == s.nextAdminId
      && r.value.admin.adminid !in s.admins
      && r.value.store == s.(admins := s.admins[s.nextAdminId := r.value.admin],
                             nextAdminId := s.nextAdminId + 1)
      && r.value.admin.loginname == req.loginname
      && req.loginname != ""
      && !LoginTaken(s, req.loginname)
      && !IsSystemAccountName(req.loginname, settings.accountPrefix)
  {
    if !(caller.isAdmin && caller.changeServerSettings) then Err(NotAllowed)
    else if req.password != "" && !col.validPassword(req.password) then Err(PasswordInvalid)
    else if req.loginname == "" then Err(LoginEmpty)
    else if LoginTaken(s, req.loginname) then Err(LoginExists)
    else if IsSystemAccountName(req.loginname, settings.accountPrefix) then Err(LoginIsSystemAccount)
    else if !col.validUsername(req.loginname) then Err(LoginInvalid)
    else if req.name == "" then Err(NameEmpty)
    else if req.email == "" then Err(EmailEmpty)
    else if !col.validEmail(req.email) then Err(EmailInvalid)
    else
      var a := NewAdmin(s, col, settings, req);
      Ok(Written(s.(admins := s.admins[s.nextAdminId := a], nextAdminId := s.nextAdminId + 1), a))
  }

  /** `add` fails exactly when one of its checks fails, and with the error of the
      first failing one. */
  lemma AddFollowsCheckOrder(s: Store, caller: Caller, col: Collaborators, settings: Settings, req: AddRequest)
    requires Valid(s)
    ensures var r := Add(s, caller, col, settings, req);
            var first := FirstFailure(CreateChecks(s, caller, col, settings, req));
            && (r.Err? <==> first.Some?)
            && (r.Err? ==> r.error == first.value)
  {
    var c := CreateChecks(s, caller, col, settings, req);
    var first := FirstFailure(c);
    if first.Some? {
      var i :| 0 <= i < |c| && c[i].fails && c[i].error == first.value
               && forall j :: 0 <= j < i ==> !c[j].fails;
      if i > 0 { assert !c[0].fails; }
      if i > 1 { assert !c[1].fails; }
      if i > 2 { assert !c[2].fails; }
      if i > 3 { assert !c[3].fails; }
      if i > 4 { assert !c[4].fails; }
      if i > 5 { assert !c[5].fails; }
      if i > 6 { assert !c[6].fails; }
      if i > 7 { assert !c[7].fails; }
    } else {
      assert !c[0].fails && !c[1].fails && !c[2].fails && !c[3].fails && !c[4].fails;
      assert !c[5].fails && !c[6].fails && !c[7].fails && !c[8].fails;
    }
  }

  /** A login name equal, ignoring case, to any customer's or admin's login name
      is refused and no row is inserted. */
  lemma AddRefusesTakenLogin(s: Store, caller: Caller, col: Collaborators, settings: Settings, req: AddRequest)
    requires Valid(s)
    requires (exists c :: c in s.customers && Lower(s.customers[c].loginname) == Lower(req.loginname))
          || (exists id :: id in s.admins && Lower(s.admins[id].loginname) == Lower(req.loginname))
    ensures Add(s, caller, col, settings, req).Err?
    ensures caller.isAdmin && caller.changeServerSettings
            && (req.password == "" || col.validPassword(req.password)) && req.loginname != ""
            ==> Add(s, caller, col, settings, req) == Err(LoginExists)
  {
  }

  /** A login name of the system-account shape `<prefix><digit>…` is refused. */
  lemma AddRefusesSystemAccountName(s: Store, caller: Caller, col: Collaborators, settings: Settings,
                                    req: AddRequest, d: char, rest: string)
    requires Valid(s)
    requires '0' <= d <= '9' && req.loginname == settings.accountPrefix + [d] + rest
    ensures Add(s, caller, col, settings, req).Err?
  {
    SystemAccountNameShape(req.loginname, settings.accountPrefix);
  }

  /** A successful `add` returns the row built by `NewAdmin`. */
  lemma AddOkRow(s: Store, caller: Caller, col: Collaborators, settings: Settings, req: AddRequest)
    requires Valid(s)
    requires Add(s, caller, col, settings, req).Ok?
    ensures Add(s, caller, col, settings, req).value.admin == NewAdmin(s, col, settings, req)
  {
  }

  /** The inserted row: the request's name and e-mail address, notes with CR LF
      turned into LF, crypted password (a generated one when none was given),
      flags "1" exactly where the request said "1", limits in storage units with
      mail quota and tickets unlimited when their feature is off, and the
      default theme. Zero usage, no failed logins and "active" are stated as the
      assumed column defaults of the table, which the INSERT does not set. */
  lemma AddStoresNormalisedRow(s: Store, caller: Caller, col: Collaborators, settings: Settings, req: AddRequest)
    requires Valid(s)
    requires Add(s, caller, col, settings, req).Ok?
    ensures var a := Add(s, caller, col, settings, req).value.admin;
      && a.name == req.name
      && a.email == req.email
      && a.customNotes == ReplaceCrLf(req.customNotes)
      && a.customNotesShow == req.customNotesShow
      && a.password == col.crypt(if req.password == "" then col.generatedPassword else req.password)
      && (forall p :: a.privileges.Get(p) == "1" <==> p in req.privileges && req.privileges[p] == "1")
      && a.privileges.WellFormed()
      && a.deactivated == "0"
      && a.used == Zero
      && a.loginfailCount == 0
      && a.theme == settings.defaultTheme
      && a.defLanguage == req.defLanguage.GetOr(settings.standardLanguage)
      && a.ip == EncodeIp(req.ip)
      && a.limits.Get(EmailQuota) == (if settings.MailQuotaOn() then req.limits.Get(EmailQuota) else Unlimited)
      && a.limits.Get(Tickets) == (if settings.TicketsOn() then req.limits.Get(Tickets) else Unlimited)
      && forall k :: k != EmailQuota && k != Tickets ==> a.limits.Get(k) == ToStorage(k, req.limits.Get(k))
  {
    AddOkRow(s, caller, col, settings, req);
  }

  /** `add` keeps the table invariant and the references of the other tables. */
  lemma AddPreservesInvariants(s: Store, caller: Caller, col: Collaborators, settings: Settings, req: AddRequest)
    requires Valid(s)
    requires Add(s, caller, col, settings, req).Ok?
    ensures Valid(Add(s, caller, col, settings, req).value.store)
    ensures Referential(s) ==> Referential(Add(s, caller, col, settings, req).value.store)
  {
    var w := Add(s, caller, col, settings, req).value;
    var t := w.store;
    forall i, j | i in t.admins && j in t.admins && i != j
      ensures Lower(t.admins[i].loginname) != Lower(t.admins[j].loginname)
    {
      if i == s.nextAdminId {
        assert j in s.admins;
      } else if j == s.nextAdminId {
        assert i in s.admins;
      }
    }
  }
}
