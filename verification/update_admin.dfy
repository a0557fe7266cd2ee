/** `update`: the self-edit override, the normalisation of the received values,
    the quota guard and the one-row write. */
module UpdateAdmin {
  import opened Resources
  import opened QuotaGuard
  import opened Normalise
  import opened Outcomes
  import opened AdminStore
  import opened Environment

  /** The parameters of `update`. An absent optional parameter is `None`, or a
      missing key of `limits` / `privileges`; limits are in user units. The
      password defaults to the empty string. */
  datatype UpdateRequest = UpdateRequest(
    id: int,
    loginname: string,
    name: Option<string>,
    email: Option<string>,
    password: string,
    defLanguage: Option<string>,
    customNotes: Option<string>,
    customNotesShow: Option<string>,
    theme: Option<string>,
    deactivated: Option<string>,
    limits: map<Kind, int>,
    privileges: map<Privilege, string>,
    ip: Option<IpRestriction>)

  /** The values `update` works with after reading the parameters, before any
      check: profile fields from the request with the stored values as
      defaults; deactivation, limits, flags and IP from the stored row when the
      target is the caller, from the request otherwise; then the feature gate
      on the limits and the theme fallback. */
  datatype Draft = Draft(
    name: string, email: string, password: string, defLanguage: string,
    customNotes: string, customNotesShow: string, theme: string,
    deactivated: string, privileges: Privileges, limits: Vec, ip: IpRestriction)

  function DraftOf(cur: Admin, isSelf: bool, settings: Settings, req: UpdateRequest): Draft {
    var theme := req.theme.GetOr(cur.theme);
    var limits := if isSelf then cur.limits else Requested(req.limits, cur.limits);
    Draft(
      name := req.name.GetOr(cur.name),
      email := req.email.GetOr(cur.email),
      password := req.password,
      defLanguage := req.defLanguage.GetOr(cur.defLanguage),
      customNotes := ReplaceCrLf(req.customNotes.GetOr(cur.customNotes)),
      customNotesShow := req.customNotesShow.GetOr(cur.customNotesShow),
      theme := if PhpEmpty(theme) then settings.defaultTheme else theme,
      deactivated := if isSelf then cur.deactivated else req.deactivated.GetOr(cur.deactivated),
      privileges := if isSelf then cur.privileges else ApplyPrivileges(req.privileges, cur.privileges),
      limits := FeatureGate(limits, settings.MailQuotaOn(), settings.TicketsOn()),
      ip := if isSelf then cur.ip else req.ip.GetOr(cur.ip))
  }

  /** The row written back: normalised flags, the password re-crypted only
      when a new one was given, the IP restriction in stored form. The login
      name, usage counters and failed-login counter are not touched. */
  function UpdatedRow(cur: Admin, d: Draft, col: Collaborators): Admin {
    cur.(
      password := if d.password != "" then col.crypt(d.password) else cur.password,
      name := d.name,
      email := d.email,
      defLanguage := d.defLanguage,
      customNotes := d.customNotes,
      customNotesShow := d.customNotesShow,
      theme := d.theme,
      deactivated := NormFlag(d.deactivated),
      privileges := NormPrivileges(d.privileges),
      limits := d.limits,
      ip := EncodeIp(d.ip))
  }

  /** The checks `update` runs once the target row is found, in order. */
  function UpdateChecks(caller: Caller, cur: Admin, d: Draft, col: Collaborators): seq<Check> {
    var warnings := Warnings(d.limits, cur.limits, cur.used);
    [ Check(!(caller.changeServerSettings || cur.adminid == caller.adminid), NotAllowed),
      Check(d.name == "", NameEmpty),
      Check(d.email == "", EmailEmpty),
      Check(!col.validEmail(d.email), EmailInvalid),
      Check(d.password != "" && !col.validPassword(d.password), PasswordInvalid),
      Check(warnings != [], QuotaExceeded(warnings)) ]
  }

  /** `update`. */
  function Update(s: Store, caller: Caller, col: Collaborators, settings: Settings, req: UpdateRequest): (r: Result<Written>)
    requires Valid(s)
    ensures !caller.isAdmin ==> r == Err(NotAllowed)
    ensures caller.isAdmin && GetAsWritten(s, caller, req.id, req.loginname).Err?
            ==> r == Err(GetAsWritten(s, caller, req.id, req.loginname).error)
    ensures r.Ok? ==>
      var id := r.value.admin.adminid;
      && id in s.admins
      && (caller.changeServerSettings || id == caller.adminid)
      && r.value.store == s.(admins := s.admins[id := r.value.admin])
      && r.value.admin.loginname == s.admins[id].loginname
      && r.value.admin.used == s.admins[id].used
      && r.value.admin.loginfailCount == s.admins[id].loginfailCount
  {
    if !caller.isAdmin then Err(NotAllowed)
    else
      match GetAsWritten(s, caller, req.id, req.loginname)
      case Err(e) => Err(e)
      case Ok(cur) =>
        if !(caller.changeServerSettings || cur.adminid == caller.adminid) then Err(NotAllowed)
        else
          var d := DraftOf(cur, cur.adminid == caller.adminid, settings, req);
          if d.name == "" then Err(NameEmpty)
          else if d.email == "" then Err(EmailEmpty)
          else if !col.validEmail(d.email) then Err(EmailInvalid)
          else if d.password != "" && !col.validPassword(d.password) then Err(PasswordInvalid)
          else
            var warnings := Warnings(d.limits, cur.limits, cur.used);
            if warnings != [] then Err(QuotaExceeded(warnings))
            else
              var a := UpdatedRow(cur, d, col);
              Ok(Written(s.(admins := s.admins[cur.adminid := a]), a))
  }

  /** A successful `update` wrote the draft of the row it found. */
  lemma UpdateOkShape(s: Store, caller: Caller, col: Collaborators, settings: Settings, req: UpdateRequest)
    requires Valid(s)
    requires Update(s, caller, col, settings, req).Ok?
    ensures GetAsWritten(s, caller, req.id, req.loginname).Ok?
    ensures var cur := GetAsWritten(s, caller, req.id, req.loginname).value;
            var d := DraftOf(cur, cur.adminid == caller.adminid, settings, req);
            && cur == s.admins[cur.adminid]
            && Update(s, caller, col, settings, req).value.admin == UpdatedRow(cur, d, col)
  {
  }

  /** Once the target row is found, `update` fails exactly when one of its
      checks fails, with the error of the first failing one. */
  lemma UpdateFollowsCheckOrder(s: Store, caller: Caller, col: Collaborators, settings: Settings, req: UpdateRequest)
    requires Valid(s)
    requires caller.isAdmin
    requires GetAsWritten(s, caller, req.id, req.loginname).Ok?
    ensures var cur := GetAsWritten(s, caller, req.id, req.loginname).value;
            var d := DraftOf(cur, cur.adminid == caller.adminid, settings, req);
            var first := FirstFailure(UpdateChecks(caller, cur, d, col));
            var r := Update(s, caller, col, settings, req);
            && (r.Err? <==> first.Some?)
            && (r.Err? ==> r.error == first.value)
  {
    var cur := GetAsWritten(s, caller, req.id, req.loginname).value;
    var d := DraftOf(cur, cur.adminid == caller.adminid, settings, req);
    var c := UpdateChecks(caller, cur, d, col);
    var first := FirstFailure(c);
    if first.Some? {
      var i :| 0 <= i < |c| && c[i].fails && c[i].error == first.value
               && forall j :: 0 <= j < i ==> !c[j].fails;
      if i > 0 { assert !c[0].fails; }
      if i > 1 { assert !c[1].fails; }
      if i > 2 { assert !c[2].fails; }
      if i > 3 { assert !c[3].fails; }
      if i > 4 { assert !c[4].fails; }
    } else {
      assert !c[0].fails && !c[1].fails && !c[2].fails;
      assert !c[3].fails && !c[4].fails && !c[5].fails;
    }
  }

  /** Editing oneself: deactivation, privilege and visibility flags and the IP
      restriction stay as stored whatever the request says, and so do the
      limits, except that mail quota and tickets become unlimited when their
      feature is off. */
  lemma SelfEditKeepsRestrictedFields(s: Store, caller: Caller, col: Collaborators, settings: Settings, req: UpdateRequest)
    requires Valid(s)
    requires Update(s, caller, col, settings, req).Ok?
    requires Update(s, caller, col, settings, req).value.admin.adminid == caller.adminid
    ensures var cur := s.admins[caller.adminid];
            var a := Update(s, caller, col, settings, req).value.admin;
            && a.deactivated == cur.deactivated
            && a.privileges == cur.privileges
            && a.ip == cur.ip
            && a.limits == FeatureGate(cur.limits, settings.MailQuotaOn(), settings.TicketsOn())
            && (settings.MailQuotaOn() && settings.TicketsOn() ==> a.limits == cur.limits)
  {
    var cur := s.admins[caller.adminid];
    assert WellFormedAdmin(caller.adminid, cur);
    NormFlagFixesStored(cur.deactivated);
    NormPrivilegesIdempotent(cur.privileges);
    if settings.MailQuotaOn() && settings.TicketsOn() {
      VecExtensional(FeatureGate(cur.limits, true, true), cur.limits);
    }
  }

  /** The gated limits of a self-edit never trip the guard. */
  lemma GatedStoredLimitsPassGuard(cur: Admin, mailQuotaOn: bool, ticketsOn: bool)
    ensures Warnings(FeatureGate(cur.limits, mailQuotaOn, ticketsOn), cur.limits, cur.used) == []
  {
    var p := FeatureGate(cur.limits, mailQuotaOn, ticketsOn);
    forall i | 0 <= i < |GuardedKinds|
      ensures !Lowered(GuardedKinds[i], p, cur.limits, cur.used)
    {
      var k := GuardedKinds[i];
      if k == EmailQuota || k == Tickets {
        assert p.Get(k) == cur.limits.Get(k) || IsUnlimitedStored(k, p.Get(k));
      }
    }
    NothingLoweredNothingReported(GuardedKinds, p, cur.limits, cur.used);
  }

  /** A self-edit is never refused for quota reasons. */
  lemma SelfEditNeverOverQuota(s: Store, caller: Caller, col: Collaborators, settings: Settings, req: UpdateRequest)
    requires Valid(s)
    requires GetAsWritten(s, caller, req.id, req.loginname).Ok?
    requires GetAsWritten(s, caller, req.id, req.loginname).value.adminid == caller.adminid
    ensures var r := Update(s, caller, col, settings, req);
            r.Err? ==> !r.error.QuotaExceeded?
  {
    var cur := GetAsWritten(s, caller, req.id, req.loginname).value;
    GatedStoredLimitsPassGuard(cur, settings.MailQuotaOn(), settings.TicketsOn());
  }

  /** The guard decides: an accepted update lowers no checked limit below usage,
      and a refused one reports exactly the offending kinds. */
  lemma UpdateGuardDecides(s: Store, caller: Caller, col: Collaborators, settings: Settings, req: UpdateRequest)
    requires Valid(s)
    ensures var r := Update(s, caller, col, settings, req);
            && (r.Ok? ==>
                  var cur := s.admins[r.value.admin.adminid];
                  forall k :: k != Subdomains ==> !Lowered(k, r.value.admin.limits, cur.limits, cur.used))
            && (r.Err? && r.error.QuotaExceeded? ==>
                  && GetAsWritten(s, caller, req.id, req.loginname).Ok?
                  && var cur := GetAsWritten(s, caller, req.id, req.loginname).value;
                  var d := DraftOf(cur, cur.adminid == caller.adminid, settings, req);
                  && r.error.kinds == Warnings(d.limits, cur.limits, cur.used)
                  && r.error.kinds != [])
  {
    var r := Update(s, caller, col, settings, req);
    if r.Ok? {
      var cur := s.admins[r.value.admin.adminid];
      forall k | k != Subdomains
        ensures !Lowered(k, r.value.admin.limits, cur.limits, cur.used)
      {
        GuardRejectsExactly(r.value.admin.limits, cur.limits, cur.used, k);
      }
    }
  }

  /** When the target row is found, the caller may edit it and the profile
      checks pass, `update` is refused exactly when the guard reports a kind,
      and then with the guard's list. */
  lemma UpdateRefusedByGuard(s: Store, caller: Caller, col: Collaborators, settings: Settings,
                             req: UpdateRequest, cur: Admin)
    requires Valid(s)
    requires caller.isAdmin
    requires GetAsWritten(s, caller, req.id, req.loginname) == Ok(cur)
    requires caller.changeServerSettings || cur.adminid == caller.adminid
    ensures var d := DraftOf(cur, cur.adminid == caller.adminid, settings, req);
            var warnings := Warnings(d.limits, cur.limits, cur.used);
            var r := Update(s, caller, col, settings, req);
            d.name != "" && d.email != "" && col.validEmail(d.email)
            && (d.password == "" || col.validPassword(d.password))
            ==> && (r.Err? <==> warnings != [])
                && (r.Err? ==> r.error == QuotaExceeded(warnings))
  {
  }

  /** Another admin's limit set, in user units, to a value that is not -1,
      differs from the stored limit and is below the usage is refused with a
      quota error naming that kind; nothing is written. */
  lemma UpdateRefusesLimitBelowUsage(s: Store, caller: Caller, col: Collaborators, settings: Settings,
                                     req: UpdateRequest, k: Kind)
    requires Valid(s)
    requires caller.isAdmin && caller.changeServerSettings
    requires GetAsWritten(s, caller, req.id, req.loginname).Ok?
    requires var cur := GetAsWritten(s, caller, req.id, req.loginname).value;
             && cur.adminid != caller.adminid
             && req.name.GetOr(cur.name) != ""
             && req.email.GetOr(cur.email) != ""
             && col.validEmail(req.email.GetOr(cur.email))
             && (req.password == "" || col.validPassword(req.password))
             && k != Subdomains
             && (k == EmailQuota ==> settings.MailQuotaOn())
             && (k == Tickets ==> settings.TicketsOn())
             && k in req.limits && req.limits[k] != Unlimited
             && ToStorage(k, req.limits[k]) != cur.limits.Get(k)
             && ToStorage(k, req.limits[k]) < cur.used.Get(k)
    ensures var r := Update(s, caller, col, settings, req);
            r.Err? && r.error.QuotaExceeded? && k in r.error.kinds
  {
    var cur := GetAsWritten(s, caller, req.id, req.loginname).value;
    var d := DraftOf(cur, false, settings, req);
    UnlimitedSurvivesScaling(k, req.limits[k]);
    assert Lowered(k, d.limits, cur.limits, cur.used);
    GuardRejectsExactly(d.limits, cur.limits, cur.used, k);
  }

  /** An empty new password keeps the stored hash; a non-empty one is stored crypted. */
  lemma UpdatePasswordRule(s: Store, caller: Caller, col: Collaborators, settings: Settings, req: UpdateRequest)
    requires Valid(s)
    requires Update(s, caller, col, settings, req).Ok?
    ensures var a := Update(s, caller, col, settings, req).value.admin;
            a.password == (if req.password == "" then s.admins[a.adminid].password else col.crypt(req.password))
  {
    UpdateOkShape(s, caller, col, settings, req);
  }

  /** The profile fields written are the received values, the stored ones
      where a value was not received; the notes have CR LF turned into LF and
      an empty theme falls back to the default one. */
  lemma UpdateStoresProfile(s: Store, caller: Caller, col: Collaborators, settings: Settings, req: UpdateRequest)
    requires Valid(s)
    requires Update(s, caller, col, settings, req).Ok?
    ensures var a := Update(s, caller, col, settings, req).value.admin;
            var cur := s.admins[a.adminid];
            var theme := req.theme.GetOr(cur.theme);
            && a.name == req.name.GetOr(cur.name)
            && a.email == req.email.GetOr(cur.email)
            && a.defLanguage == req.defLanguage.GetOr(cur.defLanguage)
            && a.customNotes == ReplaceCrLf(req.customNotes.GetOr(cur.customNotes))
            && a.customNotesShow == req.customNotesShow.GetOr(cur.customNotesShow)
            && a.theme == (if PhpEmpty(theme) then settings.defaultTheme else theme)
  {
    UpdateOkShape(s, caller, col, settings, req);
  }

  /** When another admin's row is edited, each written limit is -1 for a
      switched-off feature (mail quota, tickets), else the requested value in
      storage units, else the stored one; the IP restriction is the requested
      one, else the stored one, in its written form. */
  lemma UpdateStoresLimitsAndIp(s: Store, caller: Caller, col: Collaborators, settings: Settings, req: UpdateRequest)
    requires Valid(s)
    ensures var r := Update(s, caller, col, settings, req);
            r.Ok? && r.value.admin.adminid != caller.adminid ==>
              var a := r.value.admin;
              var cur := s.admins[a.adminid];
              && (forall k :: a.limits.Get(k) ==
                    if k == EmailQuota && !settings.MailQuotaOn() then Unlimited
                    else if k == Tickets && !settings.TicketsOn() then Unlimited
                    else if k in req.limits then ToStorage(k, req.limits[k])
                    else cur.limits.Get(k))
              && a.ip == EncodeIp(req.ip.GetOr(cur.ip))
  {
    if Update(s, caller, col, settings, req).Ok? {
      UpdateOkShape(s, caller, col, settings, req);
    }
  }

  /** When another admin edits the row, each flag is "1" exactly when the value
      received (or, absent one, the stored one) is exactly "1". */
  lemma UpdateNormalisesFlags(s: Store, caller: Caller, col: Collaborators, settings: Settings,
                              req: UpdateRequest, cur: Admin)
    requires Valid(s)
    requires GetAsWritten(s, caller, req.id, req.loginname) == Ok(cur)
    requires cur.adminid != caller.adminid
    ensures var r := Update(s, caller, col, settings, req);
            r.Ok? ==>
              var a := r.value.admin;
              && a.privileges.WellFormed()
              && WellFormedFlag(a.deactivated)
              && (a.deactivated == "1" <==> req.deactivated.GetOr(cur.deactivated) == "1")
              && forall p :: a.privileges.Get(p) == "1"
                             <==> (if p in req.privileges then req.privileges[p] else cur.privileges.Get(p)) == "1"
  {
    if Update(s, caller, col, settings, req).Ok? {
      UpdateOkShape(s, caller, col, settings, req);
    }
  }

  /** `update` keeps the table invariant and the references of the other tables. */
  lemma UpdatePreservesInvariants(s: Store, caller: Caller, col: Collaborators, settings: Settings, req: UpdateRequest)
    requires Valid(s)
    requires Update(s, caller, col, settings, req).Ok?
    ensures Valid(Update(s, caller, col, settings, req).value.store)
    ensures Referential(s) ==> Referential(Update(s, caller, col, settings, req).value.store)
  {
    var w := Update(s, caller, col, settings, req).value;
    var t := w.store;
    forall i, j | i in t.admins && j in t.admins && i != j
      ensures Lower(t.admins[i].loginname) != Lower(t.admins[j].loginname)
    {
      assert t.admins[i].loginname == s.admins[i].loginname;
      assert t.admins[j].loginname == s.admins[j].loginname;
    }
  }
}
