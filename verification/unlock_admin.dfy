/** `unlock`: resetting the failed-login counter of an admin row. */
module UnlockAdmin {
  import opened Outcomes
  import opened AdminStore

  /** `unlock`: sets the failed-login counter of the row to 0 and returns the row. */
  function Unlock(s: Store, caller: Caller, id: int, loginname: string): (r: Result<Written>)
    requires Valid(s)
    ensures !(caller.isAdmin && caller.changeServerSettings) ==> r == Err(NotAllowed)
    ensures r.Ok? <==> caller.isAdmin && caller.changeServerSettings
                       && GetAsWritten(s, caller, id, loginname).Ok?
    ensures r.Err? && caller.isAdmin && caller.changeServerSettings
            ==> r.error == GetAsWritten(s, caller, id, loginname).error
    ensures r.Ok? ==> r.value.admin.adminid == GetAsWritten(s, caller, id, loginname).value.adminid
    ensures r.Ok? ==>
      var x := r.value.admin.adminid;
      && x in s.admins
      && r.value.admin == s.admins[x].(loginfailCount := 0)
      && r.value.store == s.(admins := s.admins[x := r.value.admin])
  {
    if !(caller.isAdmin && caller.changeServerSettings) then Err(NotAllowed)
    else
      match GetAsWritten(s, caller, id, loginname)
      case Err(e) => Err(e)
      case Ok(a) =>
        var unlocked := a.(loginfailCount := 0);
        Ok(Written(s.(admins := s.admins[a.adminid := unlocked]), unlocked))
  }

  /** Unlocking keeps the table invariant, and unlocking again changes nothing. */
  lemma UnlockIdempotent(s: Store, caller: Caller, id: int, loginname: string)
    requires Valid(s)
    requires Unlock(s, caller, id, loginname).Ok?
    ensures Valid(Unlock(s, caller, id, loginname).value.store)
    ensures var w := Unlock(s, caller, id, loginname).value;
            Unlock(w.store, caller, id, loginname) == Ok(w)
  {
    var w := Unlock(s, caller, id, loginname).value;
    var t := w.store;
    var x := w.admin.adminid;
    forall i, j | i in t.admins && j in t.admins && i != j
      ensures Lower(t.admins[i].loginname) != Lower(t.admins[j].loginname)
    {
      assert t.admins[i].loginname == s.admins[i].loginname;
      assert t.admins[j].loginname == s.admins[j].loginname;
    }
    assert Valid(t);
    if id <= 0 {
      assert Lower(t.admins[x].loginname) == Lower(loginname);
    }
    assert Lookup(t, id, loginname) == Some(w.admin);
    assert GetAsWritten(t, caller, id, loginname) == Ok(w.admin);
    assert w.admin.(loginfailCount := 0) == w.admin;
    assert t.admins[x := w.admin] == t.admins;
    assert t.(admins := t.admins[x := w.admin]) == t;
  }
}
