/** `delete`: removing an admin together with its usage rows and handing what
    it owned to the caller. */
module DeleteAdmin {
  import opened Outcomes
  import opened AdminStore

  /** The store without the admin row of `x` and without its traffic and disk
      space usage rows. */
  function RemoveAdminRows(s: Store, x: int): Store {
    s.(admins := s.admins - {x},
       trafficRows := map t | t in s.trafficRows && s.trafficRows[t] != x :: s.trafficRows[t],
       diskspaceRows := map t | t in s.diskspaceRows && s.diskspaceRows[t] != x :: s.diskspaceRows[t])
  }

  /** Customers and domains of `from` are given to `to`; the API keys of `from`
      that belong to no customer are deleted and its remaining keys given to `to`. */
  function TransferOwnership(s: Store, from: int, to: int): Store {
    var reown := (a: int) => if a == from then to else a;
    s.(customers := map c | c in s.customers :: s.customers[c].(adminid := reown(s.customers[c].adminid)),
       domains := map d | d in s.domains :: reown(s.domains[d]),
       apiKeys := map k | k in s.apiKeys && !(s.apiKeys[k].adminid == from && s.apiKeys[k].customerid == 0)
                        :: s.apiKeys[k].(adminid := reown(s.apiKeys[k].adminid)))
  }

  /** `delete`: refuses to delete the caller, otherwise removes the row and
      returns it as it was before. */
  function Delete(s: Store, caller: Caller, id: int, loginname: string): (r: Result<Written>)
    requires Valid(s)
    ensures !(caller.isAdmin && caller.changeServerSettings) ==> r == Err(NotAllowed)
    ensures r.Ok? <==> && caller.isAdmin && caller.changeServerSettings
                       && GetAsWritten(s, caller, id, loginname).Ok?
                       && GetAsWritten(s, caller, id, loginname).value.adminid != caller.adminid
    ensures r.Err? && caller.isAdmin && caller.changeServerSettings
            && GetAsWritten(s, caller, id, loginname).Err?
            ==> r.error == GetAsWritten(s, caller, id, loginname).error
    ensures r.Ok? ==> r.value.admin == GetAsWritten(s, caller, id, loginname).value
    ensures r.Ok? ==> && r.value.admin.adminid in s.admins
                      && r.value.admin == s.admins[r.value.admin.adminid]
                      && r.value.admin.adminid != caller.adminid
  {
    if !(caller.isAdmin && caller.changeServerSettings) then Err(NotAllowed)
    else
      match GetAsWritten(s, caller, id, loginname)
      case Err(e) => Err(e)
      case Ok(a) =>
        if a.adminid == caller.adminid then Err(CannotDeleteSelf)
        else Ok(Written(TransferOwnership(RemoveAdminRows(s, a.adminid), a.adminid, caller.adminid), a))
  }

  /** A caller with the server-settings privilege whose request names its own
      row is refused with "you can't delete yourself", and nothing is written. */
  lemma DeleteSelfRefused(s: Store, caller: Caller, id: int, loginname: string)
    requires Valid(s)
    requires caller.isAdmin && caller.changeServerSettings
    requires Lookup(s, id, loginname).Some?
    requires Lookup(s, id, loginname).value.adminid == caller.adminid
    ensures Delete(s, caller, id, loginname) == Err(CannotDeleteSelf)
  {
  }

  /** After a successful delete of `x` by caller `y`: no row of `x` is left in
      the admin or usage tables, the other rows of those tables are kept, every
      customer and domain of `x` belongs to `y` and the others keep their owner,
      the customer-less keys of `x` are gone and its other keys belong to `y`. */
  lemma DeleteEffect(s: Store, caller: Caller, id: int, loginname: string)
    requires Valid(s)
    requires Delete(s, caller, id, loginname).Ok?
    ensures var w := Delete(s, caller, id, loginname).value;
            var x := w.admin.adminid;
            var y := caller.adminid;
            var t := w.store;
            && t.admins == s.admins - {x}
            && t.nextAdminId == s.nextAdminId
            && (forall r :: r in t.trafficRows <==> r in s.trafficRows && s.trafficRows[r] != x)
            && (forall r :: r in t.trafficRows ==> t.trafficRows[r] == s.trafficRows[r])
            && (forall r :: r in t.diskspaceRows <==> r in s.diskspaceRows && s.diskspaceRows[r] != x)
            && (forall r :: r in t.diskspaceRows ==> t.diskspaceRows[r] == s.diskspaceRows[r])
            && t.customers.Keys == s.customers.Keys
            && (forall c :: c in s.customers ==>
                  && t.customers[c].loginname == s.customers[c].loginname
                  && t.customers[c].adminid == (if s.customers[c].adminid == x then y else s.customers[c].adminid))
            && t.domains.Keys == s.domains.Keys
            && (forall d :: d in s.domains ==>
                  t.domains[d] == (if s.domains[d] == x then y else s.domains[d]))
            && (forall k :: k in t.apiKeys <==>
                  k in s.apiKeys && !(s.apiKeys[k].adminid == x && s.apiKeys[k].customerid == 0))
            && (forall k :: k in t.apiKeys ==>
                  && t.apiKeys[k].customerid == s.apiKeys[k].customerid
                  && t.apiKeys[k].adminid == (if s.apiKeys[k].adminid == x then y else s.apiKeys[k].adminid))
  {
  }

  /** Nothing in the store refers to a deleted admin any more. */
  lemma DeleteLeavesNoReference(s: Store, caller: Caller, id: int, loginname: string)
    requires Valid(s)
    requires Delete(s, caller, id, loginname).Ok?
    ensures var w := Delete(s, caller, id, loginname).value;
            var x := w.admin.adminid;
            var t := w.store;
            && x !in t.admins
            && (forall c :: c in t.customers ==> t.customers[c].adminid != x)
            && (forall d :: d in t.domains ==> t.domains[d] != x)
            && (forall k :: k in t.apiKeys ==> t.apiKeys[k].adminid != x)
            && (forall r :: r in t.trafficRows ==> t.trafficRows[r] != x)
            && (forall r :: r in t.diskspaceRows ==> t.diskspaceRows[r] != x)
  {
    DeleteEffect(s, caller, id, loginname);
  }

  /** `delete` keeps the table invariant, and when the caller's own row is in
      the store, every remaining reference still points at an existing admin. */
  lemma DeletePreservesInvariants(s: Store, caller: Caller, id: int, loginname: string)
    requires Valid(s)
    requires Delete(s, caller, id, loginname).Ok?
    ensures Valid(Delete(s, caller, id, loginname).value.store)
    ensures Referential(s) && CallerIsStored(s, caller) ==> Referential(Delete(s, caller, id, loginname).value.store)
  {
    DeleteEffect(s, caller, id, loginname);
    var w := Delete(s, caller, id, loginname).value;
    var t := w.store;
    assert Valid(t) by {
      assert forall i :: i in t.admins ==> i in s.admins && t.admins[i] == s.admins[i];
    }
    if Referential(s) && CallerIsStored(s, caller) {
      DeleteKeepsReferences(s, caller, id, loginname);
    }
  }

  /** Removing admin `x` and handing its rows to an admin `y` that stays keeps
      every reference pointing at an existing admin. */
  lemma HandOverKeepsReferences(s: Store, x: int, y: int)
    requires Referential(s) && y in s.admins && y != x
    ensures Referential(TransferOwnership(RemoveAdminRows(s, x), x, y))
  {
    var t := TransferOwnership(RemoveAdminRows(s, x), x, y);
    assert t.admins == s.admins - {x};
    assert forall c :: c in t.customers ==> t.customers[c].adminid in t.admins;
    assert forall d :: d in t.domains ==> t.domains[d] in t.admins;
    assert forall k :: k in t.apiKeys ==> t.apiKeys[k].adminid in t.admins;
  }

  /** The references half of `DeletePreservesInvariants`. */
  lemma DeleteKeepsReferences(s: Store, caller: Caller, id: int, loginname: string)
    requires Valid(s) && Referential(s) && CallerIsStored(s, caller)
    requires Delete(s, caller, id, loginname).Ok?
    ensures Referential(Delete(s, caller, id, loginname).value.store)
  {
    var w := Delete(s, caller, id, loginname).value;
    var x := w.admin.adminid;
    assert w.store == TransferOwnership(RemoveAdminRows(s, x), x, caller.adminid);
    HandOverKeepsReferences(s, x, caller.adminid);
  }
}
