/** The admin table and the tables that point at admins, the calling admin's
    session, and the two read commands `listing` and `get`. */
module AdminStore {
  import opened Resources
  import opened Normalise
  import opened Outcomes

  /** One row of the admin table. */
  datatype Admin = Admin(
    adminid: int,
    loginname: string,
    password: string,          // the crypted form, never the plain text
    name: string,
    email: string,
    defLanguage: string,
    customNotes: string,
    customNotesShow: string,
    theme: string,
    deactivated: string,
    privileges: Privileges,
    limits: Vec,
    used: Vec,
    loginfailCount: int,
    ip: IpRestriction)

  datatype Customer = Customer(loginname: string, adminid: int)

  /** An API key; `customerid` is 0 for a key of the admin itself. */
  datatype ApiKey = ApiKey(adminid: int, customerid: int)

  /** The persistent state the admin commands read and write. The usage tables
      map a row id to the admin the row belongs to. */
  datatype Store = Store(
    admins: map<int, Admin>,
    nextAdminId: int,               // the auto-increment value of the admin table
    customers: map<int, Customer>,
    domains: map<int, int>,         // domain id -> owning admin
    apiKeys: map<int, ApiKey>,
    trafficRows: map<int, int>,     // traffic usage row -> admin
    diskspaceRows: map<int, int>)   // disk space usage row -> admin

  /** A command's effect: the store after it and the admin row it returns. */
  datatype Written = Written(store: Store, admin: Admin)

  /** The session of the admin calling a command. */
  datatype Caller = Caller(
    isAdmin: bool, adminid: int, loginname: string, changeServerSettings: bool)

  /** ASCII lower-casing, as `strtolower` does. */
  function LowerChar(c: char): char {
    if 'A' <= c <= 'Z' then (c as int + 32) as char else c
  }

  function Lower(s: string): (r: string)
    ensures |r| == |s|
    ensures forall i :: 0 <= i < |s| ==> r[i] == LowerChar(s[i])
  {
    seq(|s|, i requires 0 <= i < |s| => LowerChar(s[i]))
  }

  /** A row as the table can hold it: keyed by its own id, flags "0" or "1",
      the IP restriction in its stored form. */
  predicate WellFormedAdmin(id: int, a: Admin) {
    && a.adminid == id
    && WellFormedFlag(a.deactivated)
    && a.privileges.WellFormed()
    && Canonical(a.ip)
  }

  /** The invariant of the admin table: ids below the auto-increment value,
      well-formed rows, and login names unique without regard to case. */
  ghost predicate Valid(s: Store) {
    && s.nextAdminId >= 1
    && (forall id :: id in s.admins ==> 1 <= id < s.nextAdminId && WellFormedAdmin(id, s.admins[id]))
    && (forall i, j :: i in s.admins && j in s.admins && i != j ==>
          Lower(s.admins[i].loginname) != Lower(s.admins[j].loginname))
  }

  /** Every customer, domain, API key and usage row belongs to an existing admin. */
  ghost predicate Referential(s: Store) {
    && (forall c :: c in s.customers ==> s.customers[c].adminid in s.admins)
    && (forall d :: d in s.domains ==> s.domains[d] in s.admins)
    && (forall k :: k in s.apiKeys ==> s.apiKeys[k].adminid in s.admins)
    && (forall t :: t in s.trafficRows ==> s.trafficRows[t] in s.admins)
    && (forall t :: t in s.diskspaceRows ==> s.diskspaceRows[t] in s.admins)
  }

  /** The session belongs to an admin row of the store. */
  ghost predicate CallerIsStored(s: Store, caller: Caller) {
    && caller.adminid in s.admins
    && s.admins[caller.adminid].loginname == caller.loginname
  }

  function FindById(s: Store, id: int): (r: Option<Admin>)
    ensures r.Some? <==> id in s.admins
    ensures r.Some? ==> r.value == s.admins[id]
  {
    if id in s.admins then Some(s.admins[id]) else None
  }

  /** The lookup by login name, under the table's case-insensitive collation:
      the row whose login name equals the given one ignoring case. */
  function FindByLogin(s: Store, loginname: string): (r: Option<Admin>)
    requires Valid(s)
    ensures r.Some? <==> exists id :: id in s.admins && Lower(s.admins[id].loginname) == Lower(loginname)
    ensures r.Some? ==> r.value.adminid in s.admins && s.admins[r.value.adminid] == r.value
                        && Lower(r.value.loginname) == Lower(loginname)
  {
    if exists id :: id in s.admins && Lower(s.admins[id].loginname) == Lower(loginname) then
      var id :| id in s.admins && Lower(s.admins[id].loginname) == Lower(loginname);
      Some(s.admins[id])
    else
      None
  }

  /** Login names that differ only in case address the same row. */
  lemma FindByLoginIgnoresCase(s: Store, a: string, b: string)
    requires Valid(s) && Lower(a) == Lower(b)
    ensures FindByLogin(s, a) == FindByLogin(s, b)
  {
  }

  /** The row a command addresses: by id when the id is positive, otherwise by
      login name. */
  function Lookup(s: Store, id: int, loginname: string): (r: Option<Admin>)
    requires Valid(s)
    ensures r.Some? ==> r.value.adminid in s.admins && s.admins[r.value.adminid] == r.value
    ensures id > 0 ==> r == FindById(s, id)
    ensures id <= 0 ==> r == FindByLogin(s, loginname)
  {
    if id > 0 then FindById(s, id) else FindByLogin(s, loginname)
  }

  /** The gate of `get` as written: the privilege, or an id naming the caller,
      or a login name naming the caller. */
  predicate MayGetAsWritten(caller: Caller, id: int, loginname: string) {
    caller.isAdmin
    && (caller.changeServerSettings || caller.adminid == id || caller.loginname == loginname)
  }

  /** `get` as written: a caller without the server-settings privilege is let
      through when EITHER the id OR the login name names the caller, yet the row
      is then looked up by the id whenever the id is positive. `update`,
      `delete` and `unlock` find their target row through this gate. */
  function GetAsWritten(s: Store, caller: Caller, id: int, loginname: string): (r: Result<Admin>)
    requires Valid(s)
    ensures r.Ok? <==> MayGetAsWritten(caller, id, loginname) && Lookup(s, id, loginname).Some?
    ensures r.Ok? ==> Lookup(s, id, loginname) == Some(r.value)
                      && r.value.adminid in s.admins && s.admins[r.value.adminid] == r.value
    ensures r.Err? ==> r.error == (if MayGetAsWritten(caller, id, loginname) then NotFound else NotAllowed)
  {
    if caller.isAdmin
       && (caller.changeServerSettings || caller.adminid == id || caller.loginname == loginname)
    then
      match Lookup(s, id, loginname)
      case Some(a) => Ok(a)
      case None => Err(NotFound)
    else
      Err(NotAllowed)
  }

  /** The gate `get` evidently intends: the key actually used for the lookup
      must name the caller. */
  predicate MayGet(caller: Caller, id: int, loginname: string) {
    caller.isAdmin
    && (caller.changeServerSettings
        || (if id > 0 then caller.adminid == id else caller.loginname == loginname))
  }

  /** The `get` command with the gate checked against the key used for the
      lookup. */
  function Get(s: Store, caller: Caller, id: int, loginname: string): (r: Result<Admin>)
    requires Valid(s)
    ensures r.Ok? ==> Lookup(s, id, loginname) == Some(r.value)
                      && r.value.adminid in s.admins && s.admins[r.value.adminid] == r.value
    ensures r.Ok? <==> MayGet(caller, id, loginname) && Lookup(s, id, loginname).Some?
    ensures r.Err? ==> r.error == (if MayGet(caller, id, loginname) then NotFound else NotAllowed)
  {
    if MayGet(caller, id, loginname) then
      match Lookup(s, id, loginname)
      case Some(a) => Ok(a)
      case None => Err(NotFound)
    else
      Err(NotAllowed)
  }

  /** An admin without the server-settings privilege can read only its own row. */
  lemma GetOnlyOwnRow(s: Store, caller: Caller, id: int, loginname: string)
    requires Valid(s) && CallerIsStored(s, caller)
    requires !caller.changeServerSettings
    requires Get(s, caller, id, loginname).Ok?
    ensures Get(s, caller, id, loginname).value == s.admins[caller.adminid]
  {
    var a := Get(s, caller, id, loginname).value;
    if id <= 0 {
      assert Lower(a.loginname) == Lower(loginname) == Lower(s.admins[caller.adminid].loginname);
    }
  }

  /** For a caller with the server-settings privilege, and for every request
      the corrected gate admits, both gates give the same answer; they differ
      only on requests the corrected gate refuses. */
  lemma GatesAgreeWhereCorrectedAdmits(s: Store, caller: Caller, id: int, loginname: string)
    requires Valid(s)
    ensures caller.changeServerSettings ==> GetAsWritten(s, caller, id, loginname) == Get(s, caller, id, loginname)
    ensures MayGet(caller, id, loginname) ==> GetAsWritten(s, caller, id, loginname) == Get(s, caller, id, loginname)
    ensures GetAsWritten(s, caller, id, loginname) != Get(s, caller, id, loginname)
            ==> Get(s, caller, id, loginname) == Err(NotAllowed)
  {
  }

  /** Two admins; the second, `bob`, lacks the server-settings privilege. */
  function LeakStore(): (s: Store)
    ensures Valid(s)
  {
    var root := Admin(1, "root", "h1", "Root", "root@example.org", "English", "", "0", "Sparkle",
                      "0", Privileges("1", "1", "1", "1", "1"), Zero, Zero, 0, IpAny);
    var bob := Admin(2, "bob", "h2", "Bob", "bob@example.org", "English", "", "0", "Sparkle",
                     "0", Privileges("0", "0", "0", "0", "0"), Zero, Zero, 0, IpAny);
    var s := Store(map[1 := root, 2 := bob], 3, map[], map[], map[], map[], map[]);
    assert Lower("root") != Lower("bob") by {
      assert Lower("root")[0] == 'r' && Lower("bob")[0] == 'b';
    }
    s
  }

  /** `bob` asks for id 1 and passes its own login name: the gate as written
      lets the request through and returns root's row, password hash included. */
  lemma GetAsWrittenLeaksOtherRow()
    ensures var s := LeakStore();
            var bob := Caller(true, 2, "bob", false);
            && CallerIsStored(s, bob)
            && GetAsWritten(s, bob, 1, "bob") == Ok(s.admins[1])
            && s.admins[1] != s.admins[bob.adminid]
            && Get(s, bob, 1, "bob") == Err(NotAllowed)
  {
  }

  /** What `listing` returns: the number of rows and the rows. */
  datatype AdminList = AdminList(count: nat, rows: set<Admin>)

  /** `listing`: every admin row, for callers with the server-settings privilege. */
  function Listing(s: Store, caller: Caller): (r: Result<AdminList>)
    requires Valid(s)
    ensures r.Ok? <==> caller.isAdmin && caller.changeServerSettings
    ensures r.Err? ==> r.error == NotAllowed
    ensures r.Ok? ==> r.value.count == |s.admins| && r.value.rows == s.admins.Values
  {
    if caller.isAdmin && caller.changeServerSettings then
      Ok(AdminList(|s.admins|, s.admins.Values))
    else
      Err(NotAllowed)
  }

  /** A map with at least one entry has a key. */
  lemma SomeKey(m: map<int, Admin>)
    requires |m| > 0
    ensures exists id :: id in m
  {
    if forall id :: id !in m {
      assert false;
    }
  }

  /** Every row among a map's values is stored under some key. */
  lemma KeyOfRow(m: map<int, Admin>, a: Admin)
    requires a in m.Values
    ensures exists id :: id in m && m[id] == a
  {
    if forall id :: id in m ==> m[id] != a {
      assert false;
    }
  }

  /** The map's values are its rows counted once each: a row carries its own
      key as its id, so no two keys hold the same row. */
  lemma {:induction false} RowsCountedOnce(m: map<int, Admin>)
    requires forall id :: id in m ==> m[id].adminid == id
    ensures |m.Values| == |m|
    decreases |m|
  {
    if |m| > 0 {
      SomeKey(m);
      var k :| k in m;
      var rest := m - {k};
      assert |rest| == |m| - 1;
      RowsCountedOnce(rest);
      forall a | a in m.Values
        ensures a in rest.Values + {m[k]}
      {
        KeyOfRow(m, a);
        var id :| id in m && m[id] == a;
        if id != k {
          assert rest[id] == a;
        }
      }
      forall a | a in rest.Values
        ensures a in m.Values
      {
        KeyOfRow(rest, a);
        var id :| id in rest && rest[id] == a;
        assert m[id] == a;
      }
      assert m.Values == rest.Values + {m[k]};
    }
  }

  /** The count `listing` returns is the number of rows it lists. */
  lemma ListingCountsRows(s: Store, caller: Caller)
    requires Valid(s)
    ensures Listing(s, caller).Ok? ==> Listing(s, caller).value.count == |Listing(s, caller).value.rows|
  {
    RowsCountedOnce(s.admins);
  }
}
