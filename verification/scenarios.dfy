/** Worked scenarios: the privileged admin `root` creates `alice`, is refused a
    system-account login name, and tries to lower another admin's limit below
    what that admin already uses. */
module Scenarios {
  import opened Resources
  import opened QuotaGuard
  import opened Normalise
  import opened Outcomes
  import opened AdminStore
  import opened Environment
  import opened CreateAdmin
  import opened UpdateAdmin

  const Root: Caller := Caller(true, 1, "root", true)

  /** Mail quota on, ticketing off, customer accounts named `web<n>`. */
  const Panel: Settings := Settings("1", "0", "web", "Sparkle", "English")

  const Helpers: Collaborators :=
    Collaborators(u => true, e => true, p => true, p => "crypt:" + p, "generated")

  /** `alice` with 5 customers, 1024 MiB of disk space and 10 tickets. */
  const AliceRequest: AddRequest :=
    AddRequest("Alice", "alice@example.org", None, "", "0", "", "alice",
               Zero.With(Customers, 5).With(Diskspace, 1024).With(Tickets, 10),
               map[], IpAny)

  /** Creating `alice` in any store that accepts her: disk space is stored as
      1024 * 1024, the ticket limit is unlimited because ticketing is off, her
      usage starts at zero and her password is a generated one. */
  lemma CreateAlice(s: Store)
    requires Valid(s)
    requires Add(s, Root, Helpers, Panel, AliceRequest).Ok?
    ensures var a := Add(s, Root, Helpers, Panel, AliceRequest).value.admin;
            && a.adminid == s.nextAdminId
            && a.loginname == "alice"
            && a.limits.Get(Customers) == 5
            && a.limits.Get(Diskspace) == 1024 * 1024
            && a.limits.Get(Tickets) == -1
            && a.used == Zero
            && a.password == Helpers.crypt(Helpers.generatedPassword)
  {
    var req := AliceRequest;
    assert req.limits.Get(Customers) == 5 && req.limits.Get(Diskspace) == 1024;
    assert req.password == "";
    assert !Panel.TicketsOn();
    AddStoresNormalisedRow(s, Root, Helpers, Panel, req);
  }

  /** A login name starting with `web` and a digit is refused under these
      settings, whatever the store holds. */
  lemma SystemAccountRefused(s: Store)
    requires Valid(s)
    ensures Add(s, Root, Helpers, Panel, AliceRequest.(loginname := "web7")).Err?
  {
    assert "web7" == Panel.accountPrefix + ['7'] + [];
    AddRefusesSystemAccountName(s, Root, Helpers, Panel, AliceRequest.(loginname := "web7"), '7', []);
  }

  /** The request that sets the customer limit of admin `id` to 2 and changes
      nothing else. */
  function LowerCustomersRequest(id: int): UpdateRequest {
    UpdateRequest(id, "", None, None, "", None, None, None, None, None,
                  map[Customers := 2], map[], None)
  }

  /** For that request the guard names customers and nothing else: tickets
      become unlimited because ticketing is off, and every other limit stays
      as stored. */
  lemma OnlyCustomersOffend(cur: Admin)
    requires cur.limits.Get(Customers) == 5 && cur.used.Get(Customers) == 3
    ensures var d := DraftOf(cur, false, Panel, LowerCustomersRequest(cur.adminid));
            Warnings(d.limits, cur.limits, cur.used) == [Customers]
  {
    assert Panel.MailQuotaOn() && !Panel.TicketsOn();
    var d := DraftOf(cur, false, Panel, LowerCustomersRequest(cur.adminid));
    assert d.limits.Get(Customers) == 2;
    forall k | k != Customers
      ensures !Lowered(k, d.limits, cur.limits, cur.used)
    {
      if k == Tickets {
        assert IsUnlimitedStored(k, d.limits.Get(k));
      } else {
        assert d.limits.Get(k) == cur.limits.Get(k);
      }
    }
    SingleOffender(d.limits, cur.limits, cur.used, Customers);
  }

  /** Lowering the customer limit of another admin from 5 to 2 while 3 are in
      use is refused, naming only the customers kind, and nothing is written. */
  lemma LowerCustomersBelowUsage(s: Store, cur: Admin)
    requires Valid(s)
    requires cur.adminid != Root.adminid && cur.adminid in s.admins && s.admins[cur.adminid] == cur
    requires cur.name != "" && cur.email != ""
    requires cur.limits.Get(Customers) == 5 && cur.used.Get(Customers) == 3
    ensures Update(s, Root, Helpers, Panel, LowerCustomersRequest(cur.adminid))
         == Err(QuotaExceeded([Customers]))
  {
    var req := LowerCustomersRequest(cur.adminid);
    assert GetAsWritten(s, Root, cur.adminid, "") == Ok(cur);
    OnlyCustomersOffend(cur);
    UpdateRefusedByGuard(s, Root, Helpers, Panel, req, cur);
  }
}
