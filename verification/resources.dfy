/** Resource kinds of an admin account, the vector of one integer per kind used
    both for the limits and for the `*_used` counters, and the conversion of disk
    space and traffic between the units a caller types and the units stored. */
module Resources {

  /** The twelve resource kinds an admin row carries a limit and a usage counter for. */
  datatype Kind =
    | Customers | Domains | Subdomains | Emails | EmailAccounts | EmailForwarders
    | EmailQuota | Ftps | Tickets | Mysqls | Diskspace | Traffic

  /** The sentinel a caller uses for "unlimited". */
  const Unlimited: int := -1

  /** One integer per resource kind. Disk space and traffic are in storage units. */
  datatype Vec = Vec(
    customers: int, domains: int, subdomains: int, emails: int,
    emailAccounts: int, emailForwarders: int, emailQuota: int, ftps: int,
    tickets: int, mysqls: int, diskspace: int, traffic: int)
  {
    function Get(k: Kind): int {
      match k
      case Customers => customers
      case Domains => domains
      case Subdomains => subdomains
      case Emails => emails
      case EmailAccounts => emailAccounts
      case EmailForwarders => emailForwarders
      case EmailQuota => emailQuota
      case Ftps => ftps
      case Tickets => tickets
      case Mysqls => mysqls
      case Diskspace => diskspace
      case Traffic => traffic
    }

    /** The vector with the entry for `k` replaced by `v`. */
    function With(k: Kind, v: int): (r: Vec)
      ensures r.Get(k) == v
      ensures forall j :: j != k ==> r.Get(j) == Get(j)
    {
      match k
      case Customers => this.(customers := v)
      case Domains => this.(domains := v)
      case Subdomains => this.(subdomains := v)
      case Emails => this.(emails := v)
      case EmailAccounts => this.(emailAccounts := v)
      case EmailForwarders => this.(emailForwarders := v)
      case EmailQuota => this.(emailQuota := v)
      case Ftps => this.(ftps := v)
      case Tickets => this.(tickets := v)
      case Mysqls => this.(mysqls := v)
      case Diskspace => this.(diskspace := v)
      case Traffic => this.(traffic := v)
    }
  }

  /** Two vectors are equal exactly when they agree on every kind. */
  lemma VecExtensional(a: Vec, b: Vec)
    requires forall k :: a.Get(k) == b.Get(k)
    ensures a == b
  {
    assert a.customers == b.Get(Customers);
    assert a.domains == b.Get(Domains);
    assert a.subdomains == b.Get(Subdomains);
    assert a.emails == b.Get(Emails);
    assert a.emailAccounts == b.Get(EmailAccounts);
    assert a.emailForwarders == b.Get(EmailForwarders);
    assert a.emailQuota == b.Get(EmailQuota);
    assert a.ftps == b.Get(Ftps);
    assert a.tickets == b.Get(Tickets);
    assert a.mysqls == b.Get(Mysqls);
    assert a.diskspace == b.Get(Diskspace);
    assert a.traffic == b.Get(Traffic);
  }

  /** The usage counters of a freshly inserted admin row. */
  const Zero: Vec := Vec(0, 0, 0, 0, 0, 0, 0, 0, 0, 0, 0, 0)

  /** Storage units per user unit: disk space is multiplied by 1024, traffic
      by 1024 * 1024, every other kind is a plain count. */
  function Scale(k: Kind): nat {
    match k
    case Diskspace => 1024
    case Traffic => 1024 * 1024
    case _ => 1
  }

  /** A user-unit value converted to storage units. */
  function ToStorage(k: Kind, v: int): int {
    v * Scale(k)
  }

  /** The update guard's test for "unlimited" on a stored value: it divides back
      to user units with PHP's float division, so only the exact multiple
      `-1 * Scale(k)` reads as -1. */
  predicate IsUnlimitedStored(k: Kind, v: int) {
    v == Unlimited * Scale(k)
  }

  /** A stored value reads as unlimited exactly when the user typed -1. */
  lemma UnlimitedSurvivesScaling(k: Kind, v: int)
    ensures IsUnlimitedStored(k, ToStorage(k, v)) <==> v == Unlimited
  {
  }

  /** The user-unit vector of a request converted to storage units. */
  function ScaleToStorage(v: Vec): (r: Vec)
    ensures forall k :: r.Get(k) == ToStorage(k, v.Get(k))
  {
    v.(diskspace := v.diskspace * 1024, traffic := v.traffic * 1024 * 1024)
  }

  /** The limits of an update request: a kind present in the request takes the
      requested user value converted to storage units, an absent kind keeps the
      stored value. */
  function Requested(req: map<Kind, int>, cur: Vec): (r: Vec)
    ensures forall k :: r.Get(k) == (if k in req then ToStorage(k, req[k]) else cur.Get(k))
  {
    var pick := (k: Kind) => if k in req then req[k] * Scale(k) else cur.Get(k);
    Vec(pick(Customers), pick(Domains), pick(Subdomains), pick(Emails),
        pick(EmailAccounts), pick(EmailForwarders), pick(EmailQuota), pick(Ftps),
        pick(Tickets), pick(Mysqls), pick(Diskspace), pick(Traffic))
  }

  /** The mail-quota and ticket limits are forced to unlimited when their
      feature is switched off; every other kind is left alone. */
  function FeatureGate(v: Vec, mailQuotaOn: bool, ticketsOn: bool): (r: Vec)
    ensures r.Get(EmailQuota) == (if mailQuotaOn then v.Get(EmailQuota) else Unlimited)
    ensures r.Get(Tickets) == (if ticketsOn then v.Get(Tickets) else Unlimited)
    ensures forall k :: k != EmailQuota && k != Tickets ==> r.Get(k) == v.Get(k)
  {
    var v1 := if mailQuotaOn then v else v.With(EmailQuota, Unlimited);
    if ticketsOn then v1 else v1.With(Tickets, Unlimited)
  }

  /** Gating twice is gating once. */
  lemma FeatureGateIdempotent(v: Vec, mailQuotaOn: bool, ticketsOn: bool)
    ensures FeatureGate(FeatureGate(v, mailQuotaOn, ticketsOn), mailQuotaOn, ticketsOn)
         == FeatureGate(v, mailQuotaOn, ticketsOn)
  {
    var g := FeatureGate(v, mailQuotaOn, ticketsOn);
    VecExtensional(FeatureGate(g, mailQuotaOn, ticketsOn), g);
  }

  /** The create path gates before it scales; the order does not matter,
      because gating and scaling touch disjoint kinds. */
  lemma FeatureGateCommutesWithScaling(v: Vec, mailQuotaOn: bool, ticketsOn: bool)
    ensures ScaleToStorage(FeatureGate(v, mailQuotaOn, ticketsOn))
         == FeatureGate(ScaleToStorage(v), mailQuotaOn, ticketsOn)
  {
    VecExtensional(ScaleToStorage(FeatureGate(v, mailQuotaOn, ticketsOn)),
                   FeatureGate(ScaleToStorage(v), mailQuotaOn, ticketsOn));
  }
}
