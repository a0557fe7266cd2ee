/** Input normalisation shared by `add` and `update`: boolean flags, the IP
    restriction, the theme fallback and the line endings of the notes. */
module Normalise {

  /** A stored flag is the string "0" or "1". */
  predicate WellFormedFlag(s: string) {
    s == "0" || s == "1"
  }

  /** A received flag becomes "0" unless it is exactly "1". */
  function NormFlag(s: string): (r: string)
    ensures WellFormedFlag(r)
    ensures r == "1" <==> s == "1"
  {
    if s != "1" then "0" else s
  }

  /** Normalising a flag twice is normalising it once. */
  lemma NormFlagIdempotent(s: string)
    ensures NormFlag(NormFlag(s)) == NormFlag(s)
  {
  }

  /** A flag is left as it is exactly when it is already well formed, so a flag
      read back from storage and normalised again is unchanged. */
  lemma NormFlagFixesStored(s: string)
    ensures NormFlag(s) == s <==> WellFormedFlag(s)
  {
  }

  /** The privilege and visibility flags of an admin. */
  datatype Privilege =
    | CustomersSeeAll | DomainsSeeAll | TicketsSeeAll | CanEditPhpSettings | ChangeServerSettings

  datatype Privileges = Privileges(
    customersSeeAll: string, domainsSeeAll: string, ticketsSeeAll: string,
    canEditPhpSettings: string, changeServerSettings: string)
  {
    function Get(p: Privilege): string {
      match p
      case CustomersSeeAll => customersSeeAll
      case DomainsSeeAll => domainsSeeAll
      case TicketsSeeAll => ticketsSeeAll
      case CanEditPhpSettings => canEditPhpSettings
      case ChangeServerSettings => changeServerSettings
    }

    predicate WellFormed() {
      forall p :: WellFormedFlag(Get(p))
    }
  }

  lemma PrivilegesExtensional(a: Privileges, b: Privileges)
    requires forall p :: a.Get(p) == b.Get(p)
    ensures a == b
  {
    assert a.customersSeeAll == b.Get(CustomersSeeAll);
    assert a.domainsSeeAll == b.Get(DomainsSeeAll);
    assert a.ticketsSeeAll == b.Get(TicketsSeeAll);
    assert a.canEditPhpSettings == b.Get(CanEditPhpSettings);
    assert a.changeServerSettings == b.Get(ChangeServerSettings);
  }

  /** The flags a new admin gets when the request names none (parameter default 0). */
  const AllOff: Privileges := Privileges("0", "0", "0", "0", "0")

  /** The flags of a request: a named flag takes the received value, the others
      keep `base`. */
  function ApplyPrivileges(req: map<Privilege, string>, base: Privileges): (r: Privileges)
    ensures forall p :: r.Get(p) == (if p in req then req[p] else base.Get(p))
  {
    var pick := (p: Privilege) => if p in req then req[p] else base.Get(p);
    Privileges(pick(CustomersSeeAll), pick(DomainsSeeAll), pick(TicketsSeeAll),
               pick(CanEditPhpSettings), pick(ChangeServerSettings))
  }

  /** Every flag normalised on its own. */
  function NormPrivileges(ps: Privileges): (r: Privileges)
    ensures r.WellFormed()
    ensures forall p :: r.Get(p) == "1" <==> ps.Get(p) == "1"
  {
    Privileges(NormFlag(ps.customersSeeAll), NormFlag(ps.domainsSeeAll),
               NormFlag(ps.ticketsSeeAll), NormFlag(ps.canEditPhpSettings),
               NormFlag(ps.changeServerSettings))
  }

  /** Normalisation of the privileges is idempotent and leaves stored ones alone. */
  lemma NormPrivilegesIdempotent(ps: Privileges)
    ensures NormPrivileges(NormPrivileges(ps)) == NormPrivileges(ps)
    ensures ps.WellFormed() ==> NormPrivileges(ps) == ps
  {
    if ps.WellFormed() {
      forall p | true
        ensures NormPrivileges(ps).Get(p) == ps.Get(p)
      {
        NormFlagFixesStored(ps.Get(p));
      }
      PrivilegesExtensional(NormPrivileges(ps), ps);
    }
    var n := NormPrivileges(ps);
    forall p | true
      ensures NormPrivileges(n).Get(p) == n.Get(p)
    {
      NormFlagFixesStored(n.Get(p));
    }
    PrivilegesExtensional(NormPrivileges(n), n);
  }

  /** The `ip` column in its three forms: the empty string, -1 for any
      address, or an encoded list of addresses. */
  datatype IpRestriction = IpUnset | IpAny | IpList(addresses: seq<string>)

  /** A stored restriction never holds an empty list: an empty list is written
      as the empty string. */
  predicate Canonical(ip: IpRestriction) {
    !(ip.IpList? && |ip.addresses| == 0)
  }

  /** The value written to the `ip` column: an empty value is written as the
      empty string, a non-empty list as the list, anything else as -1. */
  function EncodeIp(ip: IpRestriction): (r: IpRestriction)
    ensures Canonical(r)
    ensures Canonical(ip) ==> r == ip
    ensures r.IpUnset? <==> ip.IpUnset? || ip == IpList([])
  {
    if ip.IpList? && |ip.addresses| == 0 then IpUnset else ip
  }

  /** PHP's `empty()` on a string: true for "" and for "0". */
  predicate PhpEmpty(s: string) {
    s == "" || s == "0"
  }

  /** Every carriage-return/line-feed pair, scanned left to right without
      overlap, replaced by a single line feed. */
  function ReplaceCrLf(s: string): (r: string)
    ensures |r| <= |s|
  {
    if |s| == 0 then []
    else if |s| >= 2 && s[0] == '\r' && s[1] == '\n' then ['\n'] + ReplaceCrLf(s[2..])
    else [s[0]] + ReplaceCrLf(s[1..])
  }

  /** The characters of a string other than carriage returns. */
  function StripCr(s: string): string {
    if |s| == 0 then [] else (if s[0] == '\r' then [] else [s[0]]) + StripCr(s[1..])
  }

  /** The replacement only ever removes carriage returns: the text with all
      carriage returns dropped is the same before and after. */
  lemma {:induction false} ReplaceCrLfOnlyDropsCr(s: string)
    ensures StripCr(ReplaceCrLf(s)) == StripCr(s)
  {
    if |s| == 0 {
    } else if |s| >= 2 && s[0] == '\r' && s[1] == '\n' {
      ReplaceCrLfOnlyDropsCr(s[2..]);
      assert s[1..][1..] == s[2..];
      calc {
        StripCr(ReplaceCrLf(s));
        StripCr(['\n'] + ReplaceCrLf(s[2..]));
        ['\n'] + StripCr(ReplaceCrLf(s[2..]));
        ['\n'] + StripCr(s[2..]);
        StripCr(s[1..]);
        StripCr(s);
      }
    } else {
      ReplaceCrLfOnlyDropsCr(s[1..]);
      calc {
        StripCr(ReplaceCrLf(s));
        StripCr([s[0]] + ReplaceCrLf(s[1..]));
        (if s[0] == '\r' then [] else [s[0]]) + StripCr(ReplaceCrLf(s[1..]));
        StripCr(s);
      }
    }
  }

  /** Text without carriage returns passes through unchanged. */
  lemma {:induction false} ReplaceCrLfKeepsCrFree(s: string)
    requires forall i :: 0 <= i < |s| ==> s[i] != '\r'
    ensures ReplaceCrLf(s) == s
  {
    if |s| > 0 {
      ReplaceCrLfKeepsCrFree(s[1..]);
    }
  }

  /** A CR LF pair starts at position `i` of `s`. */
  predicate CrLfAt(s: string, i: int) {
    0 <= i && i + 1 < |s| && s[i] == '\r' && s[i + 1] == '\n'
  }

  /** The number of positions at which a CR LF pair starts. */
  function CrLfCount(s: string): nat {
    if |s| < 2 then 0 else (if CrLfAt(s, 0) then 1 else 0) + CrLfCount(s[1..])
  }

  /** Reference definition: keep every character except a carriage return that
      is immediately followed by a line feed. */
  function DropCrBeforeLf(s: string): string {
    if |s| == 0 then [] else (if CrLfAt(s, 0) then [] else [s[0]]) + DropCrBeforeLf(s[1..])
  }

  /** The replacement drops exactly the carriage returns that start a CR LF
      pair and keeps every other character in order. */
  lemma {:induction false} ReplaceCrLfDropsCrBeforeLf(s: string)
    ensures ReplaceCrLf(s) == DropCrBeforeLf(s)
  {
    if |s| == 0 {
    } else if CrLfAt(s, 0) {
      ReplaceCrLfDropsCrBeforeLf(s[2..]);
      assert s[1..][1..] == s[2..];
      assert !CrLfAt(s[1..], 0);
      assert DropCrBeforeLf(s[1..]) == ['\n'] + DropCrBeforeLf(s[2..]);
    } else {
      ReplaceCrLfDropsCrBeforeLf(s[1..]);
    }
  }

  /** The replacement shortens the text by one character per CR LF pair. */
  lemma {:induction false} ReplaceCrLfLength(s: string)
    ensures |ReplaceCrLf(s)| == |s| - CrLfCount(s)
  {
    if |s| == 0 {
    } else if CrLfAt(s, 0) {
      ReplaceCrLfLength(s[2..]);
      assert s[1..][1..] == s[2..];
      assert !CrLfAt(s[1..], 0);
      assert CrLfCount(s[1..]) == CrLfCount(s[2..]);
    } else {
      ReplaceCrLfLength(s[1..]);
    }
  }

  /** No CR LF pair is left in the text exactly when none starts anywhere. */
  lemma {:induction false} CrLfCountZero(s: string)
    ensures CrLfCount(s) == 0 <==> forall i :: !CrLfAt(s, i)
  {
    if |s| >= 2 {
      CrLfCountZero(s[1..]);
      forall i | CrLfAt(s[1..], i)
        ensures CrLfAt(s, i + 1)
      {
      }
      forall i | CrLfAt(s, i) && i > 0
        ensures CrLfAt(s[1..], i - 1)
      {
      }
    } else {
      forall i
        ensures !CrLfAt(s, i)
      {
      }
    }
  }

  /** Text without a CR LF pair passes through unchanged. */
  lemma {:induction false} ReplaceCrLfKeepsPairFree(s: string)
    requires forall i :: !CrLfAt(s, i)
    ensures ReplaceCrLf(s) == s
  {
    if |s| > 0 {
      forall i
        ensures !CrLfAt(s[1..], i)
      {
        if CrLfAt(s[1..], i) {
          assert CrLfAt(s, i + 1);
        }
      }
      ReplaceCrLfKeepsPairFree(s[1..]);
      assert !CrLfAt(s, 0);
    }
  }

  /** The replacement leaves the text unchanged exactly when the text holds no
      CR LF pair. */
  lemma ReplaceCrLfUnchangedIff(s: string)
    ensures ReplaceCrLf(s) == s <==> forall i :: !CrLfAt(s, i)
  {
    ReplaceCrLfLength(s);
    CrLfCountZero(s);
    if forall i :: !CrLfAt(s, i) {
      ReplaceCrLfKeepsPairFree(s);
    }
  }
}
