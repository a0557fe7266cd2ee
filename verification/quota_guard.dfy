/** The check `update` runs before it writes new limits: a kind is rejected when
    its new limit changes the stored one, is not unlimited, and is below what
    the admin already uses. Every offending kind is collected before the one
    406 error is raised. */
module QuotaGuard {
  import opened Resources

  /** The kinds the guard compares, in the order their warnings are appended.
      `Subdomains` is not among them. */
  const GuardedKinds: seq<Kind> :=
    [Customers, Domains, Diskspace, Traffic, Emails, EmailAccounts,
     EmailForwarders, EmailQuota, Ftps, Tickets, Mysqls]

  /** Position of a kind in the order of the warnings; `Subdomains`, which is
      never checked, is placed last. */
  function Rank(k: Kind): nat {
    match k
    case Customers => 0
    case Domains => 1
    case Diskspace => 2
    case Traffic => 3
    case Emails => 4
    case EmailAccounts => 5
    case EmailForwarders => 6
    case EmailQuota => 7
    case Ftps => 8
    case Tickets => 9
    case Mysqls => 10
    case Subdomains => 11
  }

  /** The new limit for `k` differs from the stored one, is not unlimited, and
      is below the usage counter. */
  predicate Lowered(k: Kind, proposed: Vec, current: Vec, used: Vec) {
    var v := proposed.Get(k);
    v != current.Get(k) && !IsUnlimitedStored(k, v) && v < used.Get(k)
  }

  predicate StrictlyRanked(ks: seq<Kind>) {
    forall i, j :: 0 <= i < j < |ks| ==> Rank(ks[i]) < Rank(ks[j])
  }

  /** The compared kinds are listed in rank order: the kind at position `i`
      has rank `i`. */
  lemma GuardedKindsRanked()
    ensures StrictlyRanked(GuardedKinds)
  {
    var g := GuardedKinds;
    assert Rank(g[0]) == 0 && Rank(g[1]) == 1 && Rank(g[2]) == 2 && Rank(g[3]) == 3;
    assert Rank(g[4]) == 4 && Rank(g[5]) == 5 && Rank(g[6]) == 6 && Rank(g[7]) == 7;
    assert Rank(g[8]) == 8 && Rank(g[9]) == 9 && Rank(g[10]) == 10;
    assert forall i :: 0 <= i < |g| ==> Rank(g[i]) == i;
  }

  /** Every kind but `Subdomains` is checked. */
  lemma GuardedKindsCoverAllButSubdomains(k: Kind)
    ensures k in GuardedKinds <==> k != Subdomains
  {
    match k
    case Customers => assert GuardedKinds[0] == k;
    case Domains => assert GuardedKinds[1] == k;
    case Diskspace => assert GuardedKinds[2] == k;
    case Traffic => assert GuardedKinds[3] == k;
    case Emails => assert GuardedKinds[4] == k;
    case EmailAccounts => assert GuardedKinds[5] == k;
    case EmailForwarders => assert GuardedKinds[6] == k;
    case EmailQuota => assert GuardedKinds[7] == k;
    case Ftps => assert GuardedKinds[8] == k;
    case Tickets => assert GuardedKinds[9] == k;
    case Mysqls => assert GuardedKinds[10] == k;
    case Subdomains =>
  }

  /** The kinds of `kinds` that are lowered below usage, in their order. */
  function Offending(kinds: seq<Kind>, proposed: Vec, current: Vec, used: Vec): (r: seq<Kind>)
    ensures forall k :: k in r <==> k in kinds && Lowered(k, proposed, current, used)
    ensures |r| <= |kinds|
  {
    if |kinds| == 0 then []
    else
      var rest := Offending(kinds[1..], proposed, current, used);
      if Lowered(kinds[0], proposed, current, used) then [kinds[0]] + rest else rest
  }

  /** What the guard of `update` reports for the given new limits. */
  function Warnings(proposed: Vec, current: Vec, used: Vec): seq<Kind> {
    Offending(GuardedKinds, proposed, current, used)
  }

  /** `Offending` peeled at position `i`: the kind there, if lowered, comes
      before the report for the rest. */
  lemma OffendingAt(kinds: seq<Kind>, i: int, proposed: Vec, current: Vec, used: Vec)
    requires 0 <= i < |kinds|
    ensures Offending(kinds[i..], proposed, current, used)
         == (if Lowered(kinds[i], proposed, current, used) then [kinds[i]] else [])
            + Offending(kinds[i + 1..], proposed, current, used)
  {
    assert kinds[i..][1..] == kinds[i + 1..];
  }

  /** The accumulation of warnings, one comparison per kind of `kinds`. */
  method CollectOffending(kinds: seq<Kind>, proposed: Vec, current: Vec, used: Vec) returns (warnings: seq<Kind>)
    ensures warnings == Offending(kinds, proposed, current, used)
  {
    warnings := [];
    var i := 0;
    while i < |kinds|
      invariant 0 <= i <= |kinds|
      invariant warnings + Offending(kinds[i..], proposed, current, used)
             == Offending(kinds, proposed, current, used)
    {
      OffendingAt(kinds, i, proposed, current, used);
      if Lowered(kinds[i], proposed, current, used) {
        warnings := warnings + [kinds[i]];
      }
      i := i + 1;
    }
    assert kinds[i..] == [];
  }

  /** The guard's loop over the compared kinds reports exactly the non-subdomain
      kinds lowered below usage. */
  method CollectWarnings(proposed: Vec, current: Vec, used: Vec) returns (warnings: seq<Kind>)
    ensures forall k :: k in warnings <==> k != Subdomains && Lowered(k, proposed, current, used)
    ensures warnings == Warnings(proposed, current, used)
  {
    warnings := CollectOffending(GuardedKinds, proposed, current, used);
    forall k | true
      ensures k in warnings <==> k != Subdomains && Lowered(k, proposed, current, used)
    {
      GuardedKindsCoverAllButSubdomains(k);
    }
  }

  /** The guard rejects a kind exactly when it is checked and lowered below usage;
      `Subdomains` is never reported. */
  lemma GuardRejectsExactly(proposed: Vec, current: Vec, used: Vec, k: Kind)
    ensures k in Warnings(proposed, current, used)
        <==> k != Subdomains && Lowered(k, proposed, current, used)
  {
    GuardedKindsCoverAllButSubdomains(k);
  }

  /** A new limit equal to the unlimited sentinel is never rejected, however
      much is used. */
  lemma UnlimitedNeverRejected(proposed: Vec, current: Vec, used: Vec, k: Kind)
    requires IsUnlimitedStored(k, proposed.Get(k))
    ensures k !in Warnings(proposed, current, used)
  {
  }

  /** Limits left as they are never trigger the guard. */
  lemma UnchangedNeverRejected(proposed: Vec, current: Vec, used: Vec)
    requires forall k :: proposed.Get(k) == current.Get(k)
    ensures Warnings(proposed, current, used) == []
  {
    NothingLoweredNothingReported(GuardedKinds, proposed, current, used);
  }

  lemma {:induction false} NothingLoweredNothingReported(kinds: seq<Kind>, proposed: Vec, current: Vec, used: Vec)
    requires forall i :: 0 <= i < |kinds| ==> !Lowered(kinds[i], proposed, current, used)
    ensures Offending(kinds, proposed, current, used) == []
  {
    if |kinds| > 0 {
      NothingLoweredNothingReported(kinds[1..], proposed, current, used);
    }
  }

  /** The offending kinds of a strictly ranked list come out strictly ranked:
      no kind twice, in the order of the checks. */
  lemma {:induction false} OffendingRanked(kinds: seq<Kind>, proposed: Vec, current: Vec, used: Vec)
    requires StrictlyRanked(kinds)
    ensures StrictlyRanked(Offending(kinds, proposed, current, used))
  {
    if |kinds| > 0 {
      var rest := Offending(kinds[1..], proposed, current, used);
      assert StrictlyRanked(kinds[1..]) by {
        forall i, j | 0 <= i < j < |kinds[1..]|
          ensures Rank(kinds[1..][i]) < Rank(kinds[1..][j])
        {
          assert kinds[1..][i] == kinds[i + 1] && kinds[1..][j] == kinds[j + 1];
        }
      }
      OffendingRanked(kinds[1..], proposed, current, used);
      if Lowered(kinds[0], proposed, current, used) {
        var r := [kinds[0]] + rest;
        forall i, j | 0 <= i < j < |r|
          ensures Rank(r[i]) < Rank(r[j])
        {
          if i == 0 {
            assert r[j] in rest;
            assert r[j] in kinds[1..];
            var m :| 0 <= m < |kinds[1..]| && kinds[1..][m] == r[j];
            assert kinds[m + 1] == r[j];
          } else {
            assert r[i] == rest[i - 1] && r[j] == rest[j - 1];
          }
        }
      }
    }
  }

  /** A strictly ranked list holds no kind twice. */
  lemma RankedHasNoRepeat(w: seq<Kind>, i: int, j: int)
    requires StrictlyRanked(w) && 0 <= i < j < |w|
    ensures w[i] in w && w[j] in w && w[i] != w[j]
  {
  }

  /** When exactly one checked kind is lowered, the report names just that kind. */
  lemma SingleOffender(proposed: Vec, current: Vec, used: Vec, k: Kind)
    requires k != Subdomains && Lowered(k, proposed, current, used)
    requires forall j :: j != k ==> !Lowered(j, proposed, current, used)
    ensures Warnings(proposed, current, used) == [k]
  {
    var w := Warnings(proposed, current, used);
    GuardRejectsExactly(proposed, current, used, k);
    WarningsInCheckOrder(proposed, current, used);
    assert |w| <= 1 by {
      if |w| >= 2 {
        RankedHasNoRepeat(w, 0, 1);
        assert false;
      }
    }
    assert k in w;
  }

  /** The guard's report lists every offending kind once, in the order of the checks. */
  lemma WarningsInCheckOrder(proposed: Vec, current: Vec, used: Vec)
    ensures StrictlyRanked(Warnings(proposed, current, used))
  {
    GuardedKindsRanked();
    OffendingRanked(GuardedKinds, proposed, current, used);
  }
}
