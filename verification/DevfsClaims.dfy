/** Claims on devfs rulesets: devfsRulesetOwner and claimDevfsRuleset of daemon/privops_handlers.cpp. */
module DevfsClaims {

  datatype Claim = Claim(uid: nat, mountPath: string)

  datatype Owner = Nobody | OwnedBy(uid: nat)

  type Claims = map<nat, Claim>

  /** g_devfsClaims. `live` is the set of paths where a devfs is mounted at the time of the call. */
  class Registry {
    var claims: Claims

    constructor ()
      ensures claims == map[]
    {
      claims := map[];
    }

    /** devfsRulesetOwner; `empty` is what the probe of the ruleset's contents says. */
    method RulesetOwner(ruleset: nat, live: set<string>, empty: bool) returns (o: Owner)
      modifies this
      ensures claims == AfterLookup(old(claims), live, ruleset)
      ensures o == OwnerOf(old(claims), live, ruleset, empty)
    {
      if ruleset in claims {
        if claims[ruleset].mountPath in live {
          return OwnedBy(claims[ruleset].uid);
        }
        claims := claims - {ruleset};
        return Nobody;
      }
      return if empty then Nobody else OwnedBy(0);
    }

    /** claimDevfsRuleset. */
    method ClaimRuleset(ruleset: nat, uid: nat, path: string, force: bool, live: set<string>) returns (granted: bool)
      modifies this
      ensures granted == Grants(old(claims), live, ruleset, uid, force)
      ensures claims == if granted then old(claims)[ruleset := Claim(uid, path)] else old(claims)
    {
      if !force && ruleset in claims && claims[ruleset].uid != uid && claims[ruleset].mountPath in live {
        return false;
      }
      claims := claims[ruleset := Claim(uid, path)];
      return true;
    }
  }

  function AfterLookup(c: Claims, live: set<string>, ruleset: nat): Claims {
    if ruleset in c && c[ruleset].mountPath !in live then c - {ruleset} else c
  }

  function OwnerOf(c: Claims, live: set<string>, ruleset: nat, empty: bool): Owner {
    if ruleset in c then (if c[ruleset].mountPath in live then OwnedBy(c[ruleset].uid) else Nobody)
    else if empty then Nobody else OwnedBy(0)
  }

  predicate Grants(c: Claims, live: set<string>, ruleset: nat, uid: nat, force: bool) {
    force || ruleset !in c || c[ruleset].uid == uid || c[ruleset].mountPath !in live
  }

  // ---------- Interleavings ----------

  /** One locked step of some caller, or a change of the mounts. Callers' lookups and claims interleave freely. */
  datatype Event =
    | Lookup(ruleset: nat, empty: bool)
    | Take(ruleset: nat, uid: nat, path: string, force: bool)
    | Mount(path: string)
    | Unmount(path: string)

  datatype State = State(claims: Claims, live: set<string>)

  function Step(s: State, e: Event): State {
    match e
    case Lookup(r, _) => s.(claims := AfterLookup(s.claims, s.live, r))
    case Take(r, uid, path, force) =>
      if Grants(s.claims, s.live, r, uid, force) then s.(claims := s.claims[r := Claim(uid, path)]) else s
    case Mount(p) => s.(live := s.live + {p})
    case Unmount(p) => s.(live := s.live - {p})
  }

  /** The state before event `i`. */
  function At(s: State, es: seq<Event>, i: nat): State
    requires i <= |es|
  {
    if i == 0 then s else Step(At(s, es, i - 1), es[i - 1])
  }

  predicate StaysMounted(es: seq<Event>, from: nat, i: nat, p: string)
    requires i <= |es|
  {
    forall j :: from <= j < i ==> es[j] != Unmount(p)
  }

  /** A path is live exactly when it was mounted, or live at the start, and not unmounted since. */
  lemma {:induction false} LiveIff(s: State, es: seq<Event>, i: nat, p: string)
    requires i <= |es|
    ensures p in At(s, es, i).live <==>
      || (p in s.live && StaysMounted(es, 0, i, p))
      || exists k :: 0 <= k < i && es[k] == Mount(p) && StaysMounted(es, k, i, p)
  {
    if i > 0 {
      LiveIff(s, es, i - 1, p);
      if k :| 0 <= k < i - 1 && es[k] == Mount(p) && StaysMounted(es, k, i - 1, p) {
        assert es[i - 1] != Unmount(p) ==> StaysMounted(es, k, i, p);
      }
      if k :| 0 <= k < i && es[k] == Mount(p) && StaysMounted(es, k, i, p) {
        assert k < i - 1 ==> StaysMounted(es, k, i - 1, p);
      }
      if es[i - 1] == Mount(p) {
        assert StaysMounted(es, i - 1, i, p);
      }
    }
  }

  predicate GrantedAt(s: State, es: seq<Event>, i: nat, r: nat)
    requires i < |es|
  {
    es[i].Take? && es[i].ruleset == r && Grants(At(s, es, i).claims, At(s, es, i).live, r, es[i].uid, es[i].force)
  }

  /** Event `i` looks at claim `c` of ruleset `r` and finds its mount gone. */
  predicate SeesDead(s: State, es: seq<Event>, i: nat, r: nat, c: Claim)
    requires i < |es|
  {
    var now := At(s, es, i);
    && (es[i].Lookup? || es[i].Take?) && es[i].ruleset == r
    && r in now.claims && now.claims[r] == c && c.mountPath !in now.live
  }

  /** A granted claim stays until the next grant, unless a lookup finds its mount gone. */
  lemma {:induction false} ClaimHolds(s: State, es: seq<Event>, a: nat, i: nat, r: nat)
    requires a < i <= |es| && GrantedAt(s, es, a, r)
    requires forall k :: a < k < i ==> !GrantedAt(s, es, k, r)
    requires forall k :: a < k < i ==> !SeesDead(s, es, k, r, Claim(es[a].uid, es[a].path))
    ensures r in At(s, es, i).claims && At(s, es, i).claims[r] == Claim(es[a].uid, es[a].path)
  {
    if i > a + 1 {
      ClaimHolds(s, es, a, i - 1, r);
      assert !GrantedAt(s, es, i - 1, r) && !SeesDead(s, es, i - 1, r, Claim(es[a].uid, es[a].path));
    }
  }

  /**
   Two consecutive grants of one ruleset to different users, the second not forced: somewhere in
   between, or at the second claim itself, the first one's mount was seen not live.
   */
  lemma TakeoverSawDeadMount(s: State, es: seq<Event>, a: nat, b: nat, r: nat)
    requires a < b < |es| && GrantedAt(s, es, a, r) && GrantedAt(s, es, b, r)
    requires forall k :: a < k < b ==> !GrantedAt(s, es, k, r)
    requires es[a].uid != es[b].uid && !es[b].force
    ensures exists k :: a < k <= b && SeesDead(s, es, k, r, Claim(es[a].uid, es[a].path))
  {
    var c := Claim(es[a].uid, es[a].path);
    if forall k :: a < k < b ==> !SeesDead(s, es, k, r, c) {
      ClaimHolds(s, es, a, b, r);
      assert SeesDead(s, es, b, r, c);
    }
  }

  /** A claim dropped by a lookup stays away until the next grant. */
  lemma {:induction false} DroppedStaysAway(s: State, es: seq<Event>, k: nat, i: nat, r: nat)
    requires k < i <= |es| && es[k].Lookup? && es[k].ruleset == r
    requires r in At(s, es, k).claims && At(s, es, k).claims[r].mountPath !in At(s, es, k).live
    requires forall m :: k < m < i ==> !GrantedAt(s, es, m, r)
    ensures r !in At(s, es, i).claims
  {
    if i > k + 1 {
      DroppedStaysAway(s, es, k, i - 1, r);
      assert !GrantedAt(s, es, i - 1, r);
    }
  }

  /**
   Exactly when a claim is taken over: after a grant, the next unforced claim of the ruleset by
   another user is granted if and only if somewhere in between, or at that claim itself, the
   first one's mount is seen not live.
   */
  lemma {:induction false} TakeoverIff(s: State, es: seq<Event>, a: nat, b: nat, r: nat)
    requires a < b < |es| && GrantedAt(s, es, a, r) && es[b].Take? && es[b].ruleset == r
    requires forall k :: a < k < b ==> !GrantedAt(s, es, k, r)
    requires es[a].uid != es[b].uid && !es[b].force
    ensures GrantedAt(s, es, b, r) <==>
      exists k :: a < k <= b && SeesDead(s, es, k, r, Claim(es[a].uid, es[a].path))
  {
    var c := Claim(es[a].uid, es[a].path);
    if GrantedAt(s, es, b, r) {
      TakeoverSawDeadMount(s, es, a, b, r);
    }
    if k :| a < k <= b && SeesDead(s, es, k, r, c) {
      if k < b {
        assert !GrantedAt(s, es, k, r);
        DroppedStaysAway(s, es, k, b, r);
      }
    }
  }

  /** So a claim whose mount is live at every look is not taken over by an unforced claim of another user. */
  lemma LiveClaimIsSafe(s: State, es: seq<Event>, a: nat, b: nat, r: nat)
    requires a < b < |es| && GrantedAt(s, es, a, r) && es[b].Take? && es[b].ruleset == r
    requires forall k :: a < k < b ==> !GrantedAt(s, es, k, r)
    requires es[a].uid != es[b].uid && !es[b].force
    requires forall k :: a < k <= b ==> es[a].path in At(s, es, k).live
    ensures !GrantedAt(s, es, b, r)
  {
    if GrantedAt(s, es, b, r) {
      TakeoverSawDeadMount(s, es, a, b, r);
    }
  }

  /**
   Two users who both look up a free ruleset before either claims it: the second is granted it
   as well if and only if the path in the first one's request is not a live devfs mount.
   */
  lemma {:induction false} RaceIff(s: State, r: nat, u: nat, v: nat, p: string, q: string)
    requires u != v && r !in s.claims
    ensures var es := [Lookup(r, true), Lookup(r, true), Take(r, u, p, false), Take(r, v, q, false)];
      && (forall i :: 0 <= i < 2 ==> OwnerOf(At(s, es, i).claims, At(s, es, i).live, r, true) == Nobody)
      && GrantedAt(s, es, 2, r)
      && (GrantedAt(s, es, 3, r) <==> p !in s.live)
  {
    var es := [Lookup(r, true), Lookup(r, true), Take(r, u, p, false), Take(r, v, q, false)];
    assert At(s, es, 1) == s;
    assert At(s, es, 2) == s;
    assert At(s, es, 3) == State(s.claims[r := Claim(u, p)], s.live);
  }

  // ---------- What a lookup answers ----------

  /**
   From a grant to the next one, as long as no look finds the mount gone, a lookup answers the
   holder's uid while the mount is live and nobody when it is gone, whatever the ruleset holds.
   */
  lemma OwnerIsHolder(s: State, es: seq<Event>, a: nat, i: nat, r: nat, empty: bool)
    requires a < i <= |es| && GrantedAt(s, es, a, r)
    requires forall k :: a < k < i ==> !GrantedAt(s, es, k, r)
    requires forall k :: a < k < i ==> !SeesDead(s, es, k, r, Claim(es[a].uid, es[a].path))
    ensures OwnerOf(At(s, es, i).claims, At(s, es, i).live, r, empty) ==
      if es[a].path in At(s, es, i).live then OwnedBy(es[a].uid) else Nobody
  {
    ClaimHolds(s, es, a, i, r);
  }

  lemma {:induction false} NeverGranted(s: State, es: seq<Event>, i: nat, r: nat)
    requires i <= |es| && r !in s.claims && forall k :: 0 <= k < i ==> !GrantedAt(s, es, k, r)
    ensures r !in At(s, es, i).claims
  {
    if i > 0 {
      NeverGranted(s, es, i - 1, r);
      assert !GrantedAt(s, es, i - 1, r);
    }
  }

  /** A ruleset that was never granted is free when it is empty and root's when it is not. */
  lemma UnclaimedOwner(s: State, es: seq<Event>, i: nat, r: nat, empty: bool)
    requires i <= |es| && r !in s.claims && forall k :: 0 <= k < i ==> !GrantedAt(s, es, k, r)
    ensures OwnerOf(At(s, es, i).claims, At(s, es, i).live, r, empty) == if empty then Nobody else OwnedBy(0)
  {
    NeverGranted(s, es, i, r);
  }

  /** So is one whose claim a lookup dropped, until the next grant. */
  lemma DroppedOwner(s: State, es: seq<Event>, k: nat, i: nat, r: nat, empty: bool)
    requires k < i <= |es| && es[k].Lookup? && es[k].ruleset == r
    requires r in At(s, es, k).claims && At(s, es, k).claims[r].mountPath !in At(s, es, k).live
    requires forall m :: k < m < i ==> !GrantedAt(s, es, m, r)
    ensures OwnerOf(At(s, es, i).claims, At(s, es, i).live, r, empty) == if empty then Nobody else OwnedBy(0)
  {
    DroppedStaysAway(s, es, k, i, r);
  }
}
