/**
 Properties of the role loop of CreateUserAsync and its helper GetMatchingRoleClaim
 (BlazorAppWasmAuth/Auth/CustomAccountFactory.cs, lines 65-74 and 88-93), stated
 against a reference definition that says, for each position of the roles array on its
 own, whether that role is appended.
 */
module RoleProperties {
  import opened Wrappers
  import opened Claims
  import opened Json
  import opened AccountFactory

  /** The role element `role`, coming after `earlier` in the roles array, is appended to
      `existing`: it is a non-empty string, no existing claim matches it as a role claim,
      and no earlier string in the array equals it ignoring case. */
  predicate Introduces(existing: seq<Claim>, roleClaimType: string, earlier: seq<Json>, role: Json)
  {
    && role.JString? && role.str != ""
    && !HasMatchingRoleClaim(existing, roleClaimType, role.str)
    && forall e :: e in earlier && e.JString? ==> !EqualsIgnoreCase(e.str, role.str)
  }

  /** The role claims appended to `existing` for `roles`, position by position. */
  function Introduced(existing: seq<Claim>, roleClaimType: string, roles: seq<Json>): seq<Claim>
    decreases |roles|
  {
    if roles == [] then []
    else
      var n := |roles| - 1;
      Introduced(existing, roleClaimType, roles[..n])
        + (if Introduces(existing, roleClaimType, roles[..n], roles[n])
           then [Claim(roleClaimType, roles[n].str)] else [])
  }

  /** Every element of the roles array is a string or null, so GetString never throws. */
  predicate AllStringOrNull(roles: seq<Json>)
  {
    forall i :: 0 <= i < |roles| ==> GetString(roles[i]).Success?
  }

  /** Each introduced claim is a role claim for some string of the array. */
  lemma {:induction false} IntroducedFromRoles(existing: seq<Claim>, roleClaimType: string, roles: seq<Json>)
    ensures forall c :: c in Introduced(existing, roleClaimType, roles) ==>
              c.kind == roleClaimType && JString(c.value) in roles
    decreases |roles|
  {
    if roles != [] {
      var n := |roles| - 1;
      IntroducedFromRoles(existing, roleClaimType, roles[..n]);
      forall e | e in roles[..n] ensures e in roles { }
    }
  }

  /** After the reference additions, every non-empty string of the array is matched by a
      role claim. */
  lemma {:induction false} IntroducedCovers(existing: seq<Claim>, roleClaimType: string, roles: seq<Json>)
    ensures forall e :: e in roles && e.JString? && e.str != "" ==>
              HasMatchingRoleClaim(existing + Introduced(existing, roleClaimType, roles), roleClaimType, e.str)
    decreases |roles|
  {
    if roles != [] {
      var n := |roles| - 1;
      var before := existing + Introduced(existing, roleClaimType, roles[..n]);
      var after := existing + Introduced(existing, roleClaimType, roles);
      IntroducedCovers(existing, roleClaimType, roles[..n]);
      assert before <= after;
      forall e | e in roles && e.JString? && e.str != ""
        ensures HasMatchingRoleClaim(after, roleClaimType, e.str)
      {
        if e in roles[..n] {
          HasMatchingRoleClaimPrefix(before, after, roleClaimType, e.str);
        } else {
          assert e == roles[n];
          if Introduces(existing, roleClaimType, roles[..n], e) {
            assert IsMatchingRoleClaim(after[|after| - 1], roleClaimType, e.str);
          } else if HasMatchingRoleClaim(existing, roleClaimType, e.str) {
            HasMatchingRoleClaimPrefix(existing, after, roleClaimType, e.str);
          } else {
            var e' :| e' in roles[..n] && e'.JString? && EqualsIgnoreCase(e'.str, e.str);
            assert |e'.str| == |Fold(e'.str)| == |Fold(e.str)| == |e.str|;
            HasMatchingRoleClaimPrefix(before, after, roleClaimType, e'.str);
            var i :| 0 <= i < |after| && IsMatchingRoleClaim(after[i], roleClaimType, e'.str);
            assert IsMatchingRoleClaim(after[i], roleClaimType, e.str);
          }
        }
      }
    }
  }

  /** One iteration of the loop, applied to the claims the reference has produced for the
      first k roles, produces the reference's claims for the first k + 1. */
  lemma AddRoleStep(existing: seq<Claim>, roleClaimType: string, roles: seq<Json>, k: nat)
    requires k < |roles| && GetString(roles[k]).Success?
    ensures AddRole(existing + Introduced(existing, roleClaimType, roles[..k]), roleClaimType,
                    GetString(roles[k]).value)
         == existing + Introduced(existing, roleClaimType, roles[..k + 1])
  {
    var earlier := roles[..k];
    var claims := existing + Introduced(existing, roleClaimType, earlier);
    assert roles[..k + 1][..k] == earlier;
    var role := roles[k];
    if role.JString? && role.str != "" {
      var s := role.str;
      HasMatchingRoleClaimAppend(existing, Introduced(existing, roleClaimType, earlier), roleClaimType, s);
      if Introduces(existing, roleClaimType, earlier, role) {
        IntroducedFromRoles(existing, roleClaimType, earlier);
      } else if !HasMatchingRoleClaim(existing, roleClaimType, s) {
        var e :| e in earlier && e.JString? && EqualsIgnoreCase(e.str, s);
        assert |e.str| == |Fold(e.str)| == |Fold(s)| == |s|;
        IntroducedCovers(existing, roleClaimType, earlier);
        var i :| 0 <= i < |claims| && IsMatchingRoleClaim(claims[i], roleClaimType, e.str);
        assert IsMatchingRoleClaim(claims[i], roleClaimType, s);
      }
    }
  }

  /** Running the loop over the whole array equals running it over the rest of the array
      from the reference's claims for its first k elements. */
  lemma {:induction false} AddRolesPrefix(existing: seq<Claim>, roleClaimType: string, roles: seq<Json>, k: nat)
    requires k <= |roles| && AllStringOrNull(roles[..k])
    ensures AddRoles(existing, roleClaimType, roles)
         == AddRoles(existing + Introduced(existing, roleClaimType, roles[..k]), roleClaimType, roles[k..])
  {
    if k == 0 {
      assert roles[..0] == [] && roles[0..] == roles;
      assert existing + Introduced(existing, roleClaimType, []) == existing;
    } else {
      var j := k - 1;
      assert roles[..j] == roles[..k][..j];
      AddRolesPrefix(existing, roleClaimType, roles, j);
      assert roles[..k][j] == roles[j];
      AddRoleStep(existing, roleClaimType, roles, j);
      assert roles[j..][1..] == roles[k..];
    }
  }

  /** The loop appends exactly the reference's claims when every role is a string or null,
      and otherwise throws at the first other element, having appended the reference's
      claims for the elements before it. */
  lemma AddRolesMatchesReference(existing: seq<Claim>, roleClaimType: string, roles: seq<Json>)
    ensures AllStringOrNull(roles) ==>
              AddRoles(existing, roleClaimType, roles)
              == Returned(existing + Introduced(existing, roleClaimType, roles))
    ensures forall i :: 0 <= i < |roles| && AllStringOrNull(roles[..i]) && GetString(roles[i]).Failure? ==>
              AddRoles(existing, roleClaimType, roles)
              == Threw(RoleNotString, existing + Introduced(existing, roleClaimType, roles[..i]))
  {
    if AllStringOrNull(roles) {
      AddRolesPrefix(existing, roleClaimType, roles, |roles|);
      assert roles[..|roles|] == roles;
    }
    forall i | 0 <= i < |roles| && AllStringOrNull(roles[..i]) && GetString(roles[i]).Failure?
      ensures AddRoles(existing, roleClaimType, roles)
              == Threw(RoleNotString, existing + Introduced(existing, roleClaimType, roles[..i]))
    {
      AddRolesPrefix(existing, roleClaimType, roles, i);
      assert roles[i..][0] == roles[i];
    }
  }

  /** After a completed loop, every non-empty string of the array is matched by a role claim. */
  lemma {:induction false} AddRolesCovers(existing: seq<Claim>, roleClaimType: string, roles: seq<Json>)
    requires AddRoles(existing, roleClaimType, roles).Returned?
    ensures forall e :: e in roles && e.JString? && e.str != "" ==>
              HasMatchingRoleClaim(AddRoles(existing, roleClaimType, roles).state, roleClaimType, e.str)
  {
    AddRolesMatchesReference(existing, roleClaimType, roles);
    IntroducedCovers(existing, roleClaimType, roles);
  }

  /** The loop appends nothing when every role is a string or null and every non-empty
      string is already matched by a role claim. */
  lemma {:induction false} AddRolesNoOpWhenCovered(claims: seq<Claim>, roleClaimType: string, roles: seq<Json>)
    requires AllStringOrNull(roles)
    requires forall e :: e in roles && e.JString? && e.str != "" ==>
               HasMatchingRoleClaim(claims, roleClaimType, e.str)
    ensures AddRoles(claims, roleClaimType, roles) == Returned(claims)
    decreases |roles|
  {
    if roles != [] {
      assert roles[0] in roles;
      assert AddRole(claims, roleClaimType, GetString(roles[0]).value) == claims;
      forall e | e in roles[1..] ensures e in roles { }
      AddRolesNoOpWhenCovered(claims, roleClaimType, roles[1..]);
    }
  }

  /** Running the loop again on its own output with the same roles appends nothing. */
  lemma {:induction false} AddRolesIdempotent(claims: seq<Claim>, roleClaimType: string, roles: seq<Json>)
    requires AddRoles(claims, roleClaimType, roles).Returned?
    ensures var once := AddRoles(claims, roleClaimType, roles).state;
            AddRoles(once, roleClaimType, roles) == Returned(once)
  {
    AddRolesCovers(claims, roleClaimType, roles);
    AddRolesNoOpWhenCovered(AddRoles(claims, roleClaimType, roles).state, roleClaimType, roles);
  }

  /** No appended claim is matched, as a role claim, by any claim before it: neither the
      existing ones nor those appended earlier in the same loop. This holds whether the loop
      completes or throws. */
  lemma {:induction false} AddRolesAddsNoDuplicate(claims: seq<Claim>, roleClaimType: string, roles: seq<Json>)
    ensures var out := AddRoles(claims, roleClaimType, roles).state;
            forall k :: |claims| <= k < |out| ==> !HasMatchingRoleClaim(out[..k], roleClaimType, out[k].value)
    decreases |roles|
  {
    if roles != [] && GetString(roles[0]).Success? {
      var role := GetString(roles[0]).value;
      var next := AddRole(claims, roleClaimType, role);
      AddRolesAddsNoDuplicate(next, roleClaimType, roles[1..]);
      var out := AddRoles(claims, roleClaimType, roles).state;
      assert out == AddRoles(next, roleClaimType, roles[1..]).state;
      if next != claims {
        assert next <= out;
        assert out[..|claims|] == claims;
        assert out[|claims|] == next[|claims|] == Claim(roleClaimType, role.value);
      }
    }
  }
}
