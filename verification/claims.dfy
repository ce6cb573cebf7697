/**
 Claims as the account factory sees them: (type, value) string pairs, the ordinal
 first-claim lookup used on the access token, and the case-insensitive role-claim
 match of GetMatchingRoleClaim.
 */
module Claims {
  import opened Wrappers

  /** A claim; `kind` is the claim type (`type` is reserved in Dafny). */
  datatype Claim = Claim(kind: string, value: string)

  /** String.IsNullOrEmpty, with null as None. */
  predicate IsNullOrEmpty(s: Option<string>)
  {
    s.None? || s.value == ""
  }

  /** ASCII lower-casing of one character: the case fold that stands in for the
      culture-invariant case-insensitive comparison. */
  function FoldChar(c: char): char
  {
    if 'A' <= c <= 'Z' then (c as int - 'A' as int + 'a' as int) as char else c
  }

  function Fold(s: string): (r: string)
    ensures |r| == |s|
  {
    seq(|s|, i requires 0 <= i < |s| => FoldChar(s[i]))
  }

  /** String.Equals(a, b, StringComparison.InvariantCultureIgnoreCase) on non-null strings. */
  predicate EqualsIgnoreCase(a: string, b: string)
  {
    Fold(a) == Fold(b)
  }

  /** The value of the first claim whose type is ordinally equal to `kind`, or None (null)
      when no claim has that type. */
  function FirstClaimValue(claims: seq<Claim>, kind: string): (r: Option<string>)
    ensures r.None? <==> forall i :: 0 <= i < |claims| ==> claims[i].kind != kind
    ensures r.Some? ==> exists i :: 0 <= i < |claims| && claims[i] == Claim(kind, r.value)
                          && forall j :: 0 <= j < i ==> claims[j].kind != kind
  {
    if claims == [] then None
    else if claims[0].kind == kind then Some(claims[0].value)
    else
      var r := FirstClaimValue(claims[1..], kind);
      assert forall i :: 1 <= i < |claims| ==> claims[i] == claims[1..][i - 1];
      r
  }

  /** The predicate of GetMatchingRoleClaim: the claim's type equals the identity's role
      claim type and its value equals the role, both ignoring case. */
  predicate IsMatchingRoleClaim(c: Claim, roleClaimType: string, role: string)
  {
    EqualsIgnoreCase(c.kind, roleClaimType) && EqualsIgnoreCase(c.value, role)
  }

  /** Some claim in `claims` matches `role` as a role claim. */
  predicate HasMatchingRoleClaim(claims: seq<Claim>, roleClaimType: string, role: string)
  {
    exists i :: 0 <= i < |claims| && IsMatchingRoleClaim(claims[i], roleClaimType, role)
  }

  /** GetMatchingRoleClaim: the first claim that matches `role` as a role claim, or None.
      A null role matches nothing, since String.Equals against null is false. */
  function FindMatchingRoleClaim(claims: seq<Claim>, roleClaimType: string, role: Option<string>)
    : (r: Option<Claim>)
    ensures r.None? <==> role.None? || !HasMatchingRoleClaim(claims, roleClaimType, role.value)
    ensures r.Some? ==> exists i :: 0 <= i < |claims| && claims[i] == r.value
                          && IsMatchingRoleClaim(claims[i], roleClaimType, role.value)
                          && forall j :: 0 <= j < i ==> !IsMatchingRoleClaim(claims[j], roleClaimType, role.value)
  {
    if role.None? || claims == [] then None
    else if IsMatchingRoleClaim(claims[0], roleClaimType, role.value) then Some(claims[0])
    else
      var r := FindMatchingRoleClaim(claims[1..], roleClaimType, role);
      assert forall i :: 1 <= i < |claims| ==> claims[i] == claims[1..][i - 1];
      r
  }

  /** A role-claim match in a concatenation is a match in one of its parts. */
  lemma HasMatchingRoleClaimAppend(a: seq<Claim>, b: seq<Claim>, roleClaimType: string, role: string)
    ensures HasMatchingRoleClaim(a + b, roleClaimType, role)
        <==> HasMatchingRoleClaim(a, roleClaimType, role) || HasMatchingRoleClaim(b, roleClaimType, role)
  {
    var ab := a + b;
    if HasMatchingRoleClaim(ab, roleClaimType, role) {
      var i :| 0 <= i < |ab| && IsMatchingRoleClaim(ab[i], roleClaimType, role);
      if i >= |a| {
        assert b[i - |a|] == ab[i];
      }
    }
    if HasMatchingRoleClaim(a, roleClaimType, role) {
      var i :| 0 <= i < |a| && IsMatchingRoleClaim(a[i], roleClaimType, role);
      assert ab[i] == a[i];
    }
    if HasMatchingRoleClaim(b, roleClaimType, role) {
      var i :| 0 <= i < |b| && IsMatchingRoleClaim(b[i], roleClaimType, role);
      assert ab[|a| + i] == b[i];
    }
  }

  /** A role-claim match survives extending the claim list. */
  lemma HasMatchingRoleClaimPrefix(a: seq<Claim>, b: seq<Claim>, roleClaimType: string, role: string)
    requires a <= b
    requires HasMatchingRoleClaim(a, roleClaimType, role)
    ensures HasMatchingRoleClaim(b, roleClaimType, role)
  {
    var i :| 0 <= i < |a| && IsMatchingRoleClaim(a[i], roleClaimType, role);
    assert b[i] == a[i];
  }
}
