/**
 The claims-augmentation step of CustomAccountFactory.CreateUserAsync
 (BlazorAppWasmAuth/Auth/CustomAccountFactory.cs; line numbers below refer to that file):
 after the base
 factory has built the principal, read the access token's `resource_access` and `azp`
 claims, find the roles the token grants to its own client, and append each missing one
 to the identity as a role claim.

 The identity's claim collection is mutated in place and failures are exceptions. Both are
 modelled by Outcome: the state the object is in when control leaves the method, and the
 exception, if one escapes.
 */
module AccountFactory {
  import opened Wrappers
  import opened Claims
  import opened Json

  /** The exceptions CreateUserAsync raises, one per throwing site. */
  datatype AuthError =
    | IdentityCastFailed           // the identity is not a ClaimsIdentity
    | TokenNotProvisioned          // the token provider returned no access token
    | AzpMissing                   // `resource_access` present but `azp` null or empty
    | ResourceAccessMalformed      // JsonDocument.Parse rejected the `resource_access` value
    | ResourceAccessNotObject      // TryGetProperty on a root that is not an object
    | ResourceEntryMissing(azp: string)  // no property named by `azp`
    | RolesPropertyMissing         // GetProperty("roles") on a non-object or without "roles"
    | RolesNotArray                // EnumerateArray on a "roles" value that is not an array
    | RoleNotString                // GetString on a role element that is neither string nor null

  /** The principal's primary identity. Only a ClaimsIdentity carries claims and a role
      claim type; `isAuthenticated` is IIdentity.IsAuthenticated. */
  datatype Identity =
    | ClaimsIdentity(isAuthenticated: bool, roleClaimType: string, claims: seq<Claim>)
    | OtherIdentity(isAuthenticated: bool)

  /** A ClaimsPrincipal, reduced to its primary identity (null when absent). */
  datatype Principal = Principal(identity: Option<Identity>)

  /** What the access-token provider hands back: no token, or one whose payload the JWT
      handler has decoded into its claims, in order. */
  datatype AccessTokenResult = TokenUnavailable | TokenAvailable(payload: seq<Claim>)

  /** How control leaves a step that mutates `state` in place and may throw. */
  datatype Outcome<T> = Returned(state: T) | Threw(error: AuthError, state: T)

  const ResourceAccessClaim := "resource_access"
  const AuthorizedPartyClaim := "azp"
  const RolesProperty := "roles"

  /** The claims of a principal's identity; none unless it is a ClaimsIdentity. */
  function ClaimsOf(p: Principal): seq<Claim>
  {
    if p.identity.Some? && p.identity.value.ClaimsIdentity? then p.identity.value.claims else []
  }

  /** `after` is `before` with role claims of non-empty value appended to its identity and
      nothing else changed. */
  ghost predicate AppendsRoleClaims(before: Principal, after: Principal)
  {
    if before.identity.Some? && before.identity.value.ClaimsIdentity? then
      var id := before.identity.value;
      && after == Principal(Some(id.(claims := ClaimsOf(after))))
      && id.claims <= ClaimsOf(after)
      && forall k :: |id.claims| <= k < |ClaimsOf(after)| ==>
           ClaimsOf(after)[k].kind == id.roleClaimType && ClaimsOf(after)[k].value != ""
    else
      after == before
  }

  /** Lines 48-63: find the roles array the token grants to its authorized party.
      Success(None) is the early return of line 52; a failure is the exception thrown. */
  function LocateRoles(payload: seq<Claim>, parse: string -> Option<Json>)
    : (r: Result<Option<seq<Json>>, AuthError>)
    ensures IsNullOrEmpty(FirstClaimValue(payload, ResourceAccessClaim)) <==> r == Success(None)
    ensures (!IsNullOrEmpty(FirstClaimValue(payload, ResourceAccessClaim))
             && IsNullOrEmpty(FirstClaimValue(payload, AuthorizedPartyClaim))) ==> r == Failure(AzpMissing)
    ensures r.Success? && r.value.Some? ==>
              var azp := FirstClaimValue(payload, AuthorizedPartyClaim);
              var root := parse(FirstClaimValue(payload, ResourceAccessClaim).value);
              && azp.Some? && azp.value != "" && root.Some? && root.value.JObject?
              && azp.value in root.value.props
              && root.value.props[azp.value].JObject?
              && RolesProperty in root.value.props[azp.value].props
              && root.value.props[azp.value].props[RolesProperty] == JArray(r.value.value)
  {
    var resourceAccessValues := FirstClaimValue(payload, ResourceAccessClaim);
    var azp := FirstClaimValue(payload, AuthorizedPartyClaim);
    if IsNullOrEmpty(resourceAccessValues) then Success(None)
    else if IsNullOrEmpty(azp) then Failure(AzpMissing)
    else match parse(resourceAccessValues.value)
      case None => Failure(ResourceAccessMalformed)
      case Some(root) =>
        match TryGetProperty(root, azp.value)
        case Failure(_) => Failure(ResourceAccessNotObject)
        case Success(None) => Failure(ResourceEntryMissing(azp.value))
        case Success(Some(resourceValues)) =>
          match GetProperty(resourceValues, RolesProperty)
          case Failure(_) => Failure(RolesPropertyMissing)
          case Success(rolesValues) =>
            match EnumerateArray(rolesValues)
            case Failure(_) => Failure(RolesNotArray)
            case Success(roles) => Success(Some(roles))
  }

  /** One iteration of the loop at lines 65-74, for a role already read by GetString:
      append (RoleClaimType, role) unless a matching role claim exists or the role is null
      or empty. */
  function AddRole(claims: seq<Claim>, roleClaimType: string, role: Option<string>): (r: seq<Claim>)
    ensures r != claims <==>
              !IsNullOrEmpty(role) && !HasMatchingRoleClaim(claims, roleClaimType, role.value)
    ensures r != claims ==> r == claims + [Claim(roleClaimType, role.value)]
    ensures !IsNullOrEmpty(role) ==> HasMatchingRoleClaim(r, roleClaimType, role.value)
  {
    var matchingClaim := FindMatchingRoleClaim(claims, roleClaimType, role);
    if matchingClaim.None? && !IsNullOrEmpty(role) then
      var r := claims + [Claim(roleClaimType, role.value)];
      assert IsMatchingRoleClaim(r[|claims|], roleClaimType, role.value);
      r
    else claims
  }

  /** The loop at lines 65-74 over the elements of the roles array, in order. It stops with
      RoleNotString at the first element that is neither a string nor null, keeping the
      claims appended before it. */
  function AddRoles(claims: seq<Claim>, roleClaimType: string, roles: seq<Json>): (r: Outcome<seq<Claim>>)
    ensures claims <= r.state
    ensures forall k :: |claims| <= k < |r.state| ==>
              r.state[k].kind == roleClaimType && r.state[k].value != ""
    ensures r.Threw? <==> exists i :: 0 <= i < |roles| && GetString(roles[i]).Failure?
    ensures r.Threw? ==> r.error == RoleNotString
    decreases |roles|
  {
    if roles == [] then Returned(claims)
    else match GetString(roles[0])
      case Failure(_) => Threw(RoleNotString, claims)
      case Success(roleValue) =>
        var r := AddRoles(AddRole(claims, roleClaimType, roleValue), roleClaimType, roles[1..]);
        assert forall i :: 1 <= i < |roles| ==> roles[i] == roles[1..][i - 1];
        r
  }

  /** CreateUserAsync after `base.CreateUserAsync` has produced `user` (lines 36-76).
      The token provider's answer and the JSON parser are parameters: `parse` returns None
      where JsonDocument.Parse would throw. */
  function CreateUser(user: Principal, token: AccessTokenResult, parse: string -> Option<Json>)
    : (r: Outcome<Principal>)
    ensures user.identity.None? || !user.identity.value.isAuthenticated ==> r == Returned(user)
    ensures user.identity.Some? && user.identity.value.isAuthenticated ==>
              && (user.identity.value.OtherIdentity? ==> r == Threw(IdentityCastFailed, user))
              && (user.identity.value.ClaimsIdentity? && token.TokenUnavailable? ==>
                    r == Threw(TokenNotProvisioned, user))
    ensures AppendsRoleClaims(user, r.state)
    ensures r.Threw? && r.error != RoleNotString ==> r.state == user
  {
    match user.identity
    case None => Returned(user)
    case Some(identity) =>
      if !identity.isAuthenticated then Returned(user)
      else if !identity.ClaimsIdentity? then Threw(IdentityCastFailed, user)
      else match token
        case TokenUnavailable => Threw(TokenNotProvisioned, user)
        case TokenAvailable(payload) =>
          match LocateRoles(payload, parse)
          case Failure(e) => Threw(e, user)
          case Success(None) => Returned(user)
          case Success(Some(roles)) =>
            match AddRoles(identity.claims, identity.roleClaimType, roles)
            case Returned(claims) => Returned(Principal(Some(identity.(claims := claims))))
            case Threw(e, claims) => Threw(e, Principal(Some(identity.(claims := claims))))
  }
}
