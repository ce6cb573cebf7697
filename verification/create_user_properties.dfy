/**
 Properties of the whole augmentation step (CreateUserAsync after the base factory,
 lines 36-76 of BlazorAppWasmAuth/Auth/CustomAccountFactory.cs): which token shapes leave the principal alone, which throw, what a
 successful run appends, and that a second run appends nothing.
 */
module CreateUserProperties {
  import opened Wrappers
  import opened Claims
  import opened Json
  import opened AccountFactory
  import opened RoleProperties

  /** The principal holds an authenticated ClaimsIdentity, the only kind the step augments. */
  predicate Augmentable(user: Principal)
  {
    user.identity.Some? && user.identity.value.ClaimsIdentity? && user.identity.value.isAuthenticated
  }

  /** `user` with its identity's claims replaced by `claims`. */
  function WithClaims(user: Principal, claims: seq<Claim>): Principal
    requires Augmentable(user)
  {
    Principal(Some(user.identity.value.(claims := claims)))
  }

  /** How the step ends for an augmentable principal and an available token, by the shape
      of the token: the checks run in source order, so a missing `resource_access` is a
      silent no-op even when `azp` is missing too. */
  lemma CreateUserByToken(user: Principal, payload: seq<Claim>, parse: string -> Option<Json>)
    requires Augmentable(user)
    ensures var r := CreateUser(user, TokenAvailable(payload), parse);
            var resourceAccess := FirstClaimValue(payload, ResourceAccessClaim);
            var azp := FirstClaimValue(payload, AuthorizedPartyClaim);
            && (IsNullOrEmpty(resourceAccess) ==> r == Returned(user))
            && (!IsNullOrEmpty(resourceAccess) && IsNullOrEmpty(azp) ==> r == Threw(AzpMissing, user))
            && (!IsNullOrEmpty(resourceAccess) && !IsNullOrEmpty(azp) ==>
                 match parse(resourceAccess.value)
                 case None => r == Threw(ResourceAccessMalformed, user)
                 case Some(JObject(props)) =>
                   if azp.value !in props then r == Threw(ResourceEntryMissing(azp.value), user)
                   else if !props[azp.value].JObject? || RolesProperty !in props[azp.value].props
                   then r == Threw(RolesPropertyMissing, user)
                   else if !props[azp.value].props[RolesProperty].JArray?
                   then r == Threw(RolesNotArray, user)
                   else r == (match AddRoles(ClaimsOf(user), user.identity.value.roleClaimType,
                                             props[azp.value].props[RolesProperty].items)
                              case Returned(cs) => Returned(WithClaims(user, cs))
                              case Threw(e, cs) => Threw(e, WithClaims(user, cs)))
                 case Some(_) => r == Threw(ResourceAccessNotObject, user))
  {
  }

  /** When the step reaches the roles array and every element is a string or null, it
      returns the principal with exactly the reference's role claims appended. */
  lemma CreateUserAppendsIntroduced(user: Principal, payload: seq<Claim>, parse: string -> Option<Json>)
    requires Augmentable(user)
    requires LocateRoles(payload, parse).Success? && LocateRoles(payload, parse).value.Some?
    requires AllStringOrNull(LocateRoles(payload, parse).value.value)
    ensures var id := user.identity.value;
            var roles := LocateRoles(payload, parse).value.value;
            CreateUser(user, TokenAvailable(payload), parse)
            == Returned(WithClaims(user, id.claims + Introduced(id.claims, id.roleClaimType, roles)))
  {
    var id := user.identity.value;
    AddRolesMatchesReference(id.claims, id.roleClaimType, LocateRoles(payload, parse).value.value);
  }

  /** After a successful step that reached the roles array, every non-empty role in it is
      matched by a role claim of the returned identity, and no appended claim duplicates,
      ignoring case, a claim before it. */
  lemma {:induction false} CreateUserCovers(user: Principal, payload: seq<Claim>, parse: string -> Option<Json>)
    requires Augmentable(user)
    requires CreateUser(user, TokenAvailable(payload), parse).Returned?
    requires LocateRoles(payload, parse).Success? && LocateRoles(payload, parse).value.Some?
    ensures var id := user.identity.value;
            var out := ClaimsOf(CreateUser(user, TokenAvailable(payload), parse).state);
            && (forall e :: e in LocateRoles(payload, parse).value.value && e.JString? && e.str != "" ==>
                  HasMatchingRoleClaim(out, id.roleClaimType, e.str))
            && (forall k :: |id.claims| <= k < |out| ==>
                  !HasMatchingRoleClaim(out[..k], id.roleClaimType, out[k].value))
  {
    var id := user.identity.value;
    var roles := LocateRoles(payload, parse).value.value;
    AddRolesCovers(id.claims, id.roleClaimType, roles);
    AddRolesAddsNoDuplicate(id.claims, id.roleClaimType, roles);
  }

  /** Running the step a second time, on its own result and with the same token, returns
      that result unchanged. */
  lemma {:induction false} CreateUserIdempotent(user: Principal, token: AccessTokenResult, parse: string -> Option<Json>)
    requires CreateUser(user, token, parse).Returned?
    ensures var once := CreateUser(user, token, parse).state;
            CreateUser(once, token, parse) == Returned(once)
  {
    if Augmentable(user) && token.TokenAvailable? {
      var located := LocateRoles(token.payload, parse);
      if located.Success? && located.value.Some? {
        var id := user.identity.value;
        AddRolesIdempotent(id.claims, id.roleClaimType, located.value.value);
      }
    }
  }

  /** A sample token: `resource_access` grants the client "my-client" the roles "editor"
      then "viewer", and `azp` names that client. */
  const ExampleResourceAccess := "{\"my-client\":{\"roles\":[\"editor\",\"viewer\"]}}"
  const ExampleRoles := [JString("editor"), JString("viewer")]
  const ExamplePayload := [Claim("azp", "my-client"), Claim("resource_access", ExampleResourceAccess)]

  /** A parser that knows only the sample token's `resource_access` document. */
  function ExampleParse(s: string): Option<Json>
  {
    if s == ExampleResourceAccess
    then Some(JObject(map["my-client" := JObject(map["roles" := JArray(ExampleRoles)])]))
    else None
  }

  /** The sample token leads to the roles array ["editor", "viewer"]. */
  lemma ExampleLocatesRoles()
    ensures LocateRoles(ExamplePayload, ExampleParse) == Success(Some(ExampleRoles))
  {
    assert FirstClaimValue(ExamplePayload, ResourceAccessClaim) == Some(ExampleResourceAccess);
    assert FirstClaimValue(ExamplePayload, AuthorizedPartyClaim) == Some("my-client");
  }

  /** The role-claim matches the two sample runs rely on: "EDITOR" matches "editor", and no
      other pair of their values matches. */
  lemma ExampleMatches()
    ensures !IsMatchingRoleClaim(Claim("name", "ana"), "role", "editor")
    ensures !IsMatchingRoleClaim(Claim("name", "ana"), "role", "viewer")
    ensures !IsMatchingRoleClaim(Claim("role", "editor"), "role", "viewer")
    ensures !IsMatchingRoleClaim(Claim("role", "EDITOR"), "role", "viewer")
    ensures IsMatchingRoleClaim(Claim("role", "EDITOR"), "role", "editor")
  {
    assert Fold("ana")[0] != Fold("editor")[0];
    assert Fold("editor")[0] != Fold("viewer")[0];
    assert Fold("EDITOR") == Fold("editor");
  }

  /** The loop for the sample roles on a principal whose only claim is ("name", "ana"). */
  lemma ExampleLoopFresh()
    ensures AddRoles([Claim("name", "ana")], "role", ExampleRoles)
            == Returned([Claim("name", "ana"), Claim("role", "editor"), Claim("role", "viewer")])
  {
    ExampleMatches();
    var c0 := [Claim("name", "ana")];
    var c1 := c0 + [Claim("role", "editor")];
    var c2 := c1 + [Claim("role", "viewer")];
    assert !HasMatchingRoleClaim(c0, "role", "editor");
    assert AddRole(c0, "role", Some("editor")) == c1;
    assert !HasMatchingRoleClaim(c1, "role", "viewer");
    assert AddRole(c1, "role", Some("viewer")) == c2;
    assert AddRoles(c1, "role", [JString("viewer")]) == AddRoles(c2, "role", []) == Returned(c2);
    assert ExampleRoles[1..] == [JString("viewer")];
    assert AddRoles(c0, "role", ExampleRoles) == AddRoles(c1, "role", ExampleRoles[1..]);
    assert c2 == [Claim("name", "ana"), Claim("role", "editor"), Claim("role", "viewer")];
  }

  /** The loop for the sample roles on a principal holding ("role", "EDITOR"). */
  lemma ExampleLoopExisting()
    ensures AddRoles([Claim("role", "EDITOR")], "role", ExampleRoles)
            == Returned([Claim("role", "EDITOR"), Claim("role", "viewer")])
  {
    ExampleMatches();
    var c0 := [Claim("role", "EDITOR")];
    var c1 := c0 + [Claim("role", "viewer")];
    assert AddRole(c0, "role", Some("editor")) == c0;
    assert !HasMatchingRoleClaim(c0, "role", "viewer");
    assert AddRole(c0, "role", Some("viewer")) == c1;
    assert AddRoles(c0, "role", [JString("viewer")]) == AddRoles(c1, "role", []) == Returned(c1);
    assert ExampleRoles[1..] == [JString("viewer")];
    assert AddRoles(c0, "role", ExampleRoles) == AddRoles(c0, "role", ExampleRoles[1..]);
    assert c1 == [Claim("role", "EDITOR"), Claim("role", "viewer")];
  }

  /** A principal with no role claims, given the sample token granting "editor" then
      "viewer", gains exactly ("role", "editor") then ("role", "viewer"), after its own claims. */
  lemma ExampleRolesAppendedInOrder()
    ensures CreateUser(Principal(Some(ClaimsIdentity(true, "role", [Claim("name", "ana")]))),
                       TokenAvailable(ExamplePayload), ExampleParse)
            == Returned(Principal(Some(ClaimsIdentity(true, "role",
                 [Claim("name", "ana"), Claim("role", "editor"), Claim("role", "viewer")]))))
  {
    ExampleLocatesRoles();
    ExampleLoopFresh();
  }

  /** A principal holding ("role", "EDITOR"), given the sample token granting "editor" then
      "viewer": the existing claim keeps "editor" from being appended again; only "viewer" is added. */
  lemma ExampleCaseVariantNotDuplicated()
    ensures CreateUser(Principal(Some(ClaimsIdentity(true, "role", [Claim("role", "EDITOR")]))),
                       TokenAvailable(ExamplePayload), ExampleParse)
            == Returned(Principal(Some(ClaimsIdentity(true, "role",
                 [Claim("role", "EDITOR"), Claim("role", "viewer")]))))
  {
    ExampleLocatesRoles();
    ExampleLoopExisting();
  }
}
