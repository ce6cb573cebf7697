# Role-claim augmentation of a Blazor WebAssembly account factory

This project models the one piece of original logic in `BlazorAppWasmAuth`:
`CustomAccountFactory.CreateUserAsync`. It runs after the framework's base factory has
built the signed-in user's `ClaimsPrincipal`. It reads the Keycloak-style
`resource_access` claim and the `azp` (authorized party) claim of the access token. It
finds the roles that `resource_access` grants to the token's own client. Each role that
the identity does not already hold is appended as a role claim. The match ignores case.
The helper `GetMatchingRoleClaim` does that match.

Modules:

- `Wrappers`: `Option` and `Result`.
- `Claims`: the `Claim` (type, value) pair and `String.IsNullOrEmpty`.
  Also the ordinal first-claim lookup on the token (`FirstClaimValue`).
  Also the case-insensitive role-claim match (`IsMatchingRoleClaim`, `FindMatchingRoleClaim`).
  Case is folded by ASCII lower-casing.
- `Json`: a parsed JSON value. Also the `JsonElement` accessors the factory uses:
  `TryGetProperty`, `GetProperty`, `EnumerateArray` and `GetString`, each with its exception.
- `AccountFactory`: identities, principals, the token result and the error taxonomy.
  Also the step itself: `LocateRoles` for lines 48-63, `AddRole`/`AddRoles` for the loop
  at lines 65-74, and `CreateUser` for lines 36-76.
  The identity is mutated in place and failures are exceptions. `Outcome<T>` records
  both: `Returned(state)`, or `Threw(error, state)`. `state` is the object's state when
  control leaves the method.
- `RoleProperties`: a reference definition, `Introduced`, that says for each position of
  the roles array whether that role is appended. It does not mention the loop state.
  The lemmas prove that the loop equals this reference. They also prove that the loop
  covers every role, never appends a duplicate, and is idempotent.
- `CreateUserProperties`: the same properties for the whole step. Also how each token
  shape ends. Two concrete runs: a principal without role claims given roles `editor` then
  `viewer`, and a principal already holding `(role, EDITOR)` given the same roles.

## Model

| member | source | states |
|---|---|---|
| `Claims.FirstClaimValue` | BlazorAppWasmAuth/Auth/CustomAccountFactory.cs:48-49 | The result is null exactly when no token claim has the type (ordinal comparison). Otherwise it is the value of the first claim of that type. |
| `Claims.FindMatchingRoleClaim` | BlazorAppWasmAuth/Auth/CustomAccountFactory.cs:88-93 | Returns no claim exactly when the role is null or no claim matches it. A match means the type equals the role claim type and the value equals the role, both ignoring case. Otherwise it returns the first matching claim. |
| `AccountFactory.LocateRoles` | BlazorAppWasmAuth/Auth/CustomAccountFactory.cs:48-63 | A null or empty `resource_access` is exactly the silent early return, whatever `azp` is. If `resource_access` is present and `azp` is null or empty, it fails with `AzpMissing`. A roles array is returned only when the parsed object has an object entry for `azp` whose `roles` property is that array. |
| `AccountFactory.AddRole` | BlazorAppWasmAuth/Auth/CustomAccountFactory.cs:67-73 | One iteration changes the claims exactly when the role is non-empty and no role claim matches it ignoring case. The change appends `(RoleClaimType, role)`. Afterwards a non-empty role is always matched. |
| `AccountFactory.AddRoles` | BlazorAppWasmAuth/Auth/CustomAccountFactory.cs:65-74 | The input claims stay a prefix of the result. Every appended claim has the role claim type and a non-empty value. The loop throws `RoleNotString` exactly when some element is neither a string nor null. |
| `AccountFactory.CreateUser` | BlazorAppWasmAuth/Auth/CustomAccountFactory.cs:32-77 | Returns the principal untouched when there is no identity or it is not authenticated. Throws `IdentityCastFailed` for a non-claims identity and `TokenNotProvisioned` without a token. Only role claims are ever appended, and nothing is removed or reordered. Every failure except `RoleNotString` leaves the principal unchanged. |
| `RoleProperties.IntroducedFromRoles` | BlazorAppWasmAuth/Auth/CustomAccountFactory.cs:65-74 | Every claim the reference appends has the role claim type and a value that is a string of the roles array. |
| `RoleProperties.IntroducedCovers` | BlazorAppWasmAuth/Auth/CustomAccountFactory.cs:65-74 | After the reference's additions, every non-empty string role is matched by a role claim, ignoring case. This includes roles skipped as case variants of earlier ones. |
| `RoleProperties.AddRoleStep` | BlazorAppWasmAuth/Auth/CustomAccountFactory.cs:67-73 | Claims appended earlier in the same loop count as present. One iteration on the reference's claims for the first k roles gives the reference's claims for k + 1 roles. |
| `RoleProperties.AddRolesPrefix` | BlazorAppWasmAuth/Auth/CustomAccountFactory.cs:65-74 | Running the loop over the whole array equals running it over the rest of the array, starting from the reference's claims for the first k string-or-null elements. |
| `RoleProperties.AddRolesMatchesReference` | BlazorAppWasmAuth/Auth/CustomAccountFactory.cs:65-74 | If every element is a string or null, the loop returns the input followed by exactly the reference's role claims, in array order. Otherwise it throws at the first other element, keeping the claims appended for the elements before it. |
| `RoleProperties.AddRolesCovers` | BlazorAppWasmAuth/Auth/CustomAccountFactory.cs:65-74 | After a completed loop, every non-empty string role is matched by some role claim, ignoring case. |
| `RoleProperties.AddRolesNoOpWhenCovered` | BlazorAppWasmAuth/Auth/CustomAccountFactory.cs:68-72 | If every role is a string or null and every non-empty one is already matched, the loop appends nothing. |
| `RoleProperties.AddRolesIdempotent` | BlazorAppWasmAuth/Auth/CustomAccountFactory.cs:65-74 | Running the loop again on its own output with the same roles returns that output unchanged. |
| `RoleProperties.AddRolesAddsNoDuplicate` | BlazorAppWasmAuth/Auth/CustomAccountFactory.cs:88-93 | No appended claim is matched as a role claim by any claim before it, ignoring case. This covers both the existing claims and those appended earlier in the same loop. It holds whether the loop completes or throws. |
| `CreateUserProperties.CreateUserByToken` | BlazorAppWasmAuth/Auth/CustomAccountFactory.cs:48-65 | For an authenticated claims identity, the outcome is given by the token's shape, in source order. A missing `resource_access` is a no-op even without `azp`. A missing `azp` fails. A malformed document, a non-object root, a missing `azp` entry, a missing `roles` property and a non-array `roles` each fail with their own error and leave the principal unchanged. |
| `CreateUserProperties.CreateUserAppendsIntroduced` | BlazorAppWasmAuth/Auth/CustomAccountFactory.cs:63-74 | When the roles array is reached and every element is a string or null, the step returns the principal with exactly the reference's role claims appended. |
| `CreateUserProperties.CreateUserCovers` | BlazorAppWasmAuth/Auth/CustomAccountFactory.cs:65-74 | After success, every non-empty role of the array is matched by a role claim. No appended claim duplicates, ignoring case, a claim before it. |
| `CreateUserProperties.CreateUserIdempotent` | BlazorAppWasmAuth/Auth/CustomAccountFactory.cs:36-76 | Running the step again on its own result with the same token returns that result unchanged. |
| `CreateUserProperties.ExampleRolesAppendedInOrder` | BlazorAppWasmAuth/Auth/CustomAccountFactory.cs:65-74 | A principal without role claims, given roles `editor` then `viewer`, gains exactly those two role claims in that order, after its own claims. |
| `CreateUserProperties.ExampleCaseVariantNotDuplicated` | BlazorAppWasmAuth/Auth/CustomAccountFactory.cs:68-72 | An existing `(role, EDITOR)` claim stops `editor` from being appended again. Only `viewer` is added. |

## Left out

- `base.CreateUserAsync` (line 34) and the token provider's `RequestAccessToken` (line 41) are framework calls. The built principal and the token result are inputs of `CreateUser`. Asynchrony (`ValueTask`, `await`) is not modelled.
- `JwtSecurityTokenHandler.ReadJwtToken` (line 47) is a library decoder. The decoded payload claims are the input, in order. A token it would reject is not represented.
- `JsonDocument.Parse` (line 57) is a parameter, `parse: string -> Option<Json>`. `None` stands for its `JsonException`, which is reported as one generic error. Disposing the document is not modelled.
- JSON objects are maps. A document that repeats a property name, where `System.Text.Json` matches the last occurrence, is therefore not represented.
- `InvariantCultureIgnoreCase` is modelled as equality after ASCII lower-casing. Culture-specific and non-ASCII case rules are not modelled.
- A `ClaimsPrincipal` is reduced to its primary identity, which is what `user.Identity` reads. `IsAuthenticated` is a field, not derived from the authentication type.
- Claims carry only type and value. Issuer, value type and properties play no part in the step.
- `Program.cs` (service registration and OIDC options binding) and `CustomUserAccount.cs` (one JSON-bound property) have no logic. They are not part of this model.

The roles lookup can fail at three different places. Only the last one happens after claims may have been added:

- `GetProperty("roles")` throws when the entry is not an object or has no `roles` (line 63).
- `EnumerateArray` throws when `roles` is not an array (line 65).
- `GetString` throws on a role element that is neither a string nor null (line 67). This happens inside the loop. Role claims appended for earlier elements stay on the identity, even though the exception escapes. `AddRolesMatchesReference` states exactly which claims those are.
- A JSON `null` role reaches `GetMatchingRoleClaim` as a null string, which matches nothing. It is then skipped as null.
