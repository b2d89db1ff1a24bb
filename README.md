# Theaters controller: a verified model

This project models the theater resource of the SELU 383 (spring 2025, project 2) web API. It covers `TheatersController`: listing and reading theaters, and creating, updating and deleting them. The table behind the controller is an in-memory map from theater id to record, plus the identity the database assigns next. The signed-in caller is a `Principal` value. The model has four parts:

- **Validation of a body.** A name that is non-blank and at most 120 UTF-16 code units, a non-blank address, and a positive seat count.
- **Authorization.** An anonymous caller is refused by `[Authorize]`, modelled as the 401 the tests expect. A user in the role `"Admin"` may do anything; as ASP.NET Identity does, role names are compared after upper-casing. The user named by a theater's `ManagerId` may update or delete that theater.
- **Field-restricted update.** When the caller is not an admin, the body's `ManagerId` is silently ignored. The other fields still apply.
- **Order of outcomes.** Create: 401, 403, 400, 201. Update: 401, 400, 404, 403, 200. Delete: 401, 404, 403, 200.

Layout:

- `optional.dfy`: `Option`, for C#'s nullable values.
- `text.dfy`: `string.IsNullOrWhiteSpace` with .NET's `Char.IsWhiteSpace` character set, and `string.Length` as a count of UTF-16 code units.
- `identity.dfy`: the principal, the role-name normalizer, `IsAdmin` (the `IsInRoleAsync(user, "Admin")` test) and `UserId` (`user?.Id`).
- `theater.dfy`: the `Theater` record, the `TheaterDto` body and the well-formedness of a stored record.
- `theater_logic.dfy`: the controller's decisions as functions. It holds the validation, the projection to the body type and the shared write rule `ResolveWrite`. It also holds one outcome function per operation (`GetById`, `Create`, `Update`, `Delete`), each taking the store before the request and returning the response and the store after it.
- `theaters_controller.dfy`: the class `TheatersController`. Its fields are the theaters map and the next identity. Its methods carry out each request step by step, as the C# code does, and each is proved to produce exactly the outcome of the matching function. Every method keeps the store invariant `ValidStore`: each theater is keyed by its own id, has an id already handed out, and is well formed.
- `theater_properties.dfy`: lemmas for what the controller promises. They cover the order of outcomes, what a successful call does to the table and what it leaves alone, and how operations compose: create then read, update then read, update twice, delete twice.

The principal has three forms. `Anonymous` has no sign-in. `Authenticated(userId, roles)` is a signed-in user that `GetUserAsync` finds. `Unresolved` is a signed-in session whose user `GetUserAsync` cannot find. The code handles that null user on purpose (`user != null && …`, `user?.Id`). As written, such a session passes the ownership test on a theater with no manager, because `null != null` is false. `UnresolvedUserPassesOnUnmanaged` states this for the write rule, and `UnresolvedUserWritesUnmanaged` shows that such a session then gets 200 on updating or deleting that theater. The repository has no way to delete a user, so the case is modelled but not reported as a defect. When `GetUserAsync` finds the user, the id is never null, so a theater without a manager can be written only by an admin (`UnmanagedOnlyByAdmin`).

## Model

| member | source | states |
|---|---|---|
| `Text.Utf16Length` | Selu383.SP25.P02.Api/Controllers/TheatersController.cs:148 | the length C# compares with 120 is at least the character count and at most twice it, and is zero only for the empty string |
| `Text.Utf16LengthOfBmp` | Selu383.SP25.P02.Api/Controllers/TheatersController.cs:148 | for text of Basic Multilingual Plane characters the C# length equals the character count |
| `Text.IsNullOrWhiteSpace` | Selu383.SP25.P02.Api/Controllers/TheatersController.cs:147-149 | a non-null string is null-or-whitespace exactly when it has no visible character; the empty string is |
| `Identity.UserId` | Selu383.SP25.P02.Api/Controllers/TheatersController.cs:94-97 | `user?.Id` is non-null exactly for a caller whose user was found, and is then that user's id |
| `Identity.IsAdmin` | Selu383.SP25.P02.Api/Controllers/TheatersController.cs:94-95 | only a found user can be an admin, and a found user holding the role "Admin" is one; `TheaterProperties.AdminMatchIgnoresCase` gives the case rule |
| `TheaterLogic.NewTheater` | Selu383.SP25.P02.Api/Controllers/TheatersController.cs:62-68 | the entity built from a body has id 0 (not yet saved); that its other fields are copied from the body is proved by `TheaterProperties.CreateValidAddsOne` |
| `TheaterLogic.IsInvalid` | Selu383.SP25.P02.Api/Controllers/TheatersController.cs:145-151 | a body is rejected exactly when name or address is null, or the theater built from it is not well formed: a blank name, a name over 120 code units, a blank address, or seats ≤ 0 |
| `TheaterLogic.ToDto` | Selu383.SP25.P02.Api/Controllers/TheatersController.cs:156-163 | the body of a stored theater has the same id and non-null name and address, and building a theater from it gives the original record back |
| `TheaterLogic.GetTheaterDtos` | Selu383.SP25.P02.Api/Controllers/TheatersController.cs:153-164 | the projection holds one body for every stored theater, and every body in it mirrors the theater stored under its id |
| `TheaterLogic.GetById` | Selu383.SP25.P02.Api/Controllers/TheatersController.cs:34-43 | 404 exactly when no theater has the id; otherwise 200 with the body of the stored theater |
| `TheaterLogic.ResolveWrite` | Selu383.SP25.P02.Api/Controllers/TheatersController.cs:94-109 | 401 is decided for an anonymous caller and only for one; full access, including the manager, goes exactly to admins; the other cases are stated by `TheaterProperties.ManagerHasRestrictedAccess`, `OthersAreNotEntitled`, `UnmanagedOnlyByAdmin` and `UnresolvedUserPassesOnUnmanaged` |
| `TheaterLogic.Revised` | Selu383.SP25.P02.Api/Controllers/TheatersController.cs:102-109 | the revised theater keeps its id, keeps its manager unless access is full, and is well formed when the body is valid |
| `TheaterLogic.Create` | Selu383.SP25.P02.Api/Controllers/TheatersController.cs:45-76 | keeps the store invariant; answers only 201, 400, 401 or 403; any answer but 201 leaves the store unchanged and has no body |
| `TheaterLogic.Update` | Selu383.SP25.P02.Api/Controllers/TheatersController.cs:78-117 | keeps the store invariant and the set of ids; answers only 200, 400, 401, 403 or 404; any answer but 200 leaves the store unchanged |
| `TheaterLogic.Delete` | Selu383.SP25.P02.Api/Controllers/TheatersController.cs:119-143 | keeps the store invariant, never adds an id, has no body, answers only 200, 401, 403 or 404, and changes nothing unless it answers 200 |
| `Controllers.TheatersController.constructor` | Selu383.SP25.P02.Api/Controllers/TheatersController.cs:19-24 | the controller starts over the given consistent table |
| `Controllers.TheatersController.GetAllTheaters` | Selu383.SP25.P02.Api/Controllers/TheatersController.cs:26-30 | the returned set holds the body of every stored theater and nothing else |
| `Controllers.TheatersController.GetTheaterById` | Selu383.SP25.P02.Api/Controllers/TheatersController.cs:32-43 | the lookup through the id filter answers exactly as `GetById`, without changing the table |
| `Controllers.TheatersController.CreateTheater` | Selu383.SP25.P02.Api/Controllers/TheatersController.cs:45-76 | the status, body and new table are exactly those of `Create` on the old table, and the invariant holds |
| `Controllers.TheatersController.UpdateTheater` | Selu383.SP25.P02.Api/Controllers/TheatersController.cs:78-117 | the step-by-step field writes, including the admin-only manager write, give exactly the status, body and table of `Update` |
| `Controllers.TheatersController.DeleteTheater` | Selu383.SP25.P02.Api/Controllers/TheatersController.cs:119-143 | the status and new table are exactly those of `Delete` on the old table |
| `TheaterProperties.NameOf120Accepted` | Selu383.SP25.P02.Api/Controllers/TheatersController.cs:148 | an otherwise valid body with a 120-character name is accepted |
| `TheaterProperties.NameOf121Rejected` | Selu383.SP25.P02.Api/Controllers/TheatersController.cs:148 | a 121-character name is always rejected |
| `TheaterProperties.AdminHasFullAccess` | Selu383.SP25.P02.Api/Controllers/TheatersController.cs:95-109 | an admin may write every field of any theater, including its manager |
| `TheaterProperties.ManagerHasRestrictedAccess` | Selu383.SP25.P02.Api/Controllers/TheatersController.cs:97-109 | the theater's own manager, if not an admin, may write every field but the manager |
| `TheaterProperties.OthersAreNotEntitled` | Selu383.SP25.P02.Api/Controllers/TheatersController.cs:97-100 | a found user who is neither an admin nor the manager is refused |
| `TheaterProperties.UnmanagedOnlyByAdmin` | Selu383.SP25.P02.Api/Controllers/TheatersController.cs:97 | a theater with no manager is writable by a found user if and only if that user is an admin |
| `Identity.NormalizeName` | Selu383.SP25.P02.Api/Controllers/TheatersController.cs:95 | the normalized role name has the same length as the name, with each ASCII lower-case letter upper-cased and every other character kept |
| `Identity.NormalizeNameIdempotent` | Selu383.SP25.P02.Api/Controllers/TheatersController.cs:95 | normalizing an already normalized role name changes nothing |
| `Identity.InRole` | Selu383.SP25.P02.Api/Controllers/TheatersController.cs:95 | a user holding the role under its own name is in it, and a user with no roles is in none |
| `TheaterProperties.AdminMatchIgnoresCase` | Selu383.SP25.P02.Api/Controllers/TheatersController.cs:95 | role names are compared after upper-casing, so "admin" and "ADMIN" grant full access and "Administrator" does not |
| `TheaterProperties.UnresolvedUserPassesOnUnmanaged` | Selu383.SP25.P02.Api/Controllers/TheatersController.cs:94-97 | a session whose user cannot be loaded passes the ownership test only on theaters with no manager |
| `TheaterProperties.UnresolvedUserWritesUnmanaged` | Selu383.SP25.P02.Api/Controllers/TheatersController.cs:94-142 | a session whose user cannot be loaded gets 200 on a valid update of a theater with no manager, which stays without one, and gets 200 on deleting it, which removes exactly that theater |
| `TheaterProperties.AnonymousIsUnauthorized` | Selu383.SP25.P02.Test/Controllers/Theaters/TheatersControllerTests.cs:162-178 | create, update and delete by an anonymous caller answer 401 and change nothing |
| `TheaterProperties.CreateByNonAdminIsForbidden` | Selu383.SP25.P02.Api/Controllers/TheatersController.cs:49-60 | a signed-in non-admin gets 403 even with an invalid body, and the store is unchanged |
| `TheaterProperties.CreateInvalidIsBadRequest` | Selu383.SP25.P02.Api/Controllers/TheatersController.cs:57-60 | an admin with an invalid body gets 400 and nothing is added |
| `TheaterProperties.CreateValidAddsOne` | Selu383.SP25.P02.Api/Controllers/TheatersController.cs:62-75 | an admin with a valid body adds exactly one theater under a previously unused id, copied from the body; others are untouched; the answer is 201 with the body carrying the new id |
| `TheaterProperties.CreateThenGet` | Selu383.SP25.P02.Api/Controllers/TheatersController.cs:73-75 | reading the created id answers 200 with the body the create returned |
| `TheaterProperties.CreateTwiceDistinctIds` | Selu383.SP25.P02.Api/Controllers/TheatersController.cs:69-73 | two successful creates hand out two different ids, neither held before |
| `TheaterProperties.UpdateInvalidIsBadRequest` | Selu383.SP25.P02.Api/Controllers/TheatersController.cs:83-86 | an invalid body gets 400 whatever the id, and the store is unchanged |
| `TheaterProperties.UpdateAbsentIsNotFound` | Selu383.SP25.P02.Api/Controllers/TheatersController.cs:88-92 | a valid body for an absent id gets 404 from any signed-in caller, before the caller's rights are looked at, and the store is unchanged |
| `TheaterProperties.UpdateByOtherIsForbidden` | Selu383.SP25.P02.Api/Controllers/TheatersController.cs:94-100 | a found user who is neither an admin nor the manager gets 403, even on a theater with no manager, and the store is unchanged |
| `TheaterProperties.UpdateSuccess` | Selu383.SP25.P02.Api/Controllers/TheatersController.cs:102-116 | name, address and seats come from the body; the manager comes from the body only for an admin; the answer carries the stored id and manager; no other theater changes |
| `TheaterProperties.ManagerCannotReassign` | Selu383.SP25.P02.Api/Controllers/TheatersController.cs:106-109 | no update by a non-admin changes who manages a theater |
| `TheaterProperties.ManagerUpdateKeepsManager` | Selu383.SP25.P02.Test/Controllers/Theaters/TheatersControllerTests.cs:339-365 | the manager's update answers 200 with the new address and the unchanged manager |
| `TheaterProperties.UpdateByEntitledSucceeds` | Selu383.SP25.P02.Test/Controllers/Theaters/TheatersControllerTests.cs:282-310 | a valid body for a stored theater from an admin or from its manager answers 200, and an admin's body moves the theater to the body's manager |
| `TheaterProperties.UpdateThenGet` | Selu383.SP25.P02.Api/Controllers/TheatersController.cs:111-116 | reading the updated id answers 200 with the body the update returned |
| `TheaterProperties.UpdateIdempotent` | Selu383.SP25.P02.Api/Controllers/TheatersController.cs:102-116 | repeating a successful update returns the same answer and leaves the same table |
| `TheaterProperties.DeleteAbsentIsNotFound` | Selu383.SP25.P02.Api/Controllers/TheatersController.cs:124-128 | an absent id gets 404 and nothing changes |
| `TheaterProperties.DeleteByOtherIsForbidden` | Selu383.SP25.P02.Api/Controllers/TheatersController.cs:130-136 | a found user who is neither an admin nor the manager gets 403 and nothing changes |
| `TheaterProperties.DeleteSuccess` | Selu383.SP25.P02.Api/Controllers/TheatersController.cs:138-142 | an admin or the manager removes exactly that theater, all others are untouched, and the answer is 200 |
| `TheaterProperties.DeleteTwiceIsNotFound` | Selu383.SP25.P02.Test/Controllers/Theaters/TheatersControllerTests.cs:468-472 | after a successful delete, deleting or reading the same id answers 404 |

## Left out

- ASP.NET Core routing, `CreatedAtAction` and `StatusCode`: only the status code and body are modelled. The `Location` header of a 201 is not.
- Model binding and automatic `[ApiController]` validation of `TheaterDto`: the DTO's source file is not part of this model. Name and address are taken as nullable (a test sends a null name), and a body that fails to bind is not modelled.
- Entity Framework: `DbSet`, change tracking and `SaveChangesAsync` become the map and the `nextId` counter. A failed save (a missing manager user for the foreign key, a lost connection) is not modelled. The controller never checks that `ManagerId` names an existing user; the database does that.
- Controllers.TheatersController.UpdateTheater: the change-tracked entity is changed field by field on a copy of the record, and the copy is then stored back. Aliasing of tracked entities between requests is not modelled.
- Integer widths: ids and seat counts are unbounded integers. C#'s 32-bit `int`, the range checks of JSON binding, and overflow of the identity column are not modelled.
- `UserManager`: `GetUserAsync` and `IsInRoleAsync` become the `Principal` value. The identity store, passwords and cookies are framework I/O.
- Async/await and concurrent requests: each request is modelled as one sequential step.
- `SeedData.cs`, `Program.cs`, `AuthenticationController.cs`, `UsersController.cs` and the user, role and user-role entities: configuration and thin wrappers over Identity, with no theater decision logic. The constructor accepts any consistent table, so the seeded theaters are one possible starting state.
- Identity.IsAdmin: the role lookup normalizes names by upper-casing ASCII letters only. Identity's normalizer uses `ToUpperInvariant`, which also upper-cases letters outside ASCII. Role creation and the `NormalizedName` column of the role store are not modelled.
- Controllers.TheatersController.GetAllTheaters: the answer is a set of bodies. The order of the `IQueryable` the source returns (it has no `OrderBy`) is not modelled.
- TheaterProperties.AnonymousIsUnauthorized: the model answers an anonymous caller with 401, as the tests expect. The real answer comes from the challenge of the default authentication scheme, and `Program.cs` leaves that at the Identity cookie's default, which is a redirect to the login path (except for requests marked as XMLHttpRequest). That redirect is not modelled.
