# User management core, modelled in Dafny

This project models the domain layer of a NestJS user-management service:

- the `User` entity, with its two enums, column defaults and the derived `fullName` and `initials`;
- the validation constraints on `CreateUserDto`, and the all-optional `UpdateUserDto`;
- the `UserRepository` over an in-memory `users` table;
- the `UserService`, which enforces email/login uniqueness and the age bound, and maps missing rows to `NotFound`;
- the message extraction and error envelope of the HTTP exception filter.

Each module corresponds to one source file:

| module | file |
|---|---|
| `Wrappers` (`wrappers.dfy`) | `Option` (a `null`/`undefined` or present value) and `Result` (a return or a thrown exception) |
| `Entity` (`entity.dfy`) | `src/database/entities/user.entity.ts` |
| `Dto` (`dto.dfy`) | `src/modules/users/dto/create-user.dto.ts`, plus `UpdateUserDto` as a record of `Option` fields |
| `Repository` (`repository.dfy`) | `src/modules/users/repositories/user.repository.ts` |
| `Service` (`service.dfy`) | `src/modules/users/services/user.service.ts` |
| `ExceptionFilter` (`filter.dfy`) | `src/common/filters/http-exception.filter.ts` |
| `ServiceScenarios` (`scenarios.dfy`) | a client that walks one user through create, conflict, rejected update, status change and delete, using only the service's contracts |

## Design

- **The store.** `Repository.UserRepository` is a class with three fields: `rows` (the table, oldest row first), `clock` (the next timestamp) and `nextId` (the next generated id). Its methods change these fields in place.
  - Its invariant `Valid()` says four things: ids are unique and below `nextId`; rows are in strictly increasing `createdAt` order; every timestamp is below `clock`; and `createdAt <= updatedAt`.
  - `findOne`/`count` become scans of `rows` (`Locate`, `Count`).
  - `find({ order: { createdAt: 'DESC' } })` becomes the rows read back to front. The invariant makes that order newest first.
- **The service.** `Service.UserService` holds the repository as a `const` field. Its invariant adds `StoreInvariant` to the repository's: no two rows share a non-empty email or login, and every stored age is in `[0, 150]`.
  - Its mutating methods (`Create`, `Update`, `Delete`, `UpdateStatus`) state the whole new table in terms of the old one. Each failure case leaves the repository unchanged.
  - Its read methods say when `NotFound` is returned and what a found response holds.
- **Errors.** Errors are `NotFound | Conflict(EmailField | LoginField) | BadRequest`. These are the three exception classes the service throws.
- **Design choices:**
  - The age error is `BadRequest`, the `BadRequestException` thrown at user.service.ts:36 and :107.
  - `gender` is `{Male, Female}` with default `Male`, as in the entity. The migration's `'other'` value and default are not modelled.
  - The update re-checks a key only when the supplied value is truthy. So an empty email or login in an update is written without a uniqueness check. The invariant above is stated for non-empty keys for that reason.

## Model

| member | source | states |
|---|---|---|
| `Entity.Trim` | src/database/entities/user.entity.ts:73-75 | the result is the input minus its leading and trailing ECMAScript white space, and neither of its ends is white space |
| `Entity.TrimOfIsUnique` | src/database/entities/user.entity.ts:73-75 | that characterisation of trimming has exactly one solution |
| `Entity.TrimUnpadded` | src/database/entities/user.entity.ts:73-75 | a string with no white space at either end is unchanged by trim |
| `Entity.TrimIdempotent` | src/database/entities/user.entity.ts:73-75 | trimming twice equals trimming once |
| `Entity.FullName` | src/database/entities/user.entity.ts:73-75 | `fullName` is `firstName + " " + lastName` with surrounding white space removed |
| `Entity.FullNameOfPlainNames` | src/database/entities/user.entity.ts:73-75 | for names that start and end with a visible character, `fullName` is exactly the two names joined by one space |
| `Entity.ToUpper` | src/database/entities/user.entity.ts:79-80 | upper-casing maps `a`-`z` to `A`-`Z`, leaves every other character alone, and never yields a lower-case letter |
| `Entity.FirstUpper` | src/database/entities/user.entity.ts:79-80 | `charAt(0).toUpperCase()` is empty for an empty name, otherwise the upper-cased first character |
| `Entity.Initials` | src/database/entities/user.entity.ts:78-82 | `initials` has one character per non-empty name (so at most 2, exactly 2 when both are non-empty): the upper-cased first character of `firstName`, then that of `lastName`, with no lower-case letters |
| `Dto.StatusOnly` | src/modules/users/services/user.service.ts:131-133 | the `{ status }` update sets `status` and leaves login, email and age undefined |
| `Dto.PhonePatternCharacterized` | src/modules/users/dto/create-user.dto.ts:83-90 | a phone matches the pattern iff it is neither empty nor `"+"`, and each character is a digit, white space, `-`, `(` or `)`, except that the first may be `+` |
| `Dto.LoginExamples` | src/modules/users/dto/create-user.dto.ts:22-27 | `john_doe` is a valid login; `jo` (too short), `john-doe` and `john doe` (bad characters) are not |
| `Dto.PhoneExamples` | src/modules/users/dto/create-user.dto.ts:83-90 | `+1234567890` and `+1 (234) 567-89` are valid; a `+` after the start, or fewer than 10 characters, are not |
| `Dto.ValidCreateUser` | src/modules/users/dto/create-user.dto.ts:15-108 | a create request passes validation iff every decorator holds: login 3-50 characters of `[a-zA-Z0-9_]`, first and last name 2-100, optional middle name 1-100, gender given, age an integer in [0,150], optional phone 10-20 characters matching the phone pattern, email accepted by `isEmail`, optional avatar 1-255 |
| `Dto.ValidCreateUserFitsWidths` | src/modules/users/dto/create-user.dto.ts:22-107 | a validated create request respects every length bound of the columns (login 50, names 100, phone 20, avatar 255) and has a non-negative age that fits the 32-bit `int` column |
| `Repository.IndexOf` | src/modules/users/repositories/user.repository.ts:27-37 | the first row matching the where clause, or none iff no row matches |
| `Repository.Lookup` | src/modules/users/repositories/user.repository.ts:27-37 | `findOne` returns a stored row whose key equals the argument, or null iff no such row exists |
| `Repository.CountPositiveIff` | src/modules/users/repositories/user.repository.ts:49-57 | the count of matching rows is positive iff a matching row exists |
| `Repository.LookupByUniqueId` | src/modules/users/repositories/user.repository.ts:27-29 | with unique ids, looking up a row's id finds exactly that row |
| `Repository.NewUser` | src/modules/users/repositories/user.repository.ts:16-19 | the row `create` + `save` stores: the given id, `createdAt == updatedAt == now`, `status` active, and `gender` male when the request has none |
| `Repository.NewUserFields` | src/modules/users/repositories/user.repository.ts:16-19 | a created row carries every field of the request, `gender` defaulting to male, `status` active, and `createdAt == updatedAt == now` |
| `Repository.ValidCreateUserFits` | src/database/entities/user.entity.ts:28-57 | a validated request with an email of at most 255 characters yields a row that fits every column |
| `Repository.ApplyUpdate` | src/modules/users/repositories/user.repository.ts:39-42 | a partial update: `id` and `createdAt` are kept, `updatedAt` becomes `now`, and for each of the ten patch properties a supplied value is stored while an undefined one keeps the row's value, so an empty patch changes nothing else |
| `Repository.ApplyUpdateProperties` | src/modules/users/repositories/user.repository.ts:39-42 | a partial update keeps `id` and `createdAt`, and applying it twice equals applying it once (up to `updatedAt`) |
| `Repository.StatusOnlyChangesStatus` | src/modules/users/services/user.service.ts:131-133 | the status update changes `status` and `updatedAt` and nothing else |
| `Repository.RemoveAtValid` | src/modules/users/repositories/user.repository.ts:44-47 | deleting a row keeps the table's invariant and leaves no row with that id |
| `Repository.UserRepository.Locate` | src/modules/users/repositories/user.repository.ts:27-37 | the scan returns the position of the first matching row, or none iff no row matches |
| `Repository.UserRepository.FindOne` | src/modules/users/repositories/user.repository.ts:27-37 | returns the row `findOne` yields for the where clause |
| `Repository.UserRepository.FindById` | src/modules/users/repositories/user.repository.ts:27-29 | a row with that id, or null iff none exists |
| `Repository.UserRepository.FindByEmail` | src/modules/users/repositories/user.repository.ts:31-33 | a row with that email, or null iff none exists |
| `Repository.UserRepository.FindByLogin` | src/modules/users/repositories/user.repository.ts:35-37 | a row with that login, or null iff none exists |
| `Repository.UserRepository.Count` | src/modules/users/repositories/user.repository.ts:49-57 | the number of rows matching the where clause |
| `Repository.UserRepository.ExistsByEmail` | src/modules/users/repositories/user.repository.ts:49-52 | true iff the count of rows with that email is > 0, iff such a row exists |
| `Repository.UserRepository.ExistsByLogin` | src/modules/users/repositories/user.repository.ts:54-57 | true iff the count of rows with that login is > 0, iff such a row exists |
| `Repository.UserRepository.FindAll` | src/modules/users/repositories/user.repository.ts:21-25 | every stored row exactly once (same multiset), in strictly decreasing `createdAt` order |
| `Repository.UserRepository.Create` | src/modules/users/repositories/user.repository.ts:16-19 | appends and returns one row built from the request, whose id differs from every existing id; the table stays valid |
| `Repository.UserRepository.Update` | src/modules/users/repositories/user.repository.ts:39-42 | for a present id, only that row changes: the supplied fields are overwritten, `updatedAt` advances, and the re-fetched row is returned. For an absent id nothing changes and null is returned |
| `Repository.UserRepository.Delete` | src/modules/users/repositories/user.repository.ts:44-47 | returns true iff a row with that id existed; exactly that row is removed, and afterwards no row has that id |
| `Service.ValidRequestAgeInRange` | src/modules/users/dto/create-user.dto.ts:73-76 | the DTO's `@Min(0) @Max(150)` is the same bound the service re-checks |
| `Service.ToResponse` | src/modules/users/services/user.service.ts:141-159 | the response holds every stored field unchanged, and its `fullName` and `initials` are those of its own first and last names |
| `Service.AppendKeepsInvariant` | src/modules/users/services/user.service.ts:17-40 | inserting a row whose email and login are free and whose age is in range keeps keys unique and ages in range |
| `Service.UpdateKeepsInvariant` | src/modules/users/services/user.service.ts:72-116 | an update the service lets through keeps non-empty keys unique and ages in range |
| `Service.RemoveKeepsInvariant` | src/modules/users/services/user.service.ts:118-123 | deleting a row keeps the invariant |
| `Service.EmailConflictMeansOtherOwner` | src/modules/users/services/user.service.ts:82-90 | an update with a non-empty email conflicts iff a different user holds that email, so one's own email never conflicts |
| `Service.LoginConflictMeansOtherOwner` | src/modules/users/services/user.service.ts:92-100 | the same for logins |
| `Service.UserService.constructor` | src/modules/users/services/user.service.ts:15 | the service works on the repository it is given |
| `Service.UserService.Create` | src/modules/users/services/user.service.ts:17-41 | email taken: Conflict(email); else login taken: Conflict(login); else age outside [0,150]: BadRequest. Each failure leaves the store unchanged. Otherwise exactly one row is added and its response returned |
| `Service.UserService.FindAll` | src/modules/users/services/user.service.ts:43-46 | one response per stored row, newest first |
| `Service.UserService.FindById` | src/modules/users/services/user.service.ts:48-54 | NotFound iff no row has the id; otherwise exactly `mapToResponseDto` of the stored row with that id (every stored field, plus `fullName` and `initials` derived from it) |
| `Service.UserService.FindByEmail` | src/modules/users/services/user.service.ts:56-62 | NotFound iff no row has the email; otherwise exactly `mapToResponseDto` of the stored row with that email (every stored field, plus `fullName` and `initials` derived from it) |
| `Service.UserService.FindByLogin` | src/modules/users/services/user.service.ts:64-70 | NotFound iff no row has the login; otherwise exactly `mapToResponseDto` of the stored row with that login (every stored field, plus `fullName` and `initials` derived from it) |
| `Service.UserService.Update` | src/modules/users/services/user.service.ts:72-116 | absent id: NotFound. Then, in order: a truthy, changed, taken email: Conflict(email); the same for login: Conflict(login); a supplied out-of-range age: BadRequest. Failures leave the store unchanged. Otherwise only that row is updated and returned |
| `Service.UserService.Delete` | src/modules/users/services/user.service.ts:118-123 | NotFound iff no row had the id; otherwise exactly that row is removed. Either way no row has the id afterwards |
| `Service.UserService.UpdateStatus` | src/modules/users/services/user.service.ts:125-139 | absent id: NotFound with the store unchanged. Otherwise only that row's `status` (any value from any value) and `updatedAt` change, and `updatedAt` increases |
| `ExceptionFilter.JoinLength` | src/common/filters/http-exception.filter.ts:37-39 | the joined text is as long as all parts together plus one separator for each pair of neighbours |
| `ExceptionFilter.JoinConcat` | src/common/filters/http-exception.filter.ts:37-39 | joining `p + q` is joining `p`, one separator, then joining `q`: the parts appear in order with exactly one separator between neighbours |
| `ExceptionFilter.JoinEmptyIff` | src/common/filters/http-exception.filter.ts:37-39 | with a non-empty separator the join is empty iff the array is `[]` or `[""]` |
| `ExceptionFilter.GetErrorMessage` | src/common/filters/http-exception.filter.ts:31-44 | a string response is returned as is; an array message is joined with ", "; a non-empty string message is returned; a missing or empty message gives "Internal server error" |
| `ExceptionFilter.ErrorMessageEmptyIff` | src/common/filters/http-exception.filter.ts:31-44 | the message is empty only for an empty string response, or an array message of `[]` or `[""]` |
| `ExceptionFilter.BuildErrorResponse` | src/common/filters/http-exception.filter.ts:19-26 | the envelope always has `success = false`, the exception's status and name, and the extracted message |

## Left out

- Service.UserService.Valid: the entity's unique indexes promise unique emails and logins. The service keeps only non-empty ones unique, because an update whose email or login is `""` skips the check (`""` is falsy). The database's unique index, which would reject such a write, is not modelled.
- Service.UserService.Update: the second `NotFound`, for a row deleted between the check and the write, cannot occur in this sequential model. Check-then-act races and `async` suspension are not modelled; each operation is one atomic step.
- Repository.UserRepository.Create: the column constraints of user.entity.ts (the unique indexes on `email` and `login`, the `varchar` widths, the 32-bit range of the `int` age) are not enforced by the model's writes; any row is stored. In the source a violating `save` throws a database error. The service relies on upstream validation (`Dto.ValidCreateUser`, which `Repository.ValidCreateUserFits` shows fits every column) and on its own uniqueness checks, and the model's `Service.UserService.Create` accepts requests that skipped validation, such as a 51-character login.
- Repository.UserRepository.Update: the same column constraints are not enforced on updates either; a patch that is too wide, or that repeats an empty key, is stored where the database would throw.
- Repository.UserRepository.FindByEmail: when two rows share the empty email (see above), the first in creation order is returned. The database's choice is unspecified.
- Repository.UserRepository.FindAll: `createdAt` values are distinct clock ticks. Real timestamps can tie, and the database then orders ties arbitrarily.
- Incoming ids are well-formed by construction (`UserId` is a `nat`). In the source the `id` column is a PostgreSQL `uuid` and the route parameter is an unchecked string, so a malformed id (such as `non-existent-id`) makes `findOne` or `delete` fail with a query error, which ends as a 500 rather than `NotFoundException`. That error path is not represented: in the model every absent id gives `NotFound` (`Service.UserService.FindById`, `Update`, `Delete`, `UpdateStatus`).
- UUID generation is a counter (`nextId`), and `Date` timestamps are a logical clock. Ids therefore never repeat, even after deletion.
- `@IsEmail()` is a library validator. It is a parameter `isEmail` of `Dto.ValidCreateUser`, with no properties assumed.
- `@IsInt()`: ages are integers in the model, so fractional numbers are not represented.
- An update that sends `null` to clear an optional column is not represented. `None` means "left undefined".
- Strings are sequences of Unicode code points. `charAt(0)` in `initials` takes one UTF-16 code unit, so it returns half a surrogate pair for a name starting outside the Basic Multilingual Plane, where the model takes the whole character. The `@Length` bounds count code points as the model does, except that class-validator's length check also leaves out some variation selectors (U+FE0F among them), which the model counts.
- `toUpperCase` is modelled for ASCII letters only. Other characters are unchanged, whereas full Unicode upper-casing can change them or lengthen them (`ß` becomes `SS`).
- The message texts of the thrown exceptions and their mapping to HTTP status codes (NestJS library behaviour) are not modelled. Neither is `response.status().json()` in the filter, which is I/O. Its timestamp and request URL are parameters of `ExceptionFilter.BuildErrorResponse`.
- A `message` property that is neither a string nor an array (a number, an object) is not represented. Falsy values are folded into `NoMessage`.
- The controller (routing only, plus the unimplemented avatar upload stub), the migration, the seed scripts and the database configuration are not part of this model.
