# User and token store of a CRUD API boilerplate

This project models the logic of a small Laravel CRUD API. It covers the login
controller, which checks credentials and issues one bearer token per (user,
token name) slot. It also covers the four user actions (create, update, list,
delete) and the validation rules of an update request.

The database is one object, `Store.Database`, with two tables and two id
counters:

- `users` is a sequence of rows in table order;
- `tokens` is a map from token id to token row.

`Database.Valid()` is the store invariant:

- user ids are distinct and positive;
- user emails are distinct, as the unique index on `users.email` enforces;
- every token is stored under its own id;
- no two tokens share a (user, name) slot.

Create, update, delete and login are methods that `modifies` the database;
listing only reads it and has no `modifies` clause. Each changing method's
postcondition ties the new tables to a pure function of the old ones:
`LoginStep`, `NewUser`, `Fill` with `Replace`, and `RemoveUser`. The listing's
postcondition states its order (newest first) and that it is a permutation of
the table. The lemmas prove the application's promises about those functions.

The framework services are modelled as follows:

- Password hashing (module `Hashing`) is a salted, injective stand-in. `Make`
  produces a digest that `Check` accepts for its own plaintext and for no
  other. The random salt is a parameter.
- Time is integer UTC seconds (module `Clock`). An hour is 3600 s and a day is
  86400 s.
- The email-format rule is a function parameter `isEmail`.
- Randomness and the clock are parameters (`salt`, `now`). The next token id
  stands for the freshly generated token.

## Model

| member | source | states |
|---|---|---|
| `Hashing.Make` | app/Actions/Users/CreateUserAction.php:15 | the digest stored for a password is checked successfully against that password |
| `Hashing.CheckOnlyOriginal` | app/Http/Controllers/Auth/LoginController.php:21 | a digest accepts a password exactly when it is the one the digest was made from, so a wrong password fails the check |
| `Store.FindByEmail` | app/Http/Controllers/Auth/LoginController.php:19 | the lookup finds nothing exactly when no row has that email; otherwise it returns the first row, in table order, whose email matches exactly |
| `Store.FindByEmailUnique` | app/Http/Controllers/Auth/LoginController.php:19 | in a table with unique emails, the lookup returns the one row holding the email |
| `LoginController.Authenticate` | app/Http/Controllers/Auth/LoginController.php:19-25 | an accepted login names a stored user with that exact email whose digest accepts the password |
| `LoginController.AuthenticateIff` | app/Http/Controllers/Auth/LoginController.php:19-21 | credentials are accepted if and only if some user has the email and a digest that accepts the password |
| `LoginController.ExpiresAt` | app/Http/Controllers/Auth/LoginController.php:33-35 | with remember-me the expiry is now + days*86400; without it, now + hours*3600 |
| `LoginController.RememberOutlastsDefaultIff` | app/Http/Controllers/Auth/LoginController.php:33-35 | the remember-me expiry is later than the default one, for the same now, exactly when 24*days > hours |
| `LoginController.DefaultRememberIsLater` | app/Http/Controllers/Auth/LoginController.php:30-35 | with the defaults of 2 hours and 30 days, remember-me expires strictly later, by 30 days less 2 hours |
| `LoginController.EvictSlot` | app/Http/Controllers/Auth/LoginController.php:37 | every token in the (user, name) slot is deleted and every other token is kept unchanged |
| `LoginController.IssueToken` | app/Http/Controllers/Auth/LoginController.php:37-39 | after eviction and creation, the slot holds only the new row, which has abilities ["*"] and the chosen expiry; tokens outside the slot are untouched and no other row appears |
| `LoginController.SlotName` | app/Http/Controllers/Auth/LoginController.php:27 | the slot a login fills is the configured token name, or "auth_token" when none is configured; `LoginIssuesOneToken` states it of the issued token |
| `LoginController.LoginExpiry` | app/Http/Controllers/Auth/LoginController.php:28-35 | the expiry a login uses: the remember-me flag defaults to false and the settings to 2 hours and 30 days; `LoginExpiryFollowsFlag` states its value in seconds |
| `LoginController.LoginStep` | app/Http/Controllers/Auth/LoginController.php:14-47 | a failed step answers 422 "auth.failed" and leaves the token table and counter as they were. A successful step answers "Bearer" with the next token id, advances the counter, and stores that token for the returned user with the reported expiry |
| `LoginController.LoginFailsUniformly` | app/Http/Controllers/Auth/LoginController.php:19-25 | a login fails exactly when no user has the email or the password check fails; both causes give status 422 with the one message "auth.failed" and leave the token table and id counter unchanged |
| `LoginController.LoginIssuesOneToken` | app/Http/Controllers/Auth/LoginController.php:27-45 | a successful login answers with type "Bearer", the matched user's public record and the new token. The reported expiry is the one the flag and settings select, and the stored token carries it. Exactly one token is in the slot, whose name falls back to "auth_token". Earlier slot tokens are gone, tokens of other slots are untouched, and no other row appears |
| `LoginController.LoginExpiryFollowsFlag` | app/Http/Controllers/Auth/LoginController.php:28-35 | an absent or false remember-me flag gives now + hours*3600 and a true one gives now + days*86400; missing settings default to 2 hours and 30 days |
| `LoginController.LoginKeepsTokensWellFormed` | app/Http/Controllers/Auth/LoginController.php:37-39 | after any login, no two tokens share a (user, name) slot |
| `LoginController.Login` | app/Http/Controllers/Auth/LoginController.php:14-47 | the controller's result, token table and id counter are those of the login step on the old tables; users are unchanged and the store invariant is kept |
| `CreateUserAction.NewUser` | app/Actions/Users/CreateUserAction.php:15-17 | the new row keeps name and email exactly as given and gets the next id; its digest accepts the plaintext password and no other |
| `CreateUserAction.InsertKeepsWellFormed` | app/Actions/Users/CreateUserAction.php:17 | appending a row with a new email under the next id keeps ids and emails unique |
| `CreateUserAction.CreatedUserCanLogIn` | app/Actions/Users/CreateUserAction.php:15-17 | a created user is found by its email and its digest accepts the password it was created with |
| `CreateUserAction.CreateUser` | app/Actions/Users/CreateUserAction.php:13-18 | exactly one row is appended and returned, and existing rows are unchanged; an email already in the table is refused and nothing changes |
| `UpdateUserAction.Fill` | app/Actions/Users/UpdateUserAction.php:15-19 | supplied name and email replace the old ones and absent fields keep their old values. A supplied password is stored as a digest that accepts it; without one the old digest stays. The id is unchanged |
| `UpdateUserAction.Replace` | app/Actions/Users/UpdateUserAction.php:20 | saving changes only the row with the target id; every other row is identical |
| `UpdateUserAction.ReplaceKeepsWellFormed` | app/Actions/Users/UpdateUserAction.php:20 | saving a row whose email no other row holds keeps ids and emails unique, and the saved row is stored |
| `UpdateUserAction.UpdatedPasswordLogsIn` | app/Actions/Users/UpdateUserAction.php:15-16 | after a password update, login accepts the new password and no other |
| `UpdateUserAction.UpdateUser` | app/Actions/Users/UpdateUserAction.php:13-23 | the returned user is the stored record after the save, with the same id. Only that row changes, and its updated_at is stamped only when an attribute changed. An email held by another row is refused and nothing changes |
| `UserUpdateRequest.Validate` | app/Http/Requests/UserUpdateRequest.php:29-40 | each field is optional, and a request is accepted exactly when every present field is a non-blank string meeting its rules: name at most 255 long; email a valid address, at most 255 long and held by no other user; password at least 8 long. An accepted payload holds exactly the present fields. A rejection is never empty and names exactly the present fields that break one of their rules |
| `UserUpdateRequest.RouteFormsAgree` | app/Http/Requests/UserUpdateRequest.php:21-27 | the ignored id is the bound model's key or else the raw route value, so both forms validate alike |
| `UserUpdateRequest.EmptyRequestPasses` | app/Http/Requests/UserUpdateRequest.php:30-39 | a request with no fields passes with an empty payload |
| `UserUpdateRequest.BlankFieldFails` | app/Http/Requests/UserUpdateRequest.php:30-39 | a present field that is null, empty or only whitespace fails the required rule |
| `UserUpdateRequest.OwnEmailNeverTaken` | app/Http/Requests/UserUpdateRequest.php:21-37 | the uniqueness rule never rejects the email the user being updated already has |
| `UserUpdateRequest.OwnEmailPasses` | app/Http/Requests/UserUpdateRequest.php:31-37 | keeping one's own well-formed email never fails the email rules |
| `UserUpdateRequest.OthersEmailFails` | app/Http/Requests/UserUpdateRequest.php:37 | an email another user holds is always rejected |
| `UserUpdateRequest.ValidatedUpdateNeverCollides` | app/Http/Requests/UserUpdateRequest.php:37 | a validated update saved by the update action never clashes with the unique email index |
| `ListUsersAction.InsertNewest` | app/Actions/Users/ListUsersAction.php:12 | inserting a row into a newest-first list keeps it newest-first and adds exactly that row |
| `ListUsersAction.Latest` | app/Actions/Users/ListUsersAction.php:12 | the listing is ordered by created_at non-increasing and is a permutation of the rows |
| `ListUsersAction.ListUsers` | app/Actions/Users/ListUsersAction.php:10-13 | every stored user appears, newest first, with no filtering; the method cannot modify the store |
| `DeleteUserAction.RemoveUser` | app/Actions/Users/DeleteUserAction.php:11 | the remaining rows are exactly the old rows whose id differs from the deleted one |
| `DeleteUserAction.RemoveUserKeepsWellFormed` | app/Actions/Users/DeleteUserAction.php:11 | deleting keeps ids and emails unique |
| `DeleteUserAction.RemoveUserCount` | app/Actions/Users/DeleteUserAction.php:11 | deleting a present id removes exactly one row; deleting an absent id changes nothing |
| `DeleteUserAction.DeleteUser` | app/Actions/Users/DeleteUserAction.php:9-12 | no row with the deleted id remains, all other rows are kept and the count drops by one. The action returns nothing and the token table is unchanged |

## Left out

- Deletion does not cascade to tokens: `DeleteUserAction.php` only deletes the row, and the model follows the code, so the user's tokens stay behind.
- The logout controller, the read (`show`) endpoint and the create request's validation rules are not part of this model. The model's create payload still requires all three fields by its type, and a duplicate email is refused by the store.
- Bcrypt internals are replaced by the stand-in in `Hashing`.
- Hashing.CheckOnlyOriginal: the stand-in is injective, but bcrypt reads only the first 72 bytes of a password, so two passwords sharing those bytes each pass the check against the other's digest. This lemma, the "no other" ensures of `CreateUserAction.NewUser` and the "only the new password" direction of `UpdateUserAction.UpdatedPasswordLogsIn` hold for the stand-in only.
- Clock.AddHours and Clock.AddDays are plain definitions of whole-second arithmetic with no contract of their own; `ExpiresAt` and its lemmas state the expiry.
- Token secret generation and hashing are left out, as is bearer-token lookup by the authentication middleware. The response's `token` is the new row's id.
- ISO-8601 formatting, time zones and calendar arithmetic are left out; times are integer seconds.
- The token name is absent or a string, and the two expiry settings are absent or integers (the default applies when absent). An explicit null value and the `(int)` cast of a non-integer value are not modelled.
- The translated text of `auth.failed` is not modelled; the model uses the message key.
- The global middleware that trims strings and turns empty strings into null is left out. The `required` rule itself treats a string that is blank after trimming as missing.
- UpdateUserAction.UpdateUser: the salt is a parameter, so a caller can re-supply the stored password together with the stored digest's salt. The rebuilt digest is then identical, the row is not dirty and `updated_at` is not stamped. The library draws a fresh salt on every hash, so there a supplied password always changes the row.
- Email matching is exact. Database collations that compare emails case-insensitively are not modelled.
- An unbound route value is taken to be an already-parsed integer key.
- `Latest` fixes one order for users with equal created_at. The database leaves that order unspecified, and the contract promises only non-increasing order and a permutation.
- `updated_at` is stamped with the given `now` when any attribute changes, as Eloquent does on save. `created_at` of a new row is `now`.
- Concurrency is left out: races between two creates with one email, or between two logins for one slot, are outside this sequential model.
- HTTP routing, authentication gating (401), JSON serialisation, CORS, the API documentation page and the scaffolding stubs are left out.
