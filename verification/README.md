# Cafe directory: request handling as a verified state machine

A Dafny model of the request-handling core of a small cafe-directory web
application (`main.py`). Visitors register, log in and out, list and search
cafes, submit new ones and delete them. The store has two tables. `users`
has a UNIQUE `email`. `cafe` has a UNIQUE `name`, and its `user_id` names the
owner.

Every route is a pure function from a `State` to a `Response`. The state is the
record store plus the session, which holds no user or one user id. The response
is the next state plus an outcome: a redirect (with an optional flashed
notice), a rendered view, 401, 403, 404, a store-constraint error, or a server
error.

Modules, leaves first:

- `Text` (`text.dfy`): ASCII lower-casing, a substring scan, and
  `ILike(value, q)`, which is SQL `value ILIKE '%q%'` as SQLite evaluates it.
  SQLite's `lower()` only folds A-Z, so ASCII folding is exact here.
- `Passwords` (`passwords.dfy`): a deterministic, injective stand-in for the
  password hash, and the check against a stored hash.
- `Store` (`store.dfy`): the rows, the key constraints (`Valid`), id
  allocation, the queries, and the insert and delete operations.
- `Routes` (`routes.dfy`): the route handlers, the session resolution and the
  delete authorization policy (`MayDelete`).
- `AsWritten` (`as_written.dfy`): three handlers as the source writes them
  (except for the stale-session case under Left out), each with a lemma
  showing how it departs from the intended behaviour (see Findings).
- `Scenarios` (`scenarios.dfy`): properties that span several requests.

Form validation is folded into each route's input. `None` means a GET request
or a submission that failed validation. `Some(form)` means a validated
submission.

The store invariant `Store.Valid` has three parts. Both tables hold no row
twice. `id`, `email` and cafe `name` are keys. Every cafe's owner exists.
`Routes.Valid` adds that a session names an existing user. Every route keeps
`Routes.Valid`.

In three places the code behaves differently from what such an application is
usually expected to do, and the model follows the code:

- An unauthenticated delete gets 401, not a redirect to the login page. The
  login manager has no login view configured (main.py:28-29), so its guard
  aborts with 401.
- A duplicate cafe name is an uncaught store error (`ConstraintError`). The
  code has no friendly notice for it.
- The admin test in delete reads an attribute that does not exist (Findings).

## Model

| member | source | states |
|---|---|---|
| Text.ContainsIsSubstring | main.py:277 | The substring scan is true exactly when the query occurs as a contiguous piece of the text at some position (both directions). |
| Text.LowerChar | main.py:277 | One character as SQLite's `lower()` folds it: A-Z become a-z, and every other character is kept. The result is never an upper-case ASCII letter. |
| Text.ToLower | main.py:277 | SQLite's `lower()` on a string: same length, with every character folded by `LowerChar`. |
| Text.ILike | main.py:277 | `ILIKE '%q%'` as SQLite evaluates it: the ASCII-lowered query is found by the scan in the ASCII-lowered value. |
| Text.ILikeIsSubstring | main.py:277 | `ILIKE '%q%'` holds iff the lower-cased query occurs in the lower-cased value. |
| Text.ILikeIgnoresCase | main.py:277 | Lower-casing either side of `ILIKE` first does not change its answer. |
| Text.ToLowerIdempotent | main.py:277 | Lower-casing twice equals lower-casing once. |
| Passwords.Hash | main.py:116-120 | The stored password hash never equals the plaintext. |
| Passwords.CheckHash | main.py:147 | A candidate password is accepted when hashing it gives the stored value. |
| Passwords.CheckHashAcceptsOnlyOriginal | main.py:147 | Checking a candidate against the hash of `p` succeeds iff the candidate is `p`. |
| Store.Valid | main.py:40-65 | The store invariant: `id` is a key of both tables, `email` of users and `name` of cafes, no row appears twice, and every cafe's `user_id` names an existing user. |
| Store.NextId | main.py:40 | A new primary key is at least 1, above every existing id, and is either 1 or one more than an existing id (SQLite's max+1 rule). |
| Store.NextUserId | main.py:40 | A new user's id is above every user id present and is 1 or one more than a present id. |
| Store.NextCafeId | main.py:52 | A new cafe's id is above every cafe id present and is 1 or one more than a present id. |
| Store.UserByEmail | main.py:109-110 | The email lookup finds a row iff some user has that email, and the row found has it. |
| Store.UserByEmailIsTheRow | main.py:140 | Under the UNIQUE email constraint, the email lookup returns the one user with that email. |
| Store.UserById | main.py:84-86 | The user loader finds a row iff some user has that id, and the row found has it. |
| Store.CafeById | main.py:228 | The cafe lookup by id finds a row iff one exists, and the row found has that id. |
| Store.CafeByIdIsTheRow | main.py:52 | Under the primary key, the lookup by a cafe's id returns that cafe. |
| Store.Select | main.py:277 | A column filter returns exactly the cafes whose column matches the query, drawn from the table, with no row twice if the table has none twice. |
| Store.SelectAppend | main.py:277 | `.all()` returns matches in store order: filtering two runs of rows laid end to end gives the first run's matches followed by the second's. |
| Store.SelectAll | main.py:282 | A filter that every row passes returns the whole table in store order. |
| Store.InsertUser | main.py:42 | Inserting a user fails with DuplicateKey iff the email is taken. Otherwise it appends exactly one row carrying the given fields and a fresh id, leaves cafes alone and keeps the store valid. |
| Store.InsertCafe | main.py:56-65 | Inserting a cafe fails with NotNullViolation when `seats` is missing, else with DuplicateKey iff the name is taken. Otherwise it appends one row with a fresh id and the submitted fields, and keeps the store valid when the owner exists. |
| Store.Without | main.py:232 | Removing an id keeps exactly the rows with other ids and introduces no duplicate. |
| Store.DeleteCafe | main.py:232-233 | A delete leaves users unchanged, keeps every cafe with another id, removes every cafe with that id, and keeps the store valid. |
| Store.WithoutCount | main.py:232 | With the primary key in force, deleting a present id removes exactly one row, and deleting an absent id changes nothing. |
| Routes.SessionUser | main.py:84-86 | The session's user is found iff a user with the session's id exists. |
| Routes.IdOneIsAdmin | main.py:94 | The administrator is the user with id 1. |
| Routes.MayDelete | main.py:231 | A user may delete a cafe when they are an admin or the cafe's `user_id` is their id. |
| Routes.Register | main.py:104-131 | A taken email leaves the state unchanged and redirects to login with a notice. A fresh email appends exactly one user with that name and email, storing the hash and not the plaintext, under a fresh id. It logs that user in, redirects home and keeps validity. |
| Routes.Login | main.py:135-154 | The store never changes. An unknown email and a wrong password each leave the state unchanged with their own notice. The right password binds the session to the email's owner. The session changes only on success. |
| Routes.Logout | main.py:158-160 | The store is untouched. When the session names a missing user, loading it is a 404 and nothing changes. Otherwise the session ends and the visitor goes home. |
| Routes.Home | main.py:164-169 | The listing shows exactly the stored cafes to anyone and changes nothing. |
| Routes.ShowCafe | main.py:241-244 | The detail page renders iff a cafe has that id, and then shows that cafe. Otherwise it is NotFound. The state never changes. |
| Routes.AddCafe | main.py:182-199 | No session gives 401. A duplicate name gives DuplicateKey with nothing changed. A fresh name from a logged-in user appends exactly one cafe, owned by that user and carrying the submitted fields. Users and session never change, and validity is kept. |
| Routes.Delete | main.py:225-238 | No session gives 401. A session naming a missing user, or an absent cafe, gives NotFound with nothing changed. The store changes iff the user is an admin or the owner, and then exactly the target is gone. A refusal changes nothing and carries a notice. No other row and no session ever changes. |
| Routes.QueryText | main.py:274-277 | The text put into the pattern: the submitted query, or "None" when the form has no `query` field, as Python formats a missing value. |
| Routes.Search | main.py:272-288 | Any name match means exactly the name matches are shown. With no name match, any location match means exactly the location matches are shown. The error view appears iff neither matches. The state never changes. |
| Routes.AdminOnly | main.py:90-99 | The wrapped handler's response is returned when the logged-in user has id 1. A visitor with no session, or with another id, gets Forbidden with the state unchanged. |
| AsWritten.DeleteAsWritten | main.py:231 | As written, delete never changes the state, and any logged-in request for an existing cafe ends in a server error. |
| AsWritten.OwnerCannotDeleteAsWritten | main.py:231 | An owner deleting their own cafe gets a server error and keeps the cafe as written, while the corrected route removes it. |
| AsWritten.AddCafeAsWritten | main.py:185-197 | As written, add never changes the state. A submission without a session is a server error. A logged-in submission is refused for the missing `seats`. |
| AsWritten.AddCafeNeverAddsAsWritten | main.py:185-197 | A logged-in submission with a fresh name adds nothing as written, while the corrected route adds exactly one cafe. |
| AsWritten.AdminOnlyAsWritten | main.py:94 | As written, the admin guard answers an anonymous visitor with a server error, and otherwise behaves like the corrected guard. |
| AsWritten.AnonymousAtAdminRoute | main.py:94-95 | An anonymous visitor at an admin route gets a server error as written and Forbidden once corrected. |
| Scenarios.SecondRegistrationRejected | main.py:108-114 | Registering again with an email that a registration stored changes nothing and redirects to login. |
| Scenarios.RegisterThenLogin | main.py:139-152 | After registering and logging out, login succeeds iff the registered password is given. It then restores the registration's session, and a wrong password changes nothing. |
| Scenarios.NonOwnerDeleteKeepsCafe | main.py:231-236 | A logged-in user who is neither admin nor owner cannot delete a cafe, which stays in the listing. |
| Scenarios.NameMatchSuppressesLocation | main.py:276-284 | With one cafe matching only by location and one matching by name, the search shows only the name match. |
| Scenarios.SohoMissesBlueBottle | main.py:277 | The query "Soho" does not match the name "Blue Bottle", whose location matches it. |
| Scenarios.SohoExample | main.py:276-284 | With Blue Bottle (located in Soho) and Soho Diner listed, searching "Soho" shows only Soho Diner: the name match hides the location match. |
| Scenarios.EmptySearchListsAll | main.py:277 | An empty query matches every name, so the search shows the whole non-empty table in store order. |
| Scenarios.FirstUserIsAdmin | main.py:121-129 | The first user registered into an empty store gets id 1, the id the admin guard singles out, and is logged in. |
| Scenarios.AdminRemovesSubmittedCafe | main.py:225-238 | Admin registers, owner registers and submits a cafe, and the admin logs back in and deletes it. The submitted cafe is owned by someone else, the delete succeeds and the listing no longer shows it. |

## Left out

- Flask routing, templates, Bootstrap and flash rendering are left out. Views and notices are tags in the outcome.
- The SQLAlchemy/SQLite engine, sessions and commits are left out. Tables are in-memory sequences. A failed insert leaves the store unchanged, as a rolled-back transaction would.
- SQLite does not enforce `String(n)` column lengths, so they are not modelled. Nor does it enforce foreign keys by default, so `Store.InsertCafe` does not check the owner. Owner existence is kept by the routes instead, because the owner always comes from the session.
- Routes.Search: queries containing the LIKE wildcards `%` or `_` are excluded by its precondition, because full LIKE pattern matching is outside this model.
- Unicode case folding is left out. ASCII folding matches SQLite's built-in `lower()`.
- PBKDF2 hashing with a random salt is left out. `Passwords.Hash` is a deterministic injective stand-in, so two hashes of one password are equal here.
- WTForms validation (`DataRequired`, `URL()`, the register and login forms) is not modelled. It is folded into each route's `Option` input.
- Session cookie signing and the secret key are left out. The session is `Option<nat>`.
- GET requests and failed validations are modelled only as rendering the form.
- Routes.Login: the clause binding the session to the email's owner is stated for a valid store. On an invalid store, with two users sharing an email, the lookup takes the first row, as `.scalar()` does.
- Routes.Delete: the admin test is a parameter `isAdmin: User -> bool`, because `User` stores no admin flag. `Routes.IdOneIsAdmin` is the admin guard's own convention, and the end-to-end scenario uses it.
- The user loader's 404 for a session naming a missing user (main.py:86) is modelled only where a handler reads `current_user` or logs out: `Routes.AddCafe`, `Routes.Delete`, `Routes.AdminOnly`, `Routes.Logout` and the `AsWritten` handlers. Flask-Login also loads the user whenever a template is rendered, so in the source `Routes.Home`, `Routes.ShowCafe`, `Routes.Search` and the form pages of `Routes.Register`, `Routes.Login` and `AsWritten.AddCafeAsWritten` would answer 404 too. The model renders those pages instead. This never arises on a valid state: `Routes.Valid` requires the session to name an existing user, and every route keeps `Routes.Valid`.
- Routes.AdminOnly: no route in the source uses the decorator, so it is modelled as a wrapper around any handler `State -> Response`.
- Commented-out routes (main.py:172-178, 202-222, 247-269) and app startup and configuration (main.py:15-35, 80-81, 291-292) are left out.

## Findings

| source | as written | input that shows it | evidently intended | confidence | as-written member | corrected member |
|---|---|---|---|---|---|---|
| main.py:231 | the delete test reads `current_user.is_admin`, which `User` (main.py:38-46) does not declare and the login mixin does not supply | a logged-in owner deleting their own existing cafe | the cafe is deleted when the user is an admin or its owner | high; not executed | AsWritten.DeleteAsWritten, AsWritten.OwnerCannotDeleteAsWritten | Routes.Delete |
| main.py:185-195 | the new row never sets `seats`, declared NOT NULL at main.py:64, and reads `current_user.id` with no login guard | a logged-in user submitting a valid form with a fresh cafe name | the cafe is stored, owned by the submitter, and anonymous visitors are refused | high; not executed | AsWritten.AddCafeAsWritten, AsWritten.AddCafeNeverAddsAsWritten | Routes.AddCafe |
| main.py:94 | the guard compares `current_user.id`, which the anonymous user object lacks | an anonymous visitor at an admin-only route | 403 Forbidden for every visitor who is not user 1 | medium (no route applies the guard); not executed | AsWritten.AdminOnlyAsWritten, AsWritten.AnonymousAtAdminRoute | Routes.AdminOnly |
