# User reconciliation, modelled in Dafny

This project models the user actions of a Next.js social app that signs
users in with Clerk and keeps its own user table in Prisma. The actions are
in `src/actions/user.actions.ts`:

- `syncUser` finds the local record of the signed-in Clerk account, or
  creates it from the Clerk profile the first time;
- `getUserByClerkId` looks a record up by its Clerk id;
- `getDbUserId` returns the local id of the signed-in account, or throws
  `Unauthorized` or `User not found`.

Files:

- `wrappers.dfy`: `Option` and `Result`.
- `js_strings.dfy`: the JavaScript parts that the derived fields depend on.
  These are `split` with a one-character separator, `trim` with
  ECMAScript's whitespace set (sections 12.2 and 12.3 of ECMA-262), and
  `||` versus `??` on a string that may be null.
- `user_actions.dfy`: the data model, the derived `username` and `name`, the
  find-or-create step as a function `Sync` on the table value `Db`, and the
  class `UserStore`. The class holds the table as
  `users: map<string, User>` keyed by `clerkId`, plus the counter `nextId`
  that gives out fresh local ids. Its methods `Insert`, `SyncUser`,
  `GetUserByClerkId` and `GetDbUserId` are proved against `Create`, `Sync`
  and the table.

The inputs the code reads from its surroundings are parameters:

- the Clerk session, `auth().userId` and `currentUser()`, is a `Session`
  value;
- whether Prisma refuses a write is the boolean `reject`.

`syncUser`'s `return;` is `Ok(None)`. A thrown error is `Err(…)`.

Points where the code's behaviour is easy to misread (the model follows the
code):

- The username falls back to the address only when the Clerk username is
  `null`/`undefined` (`??`). An empty username is kept (`EmptyUsernameKept`).
  It is not replaced because it is empty.
- `!userId` also rejects an empty-string `userId`, in both `syncUser` and
  `getDbUserId` (`Truthy`).
- The find-then-create race is not guarded in the code. An insert whose
  `clerkId` is already stored fails with `StoreFailure`, and that error
  propagates. This is an assumption about the store's unique constraint on
  `clerkId`, which is not visible in the code (`Create`). In a single
  sequential call it cannot happen, because `syncUser` has just looked the
  key up.

## Model

| member | source | states |
|---|---|---|
| `JsStrings.IsSpace` | src/actions/user.actions.ts:38 | Defines the characters `trim()` removes: ECMA-262 WhiteSpace (tab, vertical tab, form feed, space, no-break space, U+FEFF and the other space separators U+1680, U+2000-U+200A, U+202F, U+205F, U+3000) and LineTerminator (LF, CR, U+2028, U+2029). |
| `JsStrings.Split` | src/actions/user.actions.ts:37 | `split` gives at least one piece, and no piece contains the separator. The first piece is a prefix of the input, followed by the separator or by the end. |
| `JsStrings.JoinSplit` | src/actions/user.actions.ts:37 | Joining the pieces with the separator gives back the original string. |
| `JsStrings.SplitJoin` | src/actions/user.actions.ts:37 | Splitting a join of separator-free pieces gives those pieces back. |
| `JsStrings.SplitNoSeparator` | src/actions/user.actions.ts:37 | A string without the separator splits into itself alone. |
| `JsStrings.FirstPieceBeforeSeparator` | src/actions/user.actions.ts:37 | If index k holds the first separator, `split(sep)[0]` is exactly the text before index k. |
| `JsStrings.Or` | src/actions/user.actions.ts:38 | Defines `x \|\| d` on a string that may be null: `x` when it is present and not empty, otherwise `d`. |
| `JsStrings.Coalesce` | src/actions/user.actions.ts:37 | Defines `x ?? d`: `x` whenever it is present, even when empty, otherwise `d`. |
| `JsStrings.OrCoalesceDiffer` | src/actions/user.actions.ts:37-38 | `\|\|` and `??` differ exactly for a present empty string with a non-empty fallback. |
| `JsStrings.TrimStart` | src/actions/user.actions.ts:38 | The result is a suffix of the input. Everything dropped is whitespace, and the result does not start with whitespace. |
| `JsStrings.TrimEnd` | src/actions/user.actions.ts:38 | The result is a prefix of the input. Everything dropped is whitespace, and the result does not end with whitespace. |
| `JsStrings.Trim` | src/actions/user.actions.ts:38 | `trim()` is empty exactly when the input is all whitespace. Otherwise it neither starts nor ends with whitespace. |
| `JsStrings.TrimSlice` | src/actions/user.actions.ts:38 | `trim()` is the contiguous slice of the input that starts where `TrimStart` stops, with only whitespace before and after it. |
| `JsStrings.TrimAllSpace` | src/actions/user.actions.ts:38 | Trimming the end of `TrimStart(s)` leaves nothing exactly when `s` is all whitespace. |
| `JsStrings.TrimEnds` | src/actions/user.actions.ts:38 | The end-trim of `TrimStart(s)` has no whitespace at either end. |
| `JsStrings.TrimUnchanged` | src/actions/user.actions.ts:38 | A string without whitespace at its ends is its own trim. |
| `JsStrings.TrimIdempotent` | src/actions/user.actions.ts:38 | Trimming twice is the same as trimming once. |
| `JsStrings.TrimStartSkipsSpace` | src/actions/user.actions.ts:38 | Leading whitespace does not affect the trimmed start. |
| `JsStrings.TrimEndSkipsSpace` | src/actions/user.actions.ts:38 | Trailing whitespace does not affect the trimmed end. |
| `JsStrings.TrimSurrounded` | src/actions/user.actions.ts:38 | Whitespace padding around a string with non-space ends is removed and nothing else is. |
| `UserActions.HasSession` | src/actions/user.actions.ts:14 | Defines the guard `!userId \|\| !user` negated: a truthy `userId` and a profile. |
| `UserActions.HasEmail` | src/actions/user.actions.ts:31 | Defines the guard `!user.emailAddresses \|\| user.emailAddresses.length === 0` negated: the list is present and not empty. |
| `UserActions.Truthy` | src/actions/user.actions.ts:14 | Defines JavaScript truthiness of an optional string, as in `!userId` here and `!clerkId` at line 79: present and not empty. |
| `UserActions.FullName` | src/actions/user.actions.ts:38 | Defines the template literal `${firstName \|\| ""} ${lastName \|\| ""}`: each part or "" when it is null or empty, joined by one space. |
| `UserActions.DeriveUsername` | src/actions/user.actions.ts:37 | The username is the Clerk username whenever one is present. Otherwise it is a prefix of the email that contains no '@' and ends at the first '@' or at the end of the email. |
| `UserActions.UsernameFromEmail` | src/actions/user.actions.ts:36-37 | With no Clerk username, the username is the email's text before its first '@'. |
| `UserActions.UsernameFromEmailWithoutAt` | src/actions/user.actions.ts:37 | With no Clerk username and no '@' in the email, the username is the whole email. |
| `UserActions.EmptyUsernameKept` | src/actions/user.actions.ts:37 | An empty Clerk username is kept, whereas `\|\|` would have replaced it with the email's local part. |
| `UserActions.DeriveName` | src/actions/user.actions.ts:38 | The name is never `""`. It is null exactly when `first + " " + last` is all whitespace. Otherwise it has no whitespace at either end. |
| `UserActions.MissingNamePartIsEmpty` | src/actions/user.actions.ts:38 | A null first or last name gives the same name as an empty one. |
| `UserActions.NameOfBlankParts` | src/actions/user.actions.ts:38 | If both parts are missing or blank, the name is null. |
| `UserActions.NameOfBothParts` | src/actions/user.actions.ts:38 | Trimmed non-empty parts are joined with exactly one space. |
| `UserActions.NameOfFirstOnly` | src/actions/user.actions.ts:38 | A trimmed first name with no last name is the whole name. The padding space is dropped. |
| `UserActions.NameOfLastOnly` | src/actions/user.actions.ts:38 | A trimmed last name with no first name is the whole name. The padding space is dropped. |
| `UserActions.DerivedFieldsWithoutUsername` | src/actions/user.actions.ts:36-38 | `a.b@example.com` with no username gives username `a.b`. Empty first and last names give a null name. |
| `UserActions.DerivedFieldsWithUsername` | src/actions/user.actions.ts:36-38 | Username `hank` is kept, and `Hank`/`Hill` give the name `Hank Hill`. |
| `UserActions.NewUserData` | src/actions/user.actions.ts:36-47 | Defines the `data` object passed to `prisma.user.create`: `clerkId`, the derived `name` and `username`, the first address as `email`, and `imageUrl` as `image`. |
| `UserActions.Create` | src/actions/user.actions.ts:40-48 | A create fails (the table is unchanged) exactly when the store rejects the write or the key already exists. Otherwise it adds exactly one record under `clerkId` with the next id, leaves every other record as it was, and returns the stored record. |
| `UserActions.Sync` | src/actions/user.actions.ts:11-51 | No userId or no profile: no result, table unchanged. Existing record: that exact record, table unchanged. No email: no result, table unchanged. Rejected write: the error, table unchanged. Otherwise: one new record under the userId with the next id, the first address as `email`, the derived `username` and `name`, and `imageUrl` as `image`; every other record unchanged; the returned record equals the stored one. |
| `UserActions.SyncIdempotent` | src/actions/user.actions.ts:20-28 | After a sync that did not throw, a second sync returns the same result and leaves the table as it was. |
| `UserActions.SyncKeepsWellFormed` | src/actions/user.actions.ts:20-48 | Every sync keeps each record under its own `clerkId`, local ids distinct, and ids below the counter. |
| `UserActions.OneRecordPerClerkId` | src/actions/user.actions.ts:20-24 | In a well-formed table, any record that carries a `clerkId` is the one stored under that key. |
| `UserActions.UserStore.Insert` | src/actions/user.actions.ts:40-48 | The result and the new table are those of `Create`, and the invariant is kept. |
| `UserActions.UserStore.SyncUser` | src/actions/user.actions.ts:7-58 | The result and the new table are those of `Sync` on the old table, and the invariant is kept. |
| `UserActions.UserStore.GetUserByClerkId` | src/actions/user.actions.ts:60-75 | Returns the record stored under `clerkId`, or nothing if there is none, and never changes the table. |
| `UserActions.UserStore.GetDbUserId` | src/actions/user.actions.ts:77-86 | Without a truthy userId it fails with `Unauthorized` (message "Unauthorized"). With no record it fails with `UserNotFound` (message "User not found"). Otherwise it returns that record's `id`. It never writes. |

## Left out

- `src/app/page.tsx` is static markup with nothing to model.
- The `_count` aggregates of `getUserByClerkId` (followers, following, posts)
  belong to relations that are not part of this model.
  `UserActions.UserStore.GetUserByClerkId` returns the user record without
  them.
- Columns of the Prisma user table other than those `syncUser` writes are
  not part of this model. The format of the local `id` is not visible in the
  code, so it is modelled as a natural number from a counter.
- Failing reads: a `findUnique` that throws would propagate out of
  `syncUser`, `getUserByClerkId` and `getDbUserId` alike, since none of them
  catches it. Only a rejected write is modelled, as the `reject` parameter.
- UserActions.UserStore.GetUserByClerkId: treats the table read as never
  failing, so it has no error result although the store could throw.
- UserActions.UserStore.GetDbUserId: treats the table read as never failing;
  its promise that the error is never `StoreFailure` holds of the model, not
  of the program, where a store read error would propagate.
- The Clerk calls `auth()` and `currentUser()` are a `Session` input. Token
  and session handling inside Clerk is out of scope.
- Concurrency: two requests can race between the lookup and the create.
  Each call is modelled as one sequential step. A duplicate insert is a
  `StoreFailure`, which is an assumption about the store.
- `async`/`await` is not modelled. Each action is one step.
- `console.log` and `console.error` only log.
- Strings are sequences of Unicode scalar values, not UTF-16 code units.
  The characters that `split('@')` and `trim()` match ('@' and the
  whitespace set) are all in the Basic Multilingual Plane and none is a
  surrogate, so a character outside that plane is never split or trimmed,
  and the results agree. JavaScript strings may also hold lone surrogates,
  which a Dafny `string` cannot represent.
