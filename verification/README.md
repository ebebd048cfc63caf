# User identity service — a Dafny model

This project models the identity-management core of a user service that
keeps usernames and emails unique on a key-value store which is atomic only
per item. Users live in a user table keyed by username; a second record set,
the *projection*, maps each email to the username that owns it. Creating a
user, and changing a user's email, write the user record and the projection
in one all-or-nothing multi-item transaction, with "item exists" / "item
does not exist" conditions.

Modules, one per component:

- `Errors` (`errors.dfy`): `Option`, `Result` and the error values
  (`InputError(field, message)`, the store's `TransactionCanceled` and
  `ValidationException`).
- `Users` (`users.dfy`): the `User` record (a nil password hash is `None`),
  the zero user, the `EmailUser` projection record, and `HashBytes`, which
  compares hashes the way `bytes.Equal` does (nil equals empty).
- `UpdateExpressions` (`update_expressions.dfy`): field-level `SET`/`REMOVE`
  instructions and what the store does with them. A removed attribute reads
  back as the zero value.
- `KeyValueStore` (`store.dfy`): the two tables and `TransactWriteItems`. A
  malformed request is refused: an empty one, one that names an item twice,
  or one that updates the key or writes a mistyped value. Otherwise every
  condition is evaluated against the pre-state, and then either every
  operation applies or the store is returned unchanged.
- `UpdateDiff` (`update_diff.dfy`): the diff engine behind
  `buildUserUpdateExpression`, as a list of instructions.
- `UserService` (`user_service.dfy`): `PutUser`, `UpdateUser`, the three
  lookups and the batch fetch `GetUserListByUsername`.
- `Identity` (`identity.dfy`): the invariant linking the projection to the
  user table, and proofs that create and update preserve it.

The user record's validation (`model.User.Validate`) is a parameter
`validate: User -> Option<Error>` of `PutUser` and `UpdateUser`; `None`
means valid. Write calls return the store afterwards, the transaction they
submitted (`None` when none was issued), and the error.

## Behaviour worth knowing

The model follows the code in each of these cases.

- A projection that names a missing user is reported as
  `InputError("username", "not found")`. That is the same error an unknown
  username gives, so a caller cannot tell a broken projection from a
  missing user. `Identity.ConsistentLookups` shows that this path cannot be
  reached while the invariant holds.
- A create that collides on the username or on the email returns the
  store's raw cancellation error (`TransactionCanceled`), not an input
  error naming the field that is taken.
- The password hash is written whenever the new hash is non-nil and
  differs byte-wise from the old one. An empty but non-nil hash therefore
  overwrites a non-empty stored hash.
- An update's conditions only test that the items exist, not that they
  still hold the values the caller read. An update made from an
  out-of-date copy of the user can therefore commit.
  `Identity.StaleSnapshotBreaksConsistency` gives a store where it commits
  and deletes another user's projection.

## Model

| member | source | states |
|---|---|---|
| `UpdateExpressions.ApplyUpdate` | service/UserService.go:113-167 | The store applying the update expression (lines 113-123) built from the instructions (lines 135-167). Applying it keeps the key. Fields no instruction names stay as they were. With distinct fields, each named field reads back what its instruction wrote: the SET value, or the zero value for REMOVE. |
| `KeyValueStore.ApplyOps` | service/UserService.go:125-127 | Applying operations on distinct items leaves every operation's effect visible in the final store. Every item no operation names is unchanged. |
| `KeyValueStore.TransactWriteItems` | service/UserService.go:125-130 | All-or-nothing commit. It succeeds exactly when the request is well formed and every condition holds in the pre-state. On success every operation is reflected and no other item changes. On failure the store is unchanged. A malformed request gives a validation error; a failed condition gives a cancellation. |
| `UpdateDiff.EmailDiff` | service/UserService.go:138-140 | At most one instruction, `SET Email` to the new email, present exactly when the email changed. |
| `UpdateDiff.PasswordDiff` | service/UserService.go:142-144 | At most one instruction, `SET PasswordHash` to the new hash, present exactly when the new hash is non-nil and differs byte-wise from the old one. |
| `UpdateDiff.OptionalStringDiff` | service/UserService.go:146-160 | For image and bio: `SET` when the value changed to a non-empty one, `REMOVE` when it changed to "", nothing when it is unchanged. |
| `UpdateDiff.Diff` | service/UserService.go:135-168 | The store accepts the diff: no field appears twice, Username never appears, and every value has the attribute's type. |
| `UpdateDiff.DiffEmailPolicy` | service/UserService.go:138-140 | The diff contains `SET Email := new email` exactly when the email changed, and has no other instruction on Email (no REMOVE). |
| `UpdateDiff.DiffPasswordPolicy` | service/UserService.go:142-144 | The diff touches PasswordHash exactly when the new hash is non-nil and differs byte-wise. It only ever sets the new hash, never REMOVE. A nil new hash leaves the field untouched. |
| `UpdateDiff.DiffOptionalPolicy` | service/UserService.go:146-160 | Image and bio get SET exactly when changed to a non-empty value and REMOVE exactly when changed to "". A field is untouched exactly when it is unchanged. |
| `UpdateDiff.DiffMeetsIntent` | service/UserService.go:135-160 | Applying the diff to the old record gives the new email, image and bio and keeps the username. The hash becomes the new one when one is given and stays the old one when the new hash is nil. |
| `UpdateDiff.DiffEmptyIffNoChange` | service/UserService.go:162-164 | The diff is empty exactly when no field rule fires, and exactly when applying it would leave the record unchanged. |
| `UserService.GetUserByUsername` | service/UserService.go:202-215 | Succeeds exactly when the username is stored, returning that record, whose username is the one asked for. Otherwise `InputError("username", "not found")`. |
| `UserService.GetUsernameByEmail` | service/UserService.go:187-200 | Succeeds exactly when a projection exists for the email, returning its username. Otherwise `InputError("email", "not found")`. |
| `UserService.GetUserByEmail` | service/UserService.go:170-185 | A blank email gives "can't be blank". A missing projection, or one holding an empty username, gives email "not found". Otherwise the result is the username fetch of the projected name. |
| `UserService.CreateTransaction` | service/UserService.go:34-52 | The create request is well formed. It writes exactly the user item and the email's projection item, each on the condition that the item does not exist yet. |
| `UserService.PutUser` | service/UserService.go:13-63 | A failed validation returns its error and issues no transaction. Otherwise the create commits exactly when both the username and the email are free. On commit the user and its projection are added and nothing else changes. On a conflict the store is unchanged and the cancellation error is returned. |
| `UserService.PutUserThenFetch` | service/UserService.go:13-63 | After a committed create the user is found by username, and, when its username and email are non-empty, also by email. |
| `UserService.UpdateTransaction` | service/UserService.go:81-123 | No transaction exactly when the diff is empty. Any transaction is well formed and ends with the user update conditioned on existence. An email change gives exactly: put the new projection (must not exist), delete the old one (must exist), update the user (must exist). |
| `UserService.UpdateUser` | service/UserService.go:65-133 | A failed validation issues nothing and returns its error. An empty diff issues nothing and succeeds with the store unchanged. A submitted update commits exactly when the user exists and, on an email change, the new email is free and the old one projected. Any error leaves the store unchanged. |
| `UserService.UpdateConditions` | service/UserService.go:83-118 | The update's conditions hold exactly when the user exists and, on an email change, the new email is free and the old email has a projection. |
| `UserService.UpdateUserEffect` | service/UserService.go:83-127 | A committed update changes only the user item, to the diff applied to the stored record. On an email change the projection of the old email is removed and the new email is linked to the username. |
| `UserService.UpdateUserEmailSwitch` | service/UserService.go:83-127 | After a committed email change the old email no longer resolves. The new email resolves to the same record as the username, and that record carries the new email. |
| `UserService.UpdateUserFields` | service/UserService.go:103-127 | From an up-to-date snapshot, a committed update leaves the stored record with the new email, image and bio. The hash is the new one when one was given and the old one otherwise. |
| `UserService.BatchGetItems` | service/UserService.go:246-257 | The batch get returns exactly the stored users among the requested keys. |
| `UserService.UsernameSet` | service/UserService.go:236-239 | The set built from the input holds exactly the usernames that occur in it. |
| `UserService.BatchKeys` | service/UserService.go:241-244 | The request keys list every username of the set exactly once, in no particular order. |
| `UserService.IndexByUsername` | service/UserService.go:259-273 | Re-keying the response by each item's username gives a map whose entries are stored users under their own usernames, and every returned user is in it. |
| `UserService.GetUserListByUsername` | service/UserService.go:231-281 | Empty input gives an empty result and no request. Otherwise one request is issued whose keys are the distinct input usernames. The output has the input's length, and element i is what a single fetch of `usernames[i]` finds, or the zero user. |
| `Identity.ConsistentEmailsUnique` | service/UserService.go:34-51 | In a consistent store no two users share an email. |
| `Identity.ConsistentLookups` | service/UserService.go:170-215 | In a consistent store a user found by email carries that email. Every stored user with a non-empty username and email is found by it. The dangling-projection error never occurs. |
| `Identity.PutUserPreservesConsistency` | service/UserService.go:34-60 | A create, committed or not, keeps the projection consistent with the user table. |
| `Identity.RelinkPreservesConsistency` | service/UserService.go:83-101 | Replacing a user while moving its projection from the old email to a free new one keeps the store consistent. |
| `Identity.UpdateUserPreservesConsistency` | service/UserService.go:81-127 | An update from an up-to-date snapshot that keeps the username, committed or not, keeps the store consistent. |
| `Identity.StaleSnapshotBreaksConsistency` | service/UserService.go:94-99 | There is a consistent store where an update from an out-of-date snapshot commits and leaves the store inconsistent. |

## Left out

- Transport and serialization failures of the store client are not modelled: errors from `GetItemByKey`, `BatchGetItems`, `MarshalMap`, `UnmarshalMap`, and the expression builder's `Build` (service/UserService.go:103-106, 166-167). The store is an in-memory value, so those `err` returns have no counterpart.
- Paging, retries and the size bound of `BatchGetItems` are left out. The batch get is a single function over the store.
- DynamoDB's request limits are left out: at most 100 items per transaction, no empty-string key values, and item size.
- The expression builder's string syntax, attribute names and value placeholders are not modelled. Instructions are data.
- `GetCurrentUser`, `VerifyAuthorization`, the table-name globals and the HTTP handler in route/user-put/main.go are not part of this model. The handler calls `UpdateUser` with `newUser.Username` set to `oldUser.Username` (route/user-put/main.go:57-65); `Identity.UpdateUserPreservesConsistency` and `UserService.UpdateUserEmailSwitch` assume the same.
- `model.User.Validate` is not part of this model. It is the parameter `validate`.
- Concurrency between the caller's read of the old user and the transaction is not modelled. A stale read appears only as an `oldUser` that differs from the stored record; see `Identity.StaleSnapshotBreaksConsistency`.
- Which key collided on create is not reported. Like the source, a conflict returns only the store's cancellation error, without saying whether the username or the email was taken.
