# User service core, modelled in Dafny

This project models the core of a small user-account service written in Rust
(actix-web + sqlx over MySQL). It covers three parts:

- **Records and input rules** (`src/models/user.rs`). A `User` row has byte columns: `image`, `email`, `full_name` and `password`. The password is never serialised.
- **Request bodies and their rules.** `NewUser` and `SignInWithEmail` declare the same rules: a valid email, and a password of at least 8 characters that holds an ASCII letter and an ASCII digit. Sign-up applies them; sign-in never calls `validate()` (`SignInSkipsValidation`). `UpdateProfile` needs a present full name to have at least 3 characters and a present image to be a valid URL.
- **The profile patch map.** `as_hashmap` always holds both columns, with `""` for an absent field.
- **The user store** (`src/db/user.rs`). `UserRepository` is a class over the `User` table, held as a map from email bytes to rows.
  - `find_by_email` looks a row up.
  - `create` hashes the password, then UPDATEs the password of an existing row and SELECTs it. It does not insert.
  - `update` renders the patch into a SET clause by string manipulation, runs it and SELECTs the row.
  - `delete` SELECTs the row, deletes it and returns the row as it was.
  - `find_by_email` is a single query on the pool. Each writing operation (`create`, `update`, `delete`) is a transaction that either commits its whole effect or fails before commit. The methods work step by step and restore the committed table on rollback. Each is proved equal to a function of the table (`CreateSpec`, `UpdateSpec`, …), and the properties are proved about those functions.
- **The SET-clause builder** (`src/db/user.rs:64-73`). Each pair is rendered with `format!`. The pieces are joined with one space. Then `len() - 2` characters are kept. `len()` counts UTF-8 bytes but `chars().take` counts characters, so the module also models Rust's `String` as UTF-8: byte length, encoding, and `String::from_utf8_lossy`.
- **The HTTP handlers** (`src/handlers/user.rs`). They are pure functions from the committed table, the request and the outcomes of the external services to a response (status and body). The handlers that write also return the table they leave.
  - The lemmas fix which failure gives 200, 400 or 500, and in what order sign-in checks.
  - Other lemmas follow several requests in a row: find after create, find after delete, sign-in after create, create twice.

Modules: `Wrappers` (Option/Result), `Utf8`, `Json`, `UserModels`, `SetClause`,
`UserDb`, `UserHandlers`, one file each.

The source functions map to these Dafny members, whose properties are stated by the lemmas in "## Model":

- **Handlers:** `find`, `create`, `delete`, `sign_in_with_email` and `get_jwt_and_user` are `UserHandlers.Find`, `Create`, `Delete`, `SignIn` and `GetJwtAndUser`.
- **Repository:** the `UserRepository` methods are `UserDb.UserRepository.FindByEmail`, `Create`, `Update` and `Delete`. Their table effects are `FindByEmailSpec`, `CreateSpec`, `UpdateSpec` and `DeleteSpec`.
- **SET-clause builder:** the clause building in `update` is `SetClause.SetClause`, reached through `UserDb.UpdateClause`. The corrected clause is `SetClause.SetClauseIntended`.
- **Validation:** the `validate()` derives are `NewUser.Validate`, `SignInWithEmail.Validate` and `UpdateProfile.Validate`, over `UserModels.FieldErrors`.
- **Serde:** serialisation is `UserJson` and `UserWithAuthJson`.
- **`String::from_utf8_lossy`:** `Utf8.Lossy`.

### Outside the model

These behaviours are not modelled; they are given as parameters instead:

- **Email and URL syntax checks.** `Oracle` supplies them as predicates.
- **Password hasher and token issuer.** `Crypto` supplies them as functions that may fail. The hasher is a function, so hashing the same password twice gives the same hash. Sign-in's re-hash-and-compare relies on that.
- **Database failures.** `fault` names the one transaction step that fails, if any.
- **What the database does with a SET clause.** `exec` maps the clause to the new `fullName`/`image` values, or to a rejection. The clause passed to it is the one the builder writes, so a clause left with a trailing comma reaches `exec`, which may reject it.
- **`HashMap` iteration order.** `swapped` picks one of the two orders, and the lemmas hold for both.

### Where the model departs from the service's own description

`create` is an UPDATE of an existing row, as the code has it. So a sign-up for
an email without a row fails, and a second sign-up for the same email succeeds
again (`CreateTwiceSucceeds`). The repository's integration test expects that
second sign-up to be rejected. The model follows the code, not the test.

## Model

| member | source | states |
|---|---|---|
| `UserModels.UserJson` | src/models/user.rs:51-72 | a serialised `User` has exactly the members id, image, email, full_name in declaration order, and no password member |
| `UserModels.UserJsonRoundTrip` | src/models/user.rs:51-72 | reading a serialised user back gives the same user with password `None` (the skipped field takes its default) |
| `UserModels.UserWithAuthJson` | src/models/user.rs:84-89 | the sign-in reply serialises as access_token, expired_at, user, and its user member is the user's own JSON |
| `UserModels.IsMatchIff` | src/models/user.rs:9-12 | the unanchored patterns `[A-Za-z]+` and `[0-9]+` match exactly the strings that contain a character of the class |
| `UserModels.FieldErrors` | src/models/user.rs:93-104 | every rule of a field is checked: every failing rule's code and message is reported, and every reported error is a failing rule's; no errors iff every rule passes (the declaration order is pinned for the password rules by `PasswordErrorsExact`) |
| `UserModels.PasswordErrorsExact` | src/models/user.rs:95-103 | the password errors are exactly the length, letter and digit failures in declaration order, with their messages; none iff ≥ 8 chars, a letter and a digit |
| `UserModels.NewUserValidIff` | src/models/user.rs:91-105 | a sign-up body validates iff its email passes and its password meets the policy; each field has an error entry iff it fails |
| `UserModels.SignInRulesMatchNewUser` | src/models/user.rs:140-154 | the sign-in body declares the same email and password rules as the sign-up body and would be judged identically |
| `UserModels.ShortFullNameRejected` | src/models/user.rs:107-110 | a present full name shorter than 3 characters yields exactly the "must be at least 3 characters" length error |
| `UserModels.UpdateProfileValidIff` | src/models/user.rs:107-113 | a patch validates iff its present full name has ≥ 3 characters and its present image is a URL; absent fields are not checked |
| `UserModels.UpdateProfile.AsHashmap` | src/models/user.rs:115-137 | the map has exactly the keys full_name and image; each maps to the field's string when present and to "" when absent |
| `Utf8.ByteLenBounds` | src/db/user.rs:72 | a string's byte length is at least its character count (at most four times it), with equality exactly for ASCII text |
| `Utf8.LossyEncode` | src/handlers/user.rs:85 | decoding the bytes a string is stored as, lossily, gives the string back |
| `SetClause.FragmentShape` | src/db/user.rs:67 | the `format!` template renders a pair as `k = nullif('v', ''), ` with the value inserted verbatim, unescaped |
| `SetClause.Take` | src/db/user.rs:70-73 | taking n characters gives the first n characters, or the whole string when it is shorter |
| `SetClause.JoinedShape` | src/db/user.rs:64-69 | the fragments joined by one space are the assignments separated by ",  " plus one trailing ", " |
| `SetClause.NeverUnderflows` | src/db/user.rs:72 | with at least one pair the joined text has at least two bytes, so `len() - 2` does not underflow |
| `SetClause.EmptyUnderflows` | src/db/user.rs:72 | with no pair the subtraction would underflow |
| `SetClause.JoinedExtra` | src/db/user.rs:67-69 | the template adds only ASCII: the joined text's surplus bytes are exactly those of the keys and values |
| `SetClause.SetClauseAsWritten` | src/db/user.rs:64-73 | the clause as written is the assignments followed by as much of ", " as the text has surplus bytes (capped at two characters) |
| `SetClause.SetClauseAscii` | src/db/user.rs:69-73 | with ASCII keys and values the clause is exactly the assignments separated by ",  ", with no trailing comma |
| `SetClause.SetClauseMultiByte` | src/db/user.rs:70-73 | with any multi-byte character the clause keeps a trailing "," or ", " |
| `SetClause.SetClauseOneExtraByte` | src/db/user.rs:70-73 | when the keys and values carry exactly one extra byte, the clause keeps the comma of the trailing ", " |
| `SetClause.AccentedNameLeavesComma` | src/db/user.rs:70-73 | full_name "José" with an ASCII image gives a clause ending in a comma |
| `SetClause.SetClauseIntended` | src/db/user.rs:64-73 | removing the trailing ", " by character count yields exactly the assignments separated by ",  ", for any text |
| `SetClause.TwoPairClause` | src/db/user.rs:69-73 | for two pairs the corrected clause (`SetClauseIntended`, not the one the source builds) is the first assignment, ",  ", then the second |
| `UserDb.UserRepository.constructor` | src/db/user.rs:16-19 | a repository over a well-formed table |
| `UserDb.UserRepository.FindByEmail` | src/db/user.rs:21-31 | the lookup returns the row stored under the email's bytes (whose email is that email) or an error, and changes nothing |
| `UserDb.UserRepository.Create` | src/db/user.rs:33-61 | hash, UPDATE, SELECT, commit step by step with rollback; the result and committed table equal `CreateSpec` and the table stays well formed |
| `UserDb.UserRepository.Update` | src/db/user.rs:63-105 | build the clause from `as_hashmap` as the source writes it (byte-count cut included), then UPDATE, SELECT, commit with rollback; result and committed table equal `UpdateSpec` |
| `UserDb.UserRepository.Delete` | src/db/user.rs:107-131 | SELECT, DELETE, commit with rollback; result and committed table equal `DeleteSpec` |
| `UserDb.FindByEmailFindsRow` | src/db/user.rs:21-31 | a lookup succeeds iff no failure and a row has that email, and returns that row |
| `UserDb.CreateNeverAddsRow` | src/db/user.rs:33-61 | create keeps the key set; without a row it fails and changes nothing; on success only that row's password changes, to the stored hash, and that row is returned; any failure commits nothing |
| `UserDb.UpdateClauseText` | src/db/user.rs:64-73 | the update's clause is `full_name = nullif('…', '')` and `image = nullif('…', '')` separated by ",  ", in either map order, when both values are ASCII; when a value holds a multi-byte character it is that text followed by "," or ", " |
| `UserDb.QuotedNameAddsAssignment` | src/db/user.rs:64-73 | values are pasted in unescaped: a full name `a', ''), password = nullif('b` makes the clause assign `password = nullif('b', '')` as well |
| `UserDb.ProfileClauseNeverUnderflows` | src/db/user.rs:64-72 | the pairs from `as_hashmap` never make `len() - 2` underflow, in either order |
| `UserDb.UpdateChangesOnlyProfile` | src/db/user.rs:77-104 | a successful update changes only fullName and image of that row, to the database's values for the clause, and keeps id, email and password (only because `exec` can give nothing but those two columns; see "## Left out"); a failure commits nothing; no row is added or removed |
| `UserDb.DeleteRemovesOnlyThatRow` | src/db/user.rs:107-131 | delete returns the row as it was; afterwards that key is gone and the other rows are unchanged; a missing email or failure deletes nothing |
| `UserHandlers.FindOutcome` | src/handlers/user.rs:7-18 | find answers 200 with the row's JSON iff the lookup succeeds, otherwise 400 "Failed to find user" |
| `UserHandlers.CreateRejectsInvalidInput` | src/handlers/user.rs:29-32 | invalid input is answered 400 with the validation errors, the table is unchanged, and the result does not depend on the hasher or the database |
| `UserHandlers.CreateOutcome` | src/handlers/user.rs:33-41 | valid input: 200 with the returned row iff the repository succeeds, else 400 "Failed to create user"; the table is the repository's |
| `UserHandlers.DeleteOutcome` | src/handlers/user.rs:44-56 | delete answers 200 with the pre-deletion row and removes it, or 400 "Failed to delete user" with nothing deleted |
| `UserHandlers.GetJwtAndUserOutcome` | src/handlers/user.rs:92-101 | for a user stored under the bytes of an email, 200 iff a token can be signed for that email; the 200 body is access_token, expired_at, user, its user member is the user's JSON with no password; otherwise 500 "error generating jwt" |
| `UserHandlers.SignInCheckOrder` | src/handlers/user.rs:64-87 | sign-in fails in this order, each with its exact body: lookup failure 400 "Failed to find user: " with the repository error, no stored password 400 "This user has no password", hash failure 500 "Failed to hash password: " with the hashing cause, hash mismatch 400 "invalid password" |
| `UserHandlers.SignInIssuesTokenOnlyOnMatch` | src/handlers/user.rs:85-100 | 200 iff the row exists, has a password, the hash of the submitted password equals the stored password lossily decoded, and a token is issued for the submitted email; the reply bundles that row |
| `UserHandlers.SignInServerErrorIff` | src/handlers/user.rs:74-100 | sign-in answers 500 iff, past the lookup and stored-password checks, hashing fails or the token cannot be issued after a match |
| `UserHandlers.SignInWithStoredPassword` | src/handlers/user.rs:58-100 | for any well-formed table: a stored user whose stored password is the hash the hasher gives for the submitted password signs in, and a signable email gets 200 with that token and the stored row |
| `UserHandlers.SignInSkipsValidation` | src/handlers/user.rs:58-90 | a user signs in with a password the rules reject: sign-in never validates the credentials |
| `UserHandlers.FindAfterCreate` | src/handlers/user.rs:7-42 | after a successful sign-up, find answers 200 and the JSON reads back as a user whose email decodes to the signed-up one |
| `UserHandlers.CreateTwiceSucceeds` | src/db/user.rs:38-48 | after a successful sign-up, the same sign-up succeeds again: duplicates are not rejected |
| `UserHandlers.FindAfterDelete` | src/handlers/user.rs:44-56 | after a successful delete, find for that email answers 400 |
| `UserHandlers.SignInAfterCreate` | src/handlers/user.rs:20-100 | after a successful sign-up, signing in with the same email and password answers 200 with a token for that email and the stored row |

## Left out

- HTTP routing, extractors and JSON request parsing are not modelled. Handlers take parsed bodies, and a response is a status plus a body, not an `HttpResponse`.
- sqlx pool and transaction machinery, async execution and MySQL itself are not modelled. The table is a map keyed by email bytes. A database failure is one `fault` step. The DB effect of the interpolated SET clause is the `exec` parameter: `nullif`, SQL parsing, the `full_name` key vs. the `fullName` column, NOT NULL constraints and injection are not evaluated.
- Email matching is exact byte equality. MySQL collations are not modelled.
- Email and URL syntax (`validate(email)`, `validate(url)`) are library code. They are the `Oracle` predicates.
- `CryptoService::hash_password`, `generate_jwt` and the chrono clock are foreign code. They are `Crypto` functions that may fail. The expiry is carried as its serialised text. The hasher's error text is not modelled (`Cause.Hashing`).
- The `Display` text of a lookup error in sign-in's body is not modelled. The body carries the error value.
- Validation error `params` (the offending value, the bound) and the JSON shape of `ValidationErrors` are not modelled. Only codes and messages are kept, per field.
- Logging (`tracing::error!`, the `println!` of the clause at src/db/user.rs:75), the GraphQL derives, the `sqlx::Type` impl (src/models/user.rs:74-82) and the commented-out enums are not modelled.
- The integration test (src/handlers/user.rs:103-184) is not modelled. It needs a live database, and its duplicate-create assertion contradicts the UPDATE-based `create` (see `CreateTwiceSucceeds`).
- `SetClause.SetClause` requires that `len() - 2` does not underflow. With overflow checks on (debug builds) the subtraction panics; in a default release build `usize` wraps and `take` keeps the whole text. Neither behaviour is modelled, and the underflow is proved never to arise from `as_hashmap`.
- `UserDb.UpdateChangesOnlyProfile` states the new column values as whatever `exec` gives for the clause. It does not state that they are the patch's values. Its conclusion that id, email and password are kept holds only because `exec` returns just `fullName` and `image`. The source interpolates values unescaped, so a full name such as `x', ''), password = nullif('p` makes the clause also set `password` (`QuotedNameAddsAssignment`). The model does not capture what such an injected assignment does to the row.

## Findings

| source | as written | input that shows it | evidently intended | confidence | as-written member | corrected member |
|---|---|---|---|---|---|---|
| src/db/user.rs:70-73 | keeps `len() - 2` characters of the joined fragments, but `len()` counts UTF-8 bytes while `chars().take` counts characters | a patch with full_name "José" and image "": the clause ends in a comma in either map order (`… image = nullif('', ''),` or `… full_name = nullif('José', ''),`), right before `WHERE`. Two or more extra bytes keep the whole trailing ", ". | drop exactly the trailing ", " so the clause is the assignments alone | high; not executed | `SetClause.AccentedNameLeavesComma` | `SetClause.SetClauseIntended` |
