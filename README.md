# Aquanova backend: OTP-gated accounts and per-owner chat history

This project models two route modules of the Aquanova backend (an Express
service on MySQL) and proves what their handlers promise.

- **Auth routes** (`routes/auth.js`). Sign-up works by e-mailed one-time codes:
  - `send-otp` stores a fresh six-digit code for an email that has no account yet;
  - `verify-otp` marks the newest unverified matching code as verified, if it has not expired;
  - `signup` creates the account from a verified code and consumes every code of that email.

  The other handlers:
  - `login` checks the bcrypt digest, stamps `last_login` and issues a seven-day token;
  - `/me` returns the profile of the token's account;
  - `forgot-password` and `reset-password` reuse the code table to replace a password.

  Two modules hold the model:
  - `Auth` writes each handler as a transition on the two tables (`otp_verifications`, `users`) plus the reply.
  - `AuthRoutes.AuthRouter` is a class with those tables as fields. Its methods run the handler's SQL
    statements in order: delete then insert, update, insert then delete. Each method is proved to end
    in exactly the state and reply of its transition.

  The properties are proved about the transitions:
  - in `AuthProperties`: supersession, single use, the strict expiry boundary, identical login refusals,
    and the end-to-end sign-up workflow;
  - in `AuthTraces`, over whole request sequences: the table invariant, and "signup only after a verify".
- **Chat history** (`routes/chat.js`). This is create, read, update and delete over `chat_history`,
  with every statement scoped by the owner taken from the caller's token.
  - List (`History`) and get (`Get`) are pure functions over the table.
  - Create, update and delete are methods of the class `Chat.ChatHistory`.
  - The lemmas prove that one owner's writes never change what another owner can list or get.

How the model treats its inputs:
- The message list of a conversation is an opaque type parameter.
- The clock is an integer parameter in milliseconds.
- Inputs the handlers draw at random are parameters:
  - the code from `generateOTP`;
  - the bcrypt salt;
  - whether the mail went out.
- Each handler runs as one atomic step.

Modules:
- `Outcomes`: `Option`, `Result` and the two kinds of refusal. `Invalid` is the 400 with the express-validator
  error list. `Refused` is a status with a message; every message text is the one the route sends.
- `Validation`: the express-validator chains, the `trim` sanitizer and the shape of generated codes.
- `Credentials`: bcrypt as an injective digest with a salt, and the JWT claims.
- `OtpTable`, `UserTable`: the rows, the SQL statements as functions and the table invariants.
- `Auth`, `AuthProperties`, `AuthTraces`, `AuthRoutes`: described above.
- `Chat`: the conversation table, its lookups, its writers and their isolation lemmas.

The expiry test is strict: `new Date() > new Date(otpRecord.expires_at)` (routes/auth.js:95 and :346).
A code presented at exactly its expiry instant is therefore still accepted, and
`AuthProperties.VerifyOtpExpiryBoundary` proves this boundary.

## Model

| member | source | states |
|---|---|---|
| Validation.TrimStart | routes/auth.js:17 | the result is a suffix of the input; what was cut is all JavaScript whitespace; the result does not start with whitespace |
| Validation.TrimEnd | routes/auth.js:17 | the result is a prefix of the input; what was cut is all whitespace; the result does not end with whitespace |
| Validation.TrimEmptyIffBlank | routes/auth.js:119 | `trim()` yields the empty string exactly when the raw value is all whitespace; otherwise the result has no whitespace at either end |
| Validation.Trim | routes/auth.js:17 | the `trim()` sanitizer, as `TrimEnd` of `TrimStart`; `Validation.TrimEmptyIffBlank` states when it yields the empty string |
| Validation.IsGeneratedCode | services/emailService.js:11-13 | the codes `generateOTP` can produce: six digits with no leading zero; the OTP table invariant keeps only such codes |
| Validation.SendOtpErrors | routes/auth.js:17 | send-otp passes validation iff the name is not blank; otherwise the only error is "Name is required" |
| Validation.VerifyOtpErrors | routes/auth.js:71 | verify-otp passes validation iff the code is exactly 6 characters long |
| Validation.SignupErrors | routes/auth.js:119-122 | signup passes iff the name is non-blank, the password has at least 6 characters and the code exactly 6; the list is exactly the failing rules' messages, in the order the chains are declared |
| Validation.LoginErrors | routes/auth.js:185 | login passes validation iff the password is non-empty |
| Validation.ResetPasswordErrors | routes/auth.js:321-322 | reset-password passes iff the code has exactly 6 characters and the new password at least 6; the list is exactly the failing rules' messages, in declaration order |
| Credentials.HashPassword | routes/auth.js:151-152 | the digest verifies the password it was made from and no other password |
| Credentials.IssueToken | routes/auth.js:216-221 | the token carries `{userId, email}`; `iat` is the clock in whole seconds; it expires 604800 s (7 days) after `iat` |
| Credentials.Matches | routes/auth.js:206 | `bcrypt.compare` accepts exactly the password a digest was made from; its properties are stated by `Credentials.HashPassword` and `AuthProperties.LoginSucceedsIff` |
| OtpTable.Latest | routes/auth.js:83-86 | `ORDER BY created_at DESC LIMIT 1`: a returned row is in the table and selected by email, code and flag, and no selected row is newer; none is returned iff no row is selected |
| OtpTable.Expired | routes/auth.js:95 | a code is expired only strictly after `expires_at`; stated by `AuthProperties.VerifyOtpExpiryBoundary` and `AuthProperties.VerifyOtpAccepts` |
| OtpTable.WithoutEmail | routes/auth.js:40 | `DELETE ... WHERE email = ?` keeps exactly the rows of other emails |
| OtpTable.CodesFor | routes/auth.js:40 | a row is listed iff it is in the table and has that email |
| OtpTable.MarkVerified | routes/auth.js:100-103 | `UPDATE ... SET verified = TRUE WHERE id = ?` flips the flag of the rows with that id and leaves every other row as it was |
| OtpTable.Supersede | routes/auth.js:39-46 | DELETE of the email's codes then INSERT of the new one; `OtpTable.SupersedeLeavesOne` shows the email keeps only the new row and `OtpTable.SupersedeKeepsValid` that the invariant holds |
| OtpTable.CodesForAppend | routes/auth.js:43-46 | an INSERT appends the new row to its email's rows and leaves other emails' rows alone |
| OtpTable.CodesForWithoutSame | routes/auth.js:40 | after the DELETE, the email has no rows |
| OtpTable.CodesForWithoutOther | routes/auth.js:40 | the DELETE leaves every other email's rows unchanged and in order |
| OtpTable.SupersedeLeavesOne | routes/auth.js:39-46 | after the DELETE and then the INSERT, the email has exactly the new row and other emails are untouched |
| OtpTable.CodesForMarkVerified | routes/auth.js:100-103 | the verify UPDATE neither adds nor removes rows of any email |
| OtpTable.MarkVerifiedFlipsOne | routes/auth.js:100-103 | with distinct ids, the UPDATE changes exactly the selected row, setting only its flag |
| OtpTable.WithoutEmailKeepsIncreasing | routes/auth.js:161 | the DELETE keeps auto-increment ids increasing in table order |
| OtpTable.SupersedeKeepsValid | routes/auth.js:287-296 | DELETE then INSERT of a generated code keeps the table invariant: ids below the counter and increasing, at most one row per email, every code generated |
| OtpTable.MarkVerifiedKeepsValid | routes/auth.js:100-103 | the verify UPDATE keeps the table invariant |
| OtpTable.WithoutEmailKeepsValid | routes/auth.js:365 | the consuming DELETE keeps the table invariant |
| OtpTable.LatestIsOnlyRow | routes/auth.js:134-137 | under the invariant, a lookup that can select a row returns exactly that row |
| OtpTable.SelectedIsOnlyRow | routes/auth.js:334-337 | under the invariant, a row in the table is its email's only row |
| UserTable.FindByEmail | routes/auth.js:197-203 | a returned account is in the table with that email; none iff no account has that email |
| UserTable.FindById | routes/auth.js:243-250 | a returned account is in the table with that id; none iff no account has that id |
| UserTable.SetPassword | routes/auth.js:362 | `UPDATE users SET password = ? WHERE email = ?` replaces the digest of the accounts with that email and changes nothing else |
| UserTable.TouchLogin | routes/auth.js:213 | `UPDATE users SET last_login = NOW() WHERE id = ?` stamps the accounts with that id and changes nothing else |
| UserTable.SameKeysKeepValid | routes/auth.js:213 | updates that keep every id and email keep the users invariant: ids below the counter and increasing, emails distinct |
| UserTable.InsertKeepsValid | routes/auth.js:155-158 | inserting an account with the next id and an unused email keeps the users invariant |
| UserTable.SetPasswordChangesOne | routes/auth.js:362 | with distinct emails, the password UPDATE changes exactly one account, and only its digest |
| UserTable.TouchLoginChangesOne | routes/auth.js:213 | with distinct ids, the login UPDATE changes exactly one account, and only its `last_login` |
| Auth.Me | routes/auth.js:241-257 | `/me` returns the profile of the account with the token's id; "User not found" (404) iff there is no such account |
| Auth.Issue | routes/auth.js:35-46 | the DELETE then INSERT of a fresh code expiring ten minutes after `now`; `Auth.IssueKeepsValid` and `AuthProperties.SendOtpSupersedes` state its effect |
| Auth.NewAccount | routes/auth.js:150-157 | the account signup inserts: trimmed name, bcrypt digest, `email_verified` true; `AuthProperties.SignupOutcome` states it is appended with the next id |
| Auth.SendOtp | routes/auth.js:13-62 | send-otp as a transition; `AuthProperties.SendOtpRefusesExistingAccount`, `SendOtpSupersedes` and `Auth.SendOtpKeepsValid` state its refusals, its one fresh row and the invariant |
| Auth.VerifyOtp | routes/auth.js:67-111 | verify-otp as a transition; `AuthProperties.VerifyOtpOutcome` gives "Invalid OTP" and "expired" as if-and-only-ifs and exactly one row flipped on success |
| Auth.Signup | routes/auth.js:116-176 | signup as a transition; `AuthProperties.SignupRefusals`, `SignupNeedsVerifiedCode`, `SignupOutcome` and `SignupRefusesExistingAccount` state which condition gives which refusal, that a refusal changes nothing, when it succeeds and the one account it adds |
| Auth.Login | routes/auth.js:181-236 | login as a transition; `AuthProperties.LoginSucceedsIff` and `LoginOutcome` state success iff the password matches and the token it issues |
| Auth.ForgotPassword | routes/auth.js:262-312 | forgot-password as a transition; `AuthProperties.ForgotPasswordRefusesUnknownEmail` and `ForgotPasswordSupersedes` state its 404 and its one fresh row |
| Auth.ResetPassword | routes/auth.js:317-373 | reset-password as a transition; `AuthProperties.ResetPasswordRefusals`, `ResetPasswordSucceedsIff` and `ResetPasswordOutcome` state which condition gives each of its three refusals, that a refusal changes nothing, when it succeeds and the one digest it replaces |
| Auth.IssueKeepsValid | routes/auth.js:287-296 | storing a generated code keeps both tables valid |
| Auth.SendOtpKeepsValid | routes/auth.js:13-62 | send-otp keeps both tables valid, whatever its outcome |
| Auth.VerifyOtpKeepsValid | routes/auth.js:67-111 | verify-otp keeps both tables valid |
| Auth.SignupKeepsValid | routes/auth.js:116-176 | signup keeps both tables valid, emails of accounts included |
| Auth.LoginKeepsValid | routes/auth.js:181-236 | login keeps both tables valid |
| Auth.ForgotPasswordKeepsValid | routes/auth.js:262-312 | forgot-password keeps both tables valid |
| Auth.ResetPasswordKeepsValid | routes/auth.js:317-373 | reset-password keeps both tables valid |
| AuthProperties.SendOtpRefusesExistingAccount | routes/auth.js:29-33 | send-otp for an email with an account replies "User already exists with this email" and changes nothing |
| AuthProperties.SendOtpSupersedes | routes/auth.js:37-54 | after send-otp the email has exactly one row: unverified, with the given code and `expires_at = now + 600000`; other emails' rows are untouched; the row stays when the mail fails |
| AuthProperties.SendOtpTwiceKeepsLatest | routes/auth.js:39-46 | two send-otp requests leave only the second code for that email |
| AuthProperties.ForgotPasswordRefusesUnknownEmail | routes/auth.js:277-281 | forgot-password for an email without an account replies 404 and stores nothing |
| AuthProperties.ForgotPasswordSupersedes | routes/auth.js:287-304 | forgot-password leaves the email exactly one fresh unverified code expiring in 600000 ms; other emails are untouched; the row stays when the mail fails |
| AuthProperties.VerifyOtpOutcome | routes/auth.js:83-103 | "Invalid OTP" iff no unverified row matches; "expired" iff the matching row's expiry is strictly before now; on both the tables are unchanged; on success exactly that row is flipped to verified and nothing is deleted |
| AuthProperties.VerifyOtpExpiryBoundary | routes/auth.js:95 | a code is accepted at exactly its expiry instant and refused as expired one millisecond later |
| AuthProperties.SignupNeedsVerifiedCode | routes/auth.js:134-141 | a successful signup implies a verified row with that email and code existed |
| AuthProperties.SignupRefusals | routes/auth.js:134-141 | with valid fields, "Please verify your email with OTP first" iff no verified row has that email and code; any refusal leaves both tables unchanged |
| AuthProperties.SignupOutcome | routes/auth.js:150-170 | a successful signup appends exactly one account with the trimmed name, a digest of the password, `email_verified` true and the next id; it removes every code of that email and replies "Account created successfully. Please login." with the id, name and email |
| AuthProperties.SignupRefusesExistingAccount | routes/auth.js:143-148 | signup for an email with an account replies "User already exists" and changes nothing |
| AuthProperties.NoCodesRefuseEverything | routes/auth.js:83-90 | with no codes for an email, every verify replies "Invalid OTP", no signup finds a verified code, and every reset replies "Invalid OTP" |
| AuthProperties.SignupConsumesCode | routes/auth.js:160-161 | after signup the email has no codes, so verifying the same code later replies "Invalid OTP" |
| AuthProperties.LoginRefusalsIndistinguishable | routes/auth.js:197-210 | an unknown email and a wrong password get the identical reply and leave the tables unchanged |
| AuthProperties.LoginSucceedsIff | routes/auth.js:197-210 | login succeeds iff an account has that email and the password matches its digest |
| AuthProperties.LoginOutcome | routes/auth.js:212-230 | a successful login changes only that account's `last_login` and returns a 7-day token for `{userId, email}` with the public fields |
| AuthProperties.ResetPasswordSucceedsIff | routes/auth.js:334-355 | reset succeeds iff the email's code matches (verified or not), it has not expired, and the account exists |
| AuthProperties.ResetPasswordRefusals | routes/auth.js:334-355 | with valid fields: "Invalid OTP" iff no row has that email and code; "OTP has expired" iff such a row is strictly past its expiry; 404 "User not found" iff the code is good but no account has the email; any refusal leaves both tables unchanged |
| AuthProperties.ResetPasswordOutcome | routes/auth.js:357-367 | a successful reset replaces the digest of exactly that email's account and removes all of its codes |
| AuthProperties.ResetPasswordConsumesCode | routes/auth.js:364-365 | after a reset, the same code neither verifies nor resets again |
| AuthProperties.VerifyOtpAccepts | routes/auth.js:92-105 | an unverified code presented up to and including its expiry instant is accepted, and its row becomes verified |
| AuthProperties.SignupAccepts | routes/auth.js:133-170 | valid fields, a verified code and an email with no account make signup succeed |
| AuthProperties.SignupWorkflow | routes/auth.js:13-170 | the whole sequence succeeds: send-otp, verify within 10 minutes, then signup; the account is created verified, the code then no longer verifies, and a new send-otp for the email is refused without storing a code |
| AuthTraces.ApplyKeepsValid | routes/auth.js:13-373 | every auth request keeps both tables valid |
| AuthTraces.RunKeepsValid | routes/auth.js:13-373 | every sequence of requests from valid tables reaches valid tables |
| AuthTraces.ApplyVerifiesOnlyOnVerifyOtp | routes/auth.js:100-103 | a verified row after one request was verified before it, or the request was an accepted verify-otp of that email and code |
| AuthTraces.VerifyOtpVerifiesItsRow | routes/auth.js:92-103 | the only row verify-otp can turn verified is one with the requested email and code, and only when it replies with success |
| AuthTraces.SendOtpAddsNoVerifiedRow | routes/auth.js:39-46 | send-otp only deletes rows and inserts an unverified one, so every verified row afterwards was there before |
| AuthTraces.ForgotPasswordAddsNoVerifiedRow | routes/auth.js:289-296 | forgot-password only deletes rows and inserts an unverified one |
| AuthTraces.SignupAddsNoVerifiedRow | routes/auth.js:160-161 | signup only deletes code rows |
| AuthTraces.ResetPasswordAddsNoVerifiedRow | routes/auth.js:364-365 | reset-password only deletes code rows |
| AuthTraces.VerifiedRowsStep | routes/auth.js:100-103 | one more request keeps every verified row traced to an accepted verify-otp earlier in the trace |
| AuthTraces.VerifiedRowsWereVerified | routes/auth.js:100-103 | from tables with no verified code, every verified row of a reached state was verified by an earlier accepted verify-otp |
| AuthTraces.SignupOnlyAfterVerify | routes/auth.js:134-141 | a signup accepted after any sequence of requests needs an earlier accepted verify-otp of that email and code |
| AuthRoutes.AuthRouter.SendOtp | routes/auth.js:13-62 | validates, refuses an existing account, deletes then inserts the code and replies by the delivery outcome: state and reply equal `Auth.SendOtp`, and the tables stay valid |
| AuthRoutes.AuthRouter.VerifyOtp | routes/auth.js:67-111 | looks up, checks expiry and updates the flag: state and reply equal `Auth.VerifyOtp` |
| AuthRoutes.AuthRouter.Signup | routes/auth.js:116-176 | inserts the account, then deletes the codes: state and reply equal `Auth.Signup` |
| AuthRoutes.AuthRouter.Login | routes/auth.js:181-236 | checks the digest, stamps `last_login` and issues the token: state and reply equal `Auth.Login` |
| AuthRoutes.AuthRouter.Me | routes/auth.js:241-257 | changes nothing; the reply equals `Auth.Me` on the current tables |
| AuthRoutes.AuthRouter.ForgotPassword | routes/auth.js:262-312 | deletes then inserts the code: state and reply equal `Auth.ForgotPassword` |
| AuthRoutes.AuthRouter.ResetPassword | routes/auth.js:317-373 | updates the digest, then deletes the codes: state and reply equal `Auth.ResetPassword` |
| Chat.Owned | routes/chat.js:14-17 | a row is listed iff it is in the table and belongs to the caller |
| Chat.MissingField | routes/chat.js:57 | the falsy test on title and messages; `Chat.ChatHistory.Create` replies 400 with the table unchanged exactly when it holds |
| Chat.SortNewestFirst | routes/chat.js:15 | `ORDER BY updated_at DESC`: the result is ordered newest first and is a permutation of the input |
| Chat.History | routes/chat.js:14-19 | the list is ordered newest first and, as a multiset, is exactly the summaries of the caller's rows |
| Chat.HistoryListsOwnedRows | routes/chat.js:14-19 | a summary is listed iff the caller owns a row with it |
| Chat.Get | routes/chat.js:31-38 | a returned row is in the table with both that id and that owner; "Conversation not found" (404) iff there is none |
| Chat.GetFindsOwnedRow | routes/chat.js:31-38 | with distinct ids, getting an existing row's id as its owner returns that row |
| Chat.CountMatching | routes/chat.js:92 | `affectedRows` is zero iff no row has both that id and that owner |
| Chat.Rewrite | routes/chat.js:87-90 | the UPDATE sets title and messages on the rows with that id and owner, and on no other row |
| Chat.Remove | routes/chat.js:108-111 | the DELETE keeps exactly the rows that do not have both that id and that owner; the length drops by the affected count |
| Chat.RewriteWithoutMatch | routes/chat.js:92-94 | an UPDATE that selects nothing leaves the table unchanged |
| Chat.RemoveWithoutMatch | routes/chat.js:113-115 | a DELETE that selects nothing leaves the table unchanged |
| Chat.AtMostOneMatch | routes/chat.js:108-111 | with distinct ids, an update or a delete selects at most one row |
| Chat.RewriteKeepsValid | routes/chat.js:87-90 | the UPDATE keeps ids below the counter and increasing |
| Chat.RemoveKeepsIdsBelow | routes/chat.js:108-111 | the DELETE keeps every id below the counter |
| Chat.RemoveKeepsIdsIncreasing | routes/chat.js:108-111 | the DELETE keeps ids increasing in table order |
| Chat.RemoveKeepsValid | routes/chat.js:108-111 | the DELETE keeps the table invariant |
| Chat.CreateKeepsValid | routes/chat.js:62-65 | inserting with the next auto-increment id keeps the table invariant |
| Chat.OwnedAfterCreate | routes/chat.js:62-65 | after an insert, an owner's rows are the old ones plus the new row if it is theirs |
| Chat.OwnedAfterRewrite | routes/chat.js:87-90 | an update by one owner leaves every other owner's rows unchanged |
| Chat.OwnedAfterRemove | routes/chat.js:108-111 | a delete by one owner leaves every other owner's rows unchanged, even a row with the same id |
| Chat.HistoryIsolated | routes/chat.js:14-19 | another owner's list is the same after an update or a delete |
| Chat.HistoryIsolatedFromCreate | routes/chat.js:14-19 | another owner's list is the same after a create |
| Chat.GetAfterCreate | routes/chat.js:62-73 | after a create, getting the fresh id as its owner returns the new row |
| Chat.GetAfterRemove | routes/chat.js:108-115 | after a delete, the same owner's get of that id replies "Conversation not found" |
| Chat.GetIsolatedFromRewrite | routes/chat.js:31-34 | another owner's get of any id answers the same after an update |
| Chat.GetIsolatedFromRemove | routes/chat.js:31-34 | another owner's get of any id answers the same after a delete |
| Chat.GetIsolatedFromCreate | routes/chat.js:31-34 | another owner's get of any id answers the same after a create |
| Chat.ChatHistory.Create | routes/chat.js:57-73 | a missing or empty title or missing messages replies 400 and leaves the table unchanged; otherwise it appends exactly one row owned by the caller with the next id and replies with that id, the title and the messages |
| Chat.ChatHistory.Update | routes/chat.js:87-96 | "Conversation not found" iff no row has that id and owner, with the table unchanged; otherwise title and messages change on that row only |
| Chat.ChatHistory.Delete | routes/chat.js:108-117 | "Conversation not found" iff no row has that id and owner, with the table unchanged; otherwise exactly that one row is removed |

## Left out

- Auth.Signup: the 201 status of the success reply is not modelled; the reply carries the message text and the public account fields.
- Chat.ChatHistory.Create: the 201 status of the success reply is not modelled. `Ok` stands for every success status.
- Email validity (`isEmail`, routes/auth.js:16 and elsewhere) is a library predicate. Every email is taken as valid, so the "Please enter a valid email" error never arises in the model.
- `isLength` counts code points less the variation selectors U+FE0E and U+FE0F. The model counts the characters of the Dafny string, so it differs only on strings holding those two selectors.
- MySQL collation: the `users.email` and `otp_verifications.email` comparisons may be case-insensitive under the server's collation. The model compares strings exactly.
- TIMESTAMP columns store whole seconds. The model keeps `expires_at` in milliseconds as the handler computes it. `created_at` is filled by MySQL's clock (`DEFAULT CURRENT_TIMESTAMP`); the model uses the handler's clock `now`, in milliseconds. `last_login` is stamped by MySQL's `NOW()` in whole seconds, while `UserTable.TouchLogin` stores the caller's millisecond clock.
- Storage failures and the catch-all "Server error" (500) of every handler are not modelled. Every statement succeeds.
- Concurrency: the delete-then-insert pair is not a transaction, so concurrent requests could race. Each handler is one atomic step in the model.
- `generateOTP` (services/emailService.js:11-13) uses floating-point `Math.random`. The code is a parameter. The table invariant relies only on what that function can produce: six digits without a leading zero.
- Validation error items: express-validator's `errors.array()` items carry the field path, the value and the location besides the message. `Invalid` keeps only each message.
- Mail delivery (`sendOTPEmail`) is reduced to a boolean parameter saying whether the mail went out.
- Credentials.HashPassword: bcrypt truncates passwords at 72 bytes, so two long passwords sharing a 72-byte prefix would match the same digest. The model's digest is injective in the password.
- Credentials.IssueToken: the signature, the secret and the token's serialisation are not modelled, only its claims. `authMiddleware` is not part of this model; `/me` and the chat routes take the caller's id as given.
- JSON serialisation of chat messages (`JSON.stringify` and `JSON.parse`): messages are an opaque value that round-trips unchanged.
- Create's falsy check: a `title` that is not a string (`0`, `false`) and a `messages` value that is falsy but present (`0`, `""`, `false`) are not modelled. A title is either missing or a string, and messages are either missing or present.
- Update stores whatever title and messages the request carried, missing ones included. The model writes them as `None`. It does not model the database rejecting a NULL in a NOT NULL column, because the schema is not part of this model.
- `updated_at`: the UPDATE statement does not set it. Whatever the schema's `ON UPDATE` clause does to it is not part of this model, so the list's order only reflects the values stored at create.
- `affectedRows` is taken as the number of rows the WHERE clause matched. This is the mysql2 client's default, and it gives no zero count for an update that rewrites identical values.
- The route parameter `:id` is a string that MySQL coerces to a number. The model takes a natural number.
- `ORDER BY updated_at DESC` leaves the order of equal timestamps open. `Chat.SortNewestFirst` keeps table order there, and the properties proved hold for any tie order.
- OtpTable.Latest: `ORDER BY created_at DESC LIMIT 1` leaves the choice between rows with equal `created_at` open. The definition picks the row inserted last, and the contract does not promise that choice. Under one code per email no tie can arise.
- `routes/nvidia.js` (a proxy to an external chat API), `server.js` (Express wiring), `setup-db.js`, `migrate-db.js` (DDL scripts) and `test-email.js` (a manual mail test) have no logic in the core.
