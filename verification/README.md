# Madrasa management backend: a Dafny model of its handlers

This project models the decision logic of the backend of a Qur'an school
(madrasa) management system. The backend is an Express and Prisma service.
Its handlers validate a request, read and write database rows, and answer
with a status and a message. Each handler is modelled as a pure function
from a store and a request to a `Reply(store', status, message)`.

- **Store.** The store is one immutable record of tables. Each table is a
  `map<nat, Row>` keyed by row id, and one counter `nextId` hands out ids.
  `Store.Valid` says every key is below the counter. A Prisma call that
  throws becomes the generic 500 reply with the store unchanged
  (`Store.Fail500`).
- **Request fields.** `Js.Field` tells an absent field (`undefined`), a
  `null` and a present value apart, because the handlers' truthiness tests,
  `=== undefined` tests and Prisma's "undefined leaves the column alone" all
  depend on the difference.
- **Accounts and one-time codes** (`Accounts`, `Otp`): registration, login,
  the temporary delete and restore flags, role and password changes, and the
  e-mail, phone and password-reset codes. A code lives two minutes, and
  only the most recent code of a user counts.
- **Request gates** (`Gates`): the bearer-token middleware (401) and the
  role allow-list middleware (403).
- **Validators** (`Schemas`): the express-validator chains of the sign-up,
  login and admin-update schemas. These are the phone pattern, the password
  length, the role whitelist and the password confirmation.
- **Memorization targets** (`Memorize`, `Sweep`, `Calendar`): target
  creation and its "one active target per student" invariant. The due date
  follows JavaScript's `setMonth` roll-over. The daily sweep selects overdue
  targets and fans out notices.
- **Entities** (`Students`, `Classes`, `Teachers`, `Halaqas`, `Parents`):
  creation guards, uniqueness, the refusal of deletes that would orphan
  rows, the cascade deletes as single transitions, and the attendance and
  salary summaries (`Attendance`, `Teachers`). Pagination arithmetic lives
  in `Paging`.

Password hashing is an ideal injective digest (`Crypto.Hash`). Token
verification is a function parameter. The clock, the generated code and the
success of a WhatsApp send are parameters too.

Several handlers do something other than what they evidently intend. In each
such case the model keeps the code as written and proves the consequence.
Beside it sits the intended definition with its property. See "## Findings".

## Model

| member | source | states |
|---|---|---|
| Js.CeilDiv | backend/src/controllers/auth.controller.ts:1072 | `Math.ceil(a / b)` is undefined (not finite) exactly for `b == 0`. For positive `b` it is the least `q` with `a <= q * b`, and for negative `b` the mirrored bound holds. |
| Js.LowerChar | backend/src/controllers/class.controller.ts:15-18 | Upper-case ASCII letters map to their lower-case letter, and every other character is unchanged. |
| Js.Lower | backend/src/controllers/class.controller.ts:15-18 | Lower-casing keeps the length and folds each character independently. |
| Js.EqualsIgnoreCaseIsEquivalence | backend/src/controllers/class.controller.ts:15-25 | The database's case-insensitive name match is reflexive, symmetric and transitive. |
| Js.CaseVariantsMatch | backend/src/controllers/class.controller.ts:15-25 | Two names of equal length that differ only in the case of letters match. |
| Crypto.VerifyAcceptsOnlyHashedPassword | backend/src/controllers/auth.controller.ts:140-147 | A stored hash verifies the password it was made from and no other string. |
| Store.ParseRole | backend/src/controllers/auth.controller.ts:542-554 | The role enum accepts a string only when it is the name of that role. |
| Store.ParseRoleRoundTrip | backend/src/controllers/auth.controller.ts:542-554 | Parsing a role's name gives back the role. |
| Store.FindFirst | backend/src/controllers/auth.controller.ts:127-138 | `findFirst` returns a row satisfying the filter with no satisfying row of smaller id, and returns nothing only when no row below the bound satisfies it. |
| Store.FindFirstComplete | backend/src/controllers/auth.controller.ts:127-138 | In a valid table, `findFirst` finds a row exactly when some row satisfies the filter. |
| Store.Without | backend/src/controllers/class.controller.ts:369-401 | `deleteMany` removes exactly the given ids and keeps every other row as it was. |
| Store.UserByEmailFinds | backend/src/controllers/auth.controller.ts:57-68 | The e-mail lookup finds an account exactly when the e-mail is taken, and the account found has that e-mail. |
| Store.UserById | backend/src/controllers/auth.controller.ts:884-888 | The id lookup finds a given id exactly when it is an account. A missing id is dropped from the filter, so it finds the account of smallest id, and finds nothing only in an empty table. |
| Store.FindFirstCongruent | backend/src/controllers/auth.controller.ts:127-138 | Two `findFirst` searches whose filters agree on every row of equal tables find the same row. |
| Store.FindFirstPastKeys | backend/src/controllers/auth.controller.ts:884-888 | Raising the search bound past every key finds the same row. |
| Calendar.DaysInMonth | backend/src/controllers/teacher.controller.ts:659-663 | Months have 28 to 31 days, and February has 29 exactly in leap years. |
| Calendar.LeIsTotalOrder | backend/src/job/memorizeCron.ts:12-16 | Comparing timestamps (`dueDate <= today`) is a total order. |
| Calendar.RollForward | backend/src/controllers/memorize.controller.ts:83-85 | Surplus days roll into later months and give a valid date, and a day that fits its month stays as it is. |
| Calendar.RollBackward | backend/src/controllers/teacher.controller.ts:659-663 | A day of zero or less borrows from earlier months and gives a valid date in an earlier month. |
| Calendar.Normalize | backend/src/controllers/teacher.controller.ts:659-663 | Every year, month and day triple normalizes to a valid date. |
| Calendar.MakeDay | backend/src/controllers/teacher.controller.ts:659-663 | A month outside 0..11 carries into the year, and the result is a valid date. |
| Calendar.NewDate | backend/src/controllers/teacher.controller.ts:659-663 | `new Date(y, m, d)` always yields a valid date. |
| Calendar.AddMonths | backend/src/controllers/memorize.controller.ts:83-85 | `setMonth(getMonth() + k)` yields a valid date and keeps the time of day. |
| Calendar.MonthIndexOfMakeDay | backend/src/controllers/memorize.controller.ts:83-85 | Carrying a month overflow into the year preserves the month count `year * 12 + month`. |
| Calendar.AddMonthsKeepsDay | backend/src/controllers/memorize.controller.ts:83-85 | When the day fits the target month, exactly `k` months pass and the day is kept. |
| Calendar.AddMonthsEarlyDay | backend/src/controllers/memorize.controller.ts:83-85 | Any start day up to the 28th is kept, and exactly `k` months pass. |
| Calendar.AddMonthsRollsOver | backend/src/controllers/memorize.controller.ts:83-85 | A day too large for the target month lands in the month after it, on the surplus day. |
| Calendar.MonthRange | backend/src/controllers/teacher.controller.ts:659-663 | The month filter's bounds are valid dates. |
| Calendar.MonthRangeCoversMonth | backend/src/controllers/teacher.controller.ts:659-663 | For month `m` of a year from 100 on, the range runs from its first day to its last, and ends on February 29 exactly in leap years. |
| Calendar.ThreeMonthsFromNewYear2024 | backend/src/controllers/memorize.controller.ts:19 | Illustration of Calendar.AddMonthsKeepsDay: with the default duration, a target started on 2024-01-01 is due on 2024-04-01. |
| Calendar.JanuaryThirtyFirstPlusOneMonth2024 | backend/src/controllers/memorize.controller.ts:83-85 | Illustration of Calendar.AddMonthsRollsOver: January 31st 2024 plus one month rolls over to March 2nd. |
| Paging.ParsedOr | backend/src/controllers/auth.controller.ts:1028-1032 | `parseInt(x) \|\| default`: a parsed non-zero number is kept, and a missing, unparsable or zero one gives the default. |
| Paging.UserPages | backend/src/controllers/auth.controller.ts:1072 | No rows give zero pages, and otherwise the page count is the ceiling of count over limit. |
| Paging.UserPagesFinite | backend/src/controllers/auth.controller.ts:1028-1032 | The user list's page count is always finite, because its limit falls back to 10 when it is zero. |
| Paging.EveryRowOnExactlyOnePage | backend/src/controllers/auth.controller.ts:1028-1072 | With `skip = (page - 1) * limit`, each row appears on exactly one page, and that page lies within `1..totalPages`. |
| Paging.ClassPages | backend/src/controllers/class.controller.ts:114 | `Math.ceil(total / limit)` is not finite exactly for a zero limit, and for a positive limit it is the user list's page count. |
| Paging.NumberOr | backend/src/controllers/class.controller.ts:67-68 | A missing query takes the destructuring default, and a given one is used as it is. |
| Paging.ClassPaging | backend/src/controllers/class.controller.ts:67-117 | The class list answers the page (default 1), the limit as `take` (default 10), the total and `ceil(total / take)`, and skips `(page - 1) * take` rows, never a negative number. |
| Paging.ClassPagesCoverRows | backend/src/controllers/class.controller.ts:67-117 | With a positive limit every matching class lies on exactly one page within `1..totalPages`; the page count is missing exactly for a zero limit. |
| Gates.IndexOf | backend/src/middlewares/auth.middleware.ts:21-27 | Finds the first occurrence of a character, or reports that there is none. |
| Gates.Split | backend/src/middlewares/auth.middleware.ts:21-27 | `split(" ")` always yields at least one piece. |
| Gates.SplitWithoutSpace | backend/src/middlewares/auth.middleware.ts:21-27 | A string without spaces splits into itself alone. |
| Gates.SplitAtFirstSpace | backend/src/middlewares/auth.middleware.ts:21-27 | Splitting cuts at the first space and goes on splitting the rest. |
| Gates.TokenIsSecondWord | backend/src/middlewares/auth.middleware.ts:21-27 | The token is the second word of the header. |
| Gates.NoSpaceNoToken | backend/src/middlewares/auth.middleware.ts:21-27 | A header without a space yields no token, which gives 401. |
| Gates.Authenticate | backend/src/middlewares/auth.middleware.ts:13-42 | The request passes exactly when the header yields a non-empty token that verifies, and it carries the token's user id. Every refusal is 401, and a missing header is "log in first". |
| Gates.SchemeWordNotChecked | backend/src/middlewares/auth.middleware.ts:21-27 | Any scheme word in front of a good token passes like "Bearer". |
| Gates.Authorize | backend/src/middlewares/authorized.middleware.ts:9-32 | The request passes exactly when the caller's account exists and its role is listed. An unknown caller gets 401, an unlisted role 403, and a failed lookup 500. |
| Gates.Protect | backend/src/middlewares/authorized.middleware.ts:9-29 | A protected route passes exactly when both gates pass, and an authentication refusal is answered as such. |
| Gates.AdminOnlyKeepsOthersOut | backend/src/middlewares/authorized.middleware.ts:22-27 | A student, parent or teacher with a good token gets 403 from an admin-only route. |
| Gates.RoleListsAdmit | backend/src/routes/student.routes.ts:27-29 | An admin-or-teacher route admits exactly admins and teachers. A route that also admits parents turns away exactly students, with 403. |
| Schemas.Errors | backend/src/schemas/auth.schemas.ts:4-45 | A chain reports no error exactly when each of its rules passes, and it reports at most one message per rule. |
| Schemas.SchemaErrors | backend/src/schemas/auth.schemas.ts:4-45 | A schema reports no error exactly when each field's chain passes. |
| Schemas.ThreeRules | backend/src/schemas/auth.schemas.ts:4-45 | A three-rule chain passes exactly when its three rules do. |
| Schemas.PasswordRule | backend/src/schemas/auth.schemas.ts:15-21 | A password passes exactly when it is a string of at least eight characters. |
| Schemas.RoleRule | backend/src/schemas/auth.schemas.ts:28-35 | A role passes exactly when it is TEACHER, PARENT or STUDENT. |
| Schemas.AdminRoleRefused | backend/src/schemas/auth.schemas.ts:28-35 | The role ADMIN is always refused. |
| Schemas.PhoneRule | backend/src/schemas/auth.schemas.ts:36-44 | A phone passes exactly when it is a string matching `+`, a digit 1-9 and 7 to 14 more digits. |
| Schemas.PhoneLengths | backend/src/schemas/auth.schemas.ts:41 | Every accepted phone number is 9 to 16 characters long. |
| Schemas.PhoneBuilt | backend/src/schemas/auth.schemas.ts:41 | Conversely, every such string is accepted. |
| Schemas.PhoneExample | backend/src/schemas/auth.schemas.ts:41 | Illustration of Schemas.PhoneRule: a Somali number is accepted, and one with a leading zero or without the plus sign is refused. |
| Schemas.ConfirmAlwaysFails | backend/src/schemas/auth.schemas.ts:22-28 | The confirmation check, which compares the value with the whole body, fails for every value. |
| Schemas.SignupSchemaRejectsEverything | backend/src/schemas/auth.schemas.ts:4-45 | Hence the sign-up schema rejects every request body. |
| Schemas.EmailRule | backend/src/schemas/auth.schemas.ts:48-52 | An e-mail passes exactly when it is non-empty and the e-mail check accepts it. |
| Schemas.LoginSchemaRule | backend/src/schemas/auth.schemas.ts:47-60 | The login schema passes exactly when the e-mail passes and the password is a string of at least eight characters. |
| Schemas.UpdateAdminSchemaRule | backend/src/schemas/auth.schemas.ts:62-84 | The admin-update schema passes exactly when the role is TEACHER, PARENT or STUDENT, the phone matches the international pattern, and the full name is a non-empty string. |
| Schemas.ConfirmIntendedRule | backend/src/schemas/auth.schemas.ts:22-28 | With the intended comparison against the password field, a confirmation passes exactly when it is a string of at least eight characters that equals the password. |
| Otp.LatestBelow | backend/src/controllers/auth.controller.ts:666-678 | The latest-code lookup returns one of the user's codes that is at least as recent as every other one, or reports that the user has none. |
| Otp.LatestExists | backend/src/controllers/auth.controller.ts:666-678 | In a valid store, a latest code exists exactly when the user has any code. |
| Otp.Issue | backend/src/controllers/auth.controller.ts:578-587 | Issuing adds exactly one unverified code for the user, expiring two minutes after `now`. The store differs from the old one only in the codes and the counter. |
| Otp.LatestBelowFrame | backend/src/controllers/auth.controller.ts:666-678 | Rows at or above the bound do not affect the latest code below it. |
| Otp.IssueBecomesLatest | backend/src/controllers/auth.controller.ts:1004-1013 | While the clock does not run backwards, a freshly issued code is the user's latest. |
| Otp.IssueKeepsOthersLatest | backend/src/controllers/auth.controller.ts:623-629 | Issuing a code for one user leaves every other user's latest code unchanged. |
| Otp.FreshCodeLivesTwoMinutes | backend/src/controllers/auth.controller.ts:680-688 | A fresh code counts as expired exactly after `now + 120000` ms, so it is still good at exactly its expiry instant. |
| Otp.CheckCode | backend/src/controllers/auth.controller.ts:666-693 | The verdict on a submitted code: no code, the latest expired, a wrong code, or a match, each exactly in its case. |
| Otp.DeleteOtp | backend/src/controllers/auth.controller.ts:680-688 | Deleting removes exactly that code, keeps every other code as it was, and changes no other table. |
| Otp.MarkVerified | backend/src/controllers/auth.controller.ts:848-855 | Marking sets only that code's verified flag. |
| Accounts.Register | backend/src/controllers/auth.controller.ts:37-115 | An account is created (201) exactly when all six fields are given, the e-mail and phone are free, the confirmation matches and the role is an enum value. It stores the hash of the password. Every refusal leaves the store unchanged. |
| Accounts.RegisterReportsEmailFirst | backend/src/controllers/auth.controller.ts:57-68 | A taken e-mail is reported first, whatever else is wrong. |
| Accounts.RegisterReportsPhoneBeforeMismatch | backend/src/controllers/auth.controller.ts:70-88 | A taken phone is reported before a mismatched confirmation, with the e-mail message. |
| Accounts.RegisterStoresOnlyTheHash | backend/src/controllers/auth.controller.ts:90-110 | After registration, the stored credential verifies the submitted password and no other string. |
| Accounts.RegisterAcceptsAdmin | backend/src/controllers/auth.controller.ts:37-115 | Registration does not consult the sign-up schema, so anyone can create an ADMIN account. |
| Accounts.Login | backend/src/controllers/auth.controller.ts:117-167 | Login succeeds exactly for an active account whose password verifies, and it returns that user without the password, plus a token. Every failure is 400 without a user or token. |
| Accounts.LoginHidesWhichCredentialFailed | backend/src/controllers/auth.controller.ts:127-147 | An unknown e-mail is answered exactly like a wrong password. |
| Accounts.LoginDisabledOnlyAfterPassword | backend/src/controllers/auth.controller.ts:140-155 | A disabled account is reported as disabled only to a caller who knows its password. |
| Accounts.DeleteTemporary | backend/src/controllers/auth.controller.ts:188-221 | As written, the temporary delete never changes the store: an active user is refused, and an inactive one is "deleted" again. |
| Accounts.DeleteTemporaryIntended | backend/src/controllers/auth.controller.ts:203-215 | The intended delete deactivates exactly an active user and changes nothing else. |
| Accounts.DeleteTemporaryNeverDeactivates | backend/src/controllers/auth.controller.ts:203-206 | On every active user the two differ: the written version refuses, and the intended one deactivates. |
| Accounts.Restore | backend/src/controllers/auth.controller.ts:242-274 | Restore activates exactly an existing inactive user with a non-zero id and changes nothing else. An unknown id fails in the update with 500. |
| Accounts.RestoreIdempotent | backend/src/controllers/auth.controller.ts:256-259 | A second restore is refused and changes nothing. |
| Accounts.ChangeRole | backend/src/controllers/auth.controller.ts:522-560 | A `null` id is 400 and an unknown id 404. The current role is refused with 400. An existing user with a different valid role gets 200 and exactly that role. Success implies those conditions. An absent id reaches the first account and the update throws (500). No other column of any account changes. |
| Accounts.ChangeRoleBack | backend/src/controllers/auth.controller.ts:522-560 | Changing a role and then changing it back restores the store. |
| Accounts.ChangePassword | backend/src/controllers/auth.controller.ts:378-426 | The answer is 200 exactly when the id is an account, the four fields are given, the old password verifies, the confirmation matches and the role is valid or absent. It then stores the new hash, the new name and the role, and keeps the other columns. A wrong old password is 400. A `null` id is 500. An absent id checks the first account's password and fails either way. No other row or table changes. |
| Accounts.UserByEmailFrame | backend/src/controllers/auth.controller.ts:127-138 | An update that keeps every e-mail keeps every e-mail lookup. |
| Accounts.ChangePasswordThenLogin | backend/src/controllers/auth.controller.ts:117-167 | After a password change, login with the new password succeeds and login with a different old one fails. |
| Accounts.UpdateSelf | backend/src/controllers/auth.controller.ts:315-376 | The answer is 200 exactly when the id is an account, no field is the empty string, both passwords are given, the old one verifies, the confirmation matches and no column is `null`. It then writes the given name, e-mail, phone and role, keeps absent ones, and stores a hash of the new password. A `null` id is 400. An absent id checks the first account's password. No other row or table changes. |
| Accounts.UpdateSelfUndo | backend/src/controllers/auth.controller.ts:315-376 | A second self-update that swaps the passwords and writes the old profile back restores the store. |
| Accounts.SendEmailCode | backend/src/controllers/auth.controller.ts:562-599 | For a known user a code is stored, even when the user has no e-mail. For a missing user nothing is stored, because the second answer throws before the insert. The answer is 200 exactly when the user has an e-mail. |
| Accounts.SendPhoneCode | backend/src/controllers/auth.controller.ts:601-640 | A code is stored exactly for a known user with a phone, before the WhatsApp send. The answer is 200 only when that send succeeds. |
| Accounts.SendEmailCodeThenVerify | backend/src/controllers/auth.controller.ts:562-717 | A code sent by e-mail, entered before it expires, sets the e-mail flag. |
| Accounts.SendPhoneCodeThenVerify | backend/src/controllers/auth.controller.ts:601-796 | A code sent by WhatsApp, entered before it expires, sets the phone flag, even when the send failed. |
| Accounts.ForgetPassword | backend/src/controllers/auth.controller.ts:979-1024 | A code is issued for the account with the given e-mail exactly when one exists, and otherwise nothing changes. |
| Accounts.Redeem | backend/src/controllers/auth.controller.ts:666-711 | The verify tail answers 200 exactly when the latest code matches and has not expired. |
| Accounts.VerifyEmail | backend/src/controllers/auth.controller.ts:642-717 | Only a matching, unexpired latest code sets the e-mail flag, and it marks that code verified. Every other outcome leaves the accounts unchanged. |
| Accounts.VerifyPhone | backend/src/controllers/auth.controller.ts:719-796 | The same for the phone flag, and an unknown user gets 404. |
| Accounts.WrongCodeKeepsRow | backend/src/controllers/auth.controller.ts:690-693 | A wrong code leaves everything in place, so the user may retry. |
| Accounts.ExpiredCodeRefusedEvenIfCorrect | backend/src/controllers/auth.controller.ts:680-688 | An expired code is refused even when it is right: it is deleted, and the flag stays unset. |
| Accounts.VerifyResetCode | backend/src/controllers/auth.controller.ts:798-865 | As written, the reset check never succeeds and never marks a code verified. |
| Accounts.VerifyResetCodeIntended | backend/src/controllers/auth.controller.ts:843-855 | The intended check succeeds exactly on a matching, unexpired latest code and marks it verified. |
| Accounts.VerifyResetCodeRefusesCorrectCode | backend/src/controllers/auth.controller.ts:843-846 | On a correct, unexpired code the written check says "incorrect", and the intended one succeeds. |
| Accounts.ResetPassword | backend/src/controllers/auth.controller.ts:867-928 | The user is looked up by an id that may be missing, and a missing one finds the first account. The password is replaced by the hash of the new one exactly when it equals its confirmation and that account's latest code is marked verified. Nothing else changes. |
| Accounts.ResetPasswordReplayable | backend/src/controllers/auth.controller.ts:894-922 | A verified code is not consumed, so a second reset also succeeds. |
| Accounts.AnonymousResetHitsFirstAccount | backend/src/routes/auth.routes.ts:102 | On its unauthenticated route, the reset replaces the first account's password whenever that account's latest code is verified, and keeps every other account. |
| Accounts.ForgetIssuesLatest | backend/src/controllers/auth.controller.ts:979-1024 | "Forgot password" keeps the accounts and makes the fresh code the asking account's latest. |
| Accounts.ForgottenPasswordFlowNeverResets | backend/src/controllers/auth.controller.ts:798-928 | On the routes as written, after "forgot password" and any reset-code check, the forgetting account keeps its password. The reset answers 200 exactly when the first account is another one whose latest code was verified, and then that account's password is replaced. |
| Accounts.WrittenFlowOnlyIssues | backend/src/controllers/auth.controller.ts:798-865 | The first two steps as written only add the fresh code: accounts, the first account and every other account's latest code are kept. |
| Accounts.ResetPasswordIntended | backend/src/controllers/auth.controller.ts:884-922 | The intended reset, keyed on the e-mail, succeeds exactly when that account's latest code is verified and the confirmation matches, and then sets only that account's password. |
| Accounts.IntendedFlowVerifiesLatest | backend/src/controllers/auth.controller.ts:798-865 | With the intended check, the first two steps keep the accounts and leave the asking account's latest code verified. |
| Accounts.ForgottenPasswordFlowIntended | backend/src/controllers/auth.controller.ts:798-928 | With the intended check and reset, the asking account ends up with the new password, and every other account is kept. |
| Accounts.ListUsers | backend/src/controllers/auth.controller.ts:1026-1078 | The page and limit are the parsed values or 1 and 10, the skip is `(page - 1) * limit`, and the page count is the user list's (0 for no rows, else the ceiling). A negative skip is refused (500) and only then. The listed number counts the users matching both filters. Because `isActive` overwrites the status filter, the active count is the active users of the role filter, the suspended count its suspended users, and the two add up to the role filter's users. |
| Accounts.UserCountsAddUp | backend/src/controllers/auth.controller.ts:1036-1061 | Without a status filter, the active and suspended counts add up to the listed number. |
| Accounts.ListUsersRefusesOnlyNegativeSkip | backend/src/controllers/auth.controller.ts:1028-1033 | Non-negative page and limit queries never make the list fail, and a negative page with a non-negative limit does. |
| Accounts.ListUsersPagesCoverRows | backend/src/controllers/auth.controller.ts:1028-1072 | With a positive limit, every listed user lies on exactly one page within `1..totalPages`. |
| Memorize.Months | backend/src/controllers/memorize.controller.ts:19 | An absent duration is 3 months, a `null` one adds nothing, and a given one is used as is. |
| Memorize.Create | backend/src/controllers/memorize.controller.ts:22-116 | A target is created exactly when the request is complete, both ayahs are at least 1, the student exists with a class and a halaqa, it has no active target, and the start date is absent or parses. Past the guards, an unparsable start date makes the insert throw (500). Refusals change nothing. |
| Memorize.ClassCheckedBeforeHalaqa | backend/src/controllers/memorize.controller.ts:53-69 | A missing class is reported before a missing halaqa. |
| Memorize.CreateKeepsOneActive | backend/src/controllers/memorize.controller.ts:71-101 | Creation keeps every student at no more than one PENDING or IN_PROGRESS target. |
| Memorize.CreatedTargetSnapshot | backend/src/controllers/memorize.controller.ts:83-101 | The new target copies the student's class and halaqa and starts at its start position. Its start date defaults to now, and it has no completion date. |
| Memorize.DueDateWholeMonths | backend/src/controllers/memorize.controller.ts:19-85 | For a start day up to the 28th, the due date keeps the day and lies exactly the duration's months later (3 by default, 0 for `null`). |
| Sweep.Message | backend/src/job/memorizeCron.ts:29 | The notice is the fixed head, then the student's name, then the fixed tail. |
| Sweep.MessageNamesTheStudent | backend/src/job/memorizeCron.ts:29 | Different names give different notices. |
| Sweep.SelectBelow | backend/src/job/memorizeCron.ts:12-16 | The selection is strictly ascending and holds exactly the due IN_PROGRESS targets. |
| Sweep.SelectionIsExact | backend/src/job/memorizeCron.ts:12-16 | The sweep picks exactly the targets due on or before today that are IN_PROGRESS, and never a PENDING one. |
| Sweep.Notices | backend/src/job/memorizeCron.ts:31-49 | Each target gives one to three in-app notices. |
| Sweep.Sends | backend/src/job/memorizeCron.ts:51-53 | Each target that passes the notices gets a WhatsApp message and then an e-mail. |
| Sweep.Run | backend/src/job/memorizeCron.ts:28-54 | The loop emits exactly the events of the sweep's reference definition and stops after the first failed WhatsApp send. |
| Sweep.EveryStudentNotified | backend/src/job/memorizeCron.ts:31-35 | In a sweep that is not aborted, every selected target's student gets the notice. |
| Sweep.NoticeRecipients | backend/src/job/memorizeCron.ts:31-49 | The student is always notified, the parent only when the parent account resolves, the halaqa teacher only when that account resolves, all with the same title and message. |
| Sweep.FailedWhatsAppStopsSweep | backend/src/job/memorizeCron.ts:51 | A failed WhatsApp send aborts the sweep, and later targets get nothing. |
| Attendance.Unit | backend/src/controllers/class.controller.ts:714-726 | One record adds one to the total and one to its own status's count. |
| Attendance.TallyOf | backend/src/controllers/class.controller.ts:709-711 | Present and absent together never exceed the total, and the overall total is the number of records. |
| Attendance.TwoStatusesCover | backend/src/controllers/class.controller.ts:709-711 | With only PRESENT and ABSENT records, the two counts make up the total. |
| Attendance.Find | backend/src/controllers/class.controller.ts:714-724 | The per-student entry lookup finds that student's entry, or reports that it has none. |
| Attendance.InsertKeepsTable | backend/src/controllers/class.controller.ts:714-726 | Filing one more record keeps the per-student table right for the records seen. |
| Attendance.Report | backend/src/controllers/class.controller.ts:709-726 | The report's counts are those of all records. Each per-student entry holds that student's counts, one entry per student who has records. The entries add up to the overall counts. |
| Students.ParseGender | backend/src/controllers/student.controller.ts:15-18 | A gender is accepted exactly when it is MALE or FEMALE. |
| Students.Guard | backend/src/controllers/student.controller.ts:10-80 | The guard lets a request through exactly when it is admissible. Refusals change nothing, and a listed parent that does not resolve is 404. |
| Students.Create | backend/src/controllers/student.controller.ts:7-132 | A student is created exactly when the request is admissible, and then every listed parent exists. Refusals are the guard's answer. |
| Students.ElemsCard | backend/src/controllers/student.controller.ts:56-64 | A list has as many distinct values as entries exactly when no value repeats. |
| Students.ParentsResolveIff | backend/src/controllers/student.controller.ts:56-64 | The length comparison lets the parent list through exactly when its ids are distinct and all exist. |
| Students.DuplicateParentRefused | backend/src/controllers/student.controller.ts:56-64 | A list naming the same parent twice is refused. |
| Students.LinksShape | backend/src/controllers/student.controller.ts:82-99 | The inserted links occupy consecutive ids, one per listed parent, the `i`-th naming the `i`-th parent. |
| Students.LinksNameListedParents | backend/src/controllers/student.controller.ts:82-99 | Every inserted link names the new student and a listed parent. |
| Students.LinksDistinctParents | backend/src/controllers/student.controller.ts:82-99 | For a list without repeats, no two links name the same parent. |
| Students.EnrolKeepsStudentRows | backend/src/controllers/student.controller.ts:82-99 | Enrolment keeps one student row per STUDENT account. |
| Students.EnrolKeepsLinksResolved | backend/src/controllers/student.controller.ts:82-99 | Enrolment keeps every link naming an existing parent and student. |
| Students.EnrolLinksOf | backend/src/controllers/student.controller.ts:82-99 | The links to the new student are exactly the inserted ones. |
| Students.EnrolLinksEachParentOnce | backend/src/controllers/student.controller.ts:82-99 | The new student has exactly one link per listed parent. |
| Students.CreateKeepsRowsSound | backend/src/controllers/student.controller.ts:7-132 | Creation keeps the student rows sound and every link resolving. |
| Students.CreateLinksEachParentOnce | backend/src/controllers/student.controller.ts:82-99 | A created student has exactly one link per listed parent. |
| Students.CreatedPlacement | backend/src/controllers/student.controller.ts:66-99 | Class and halaqa are stored only when truthy, and a stored halaqa belongs to the stored class. |
| Classes.Create | backend/src/controllers/class.controller.ts:7-63 | A class is created exactly when name and teacher are given, the name is free regardless of case, and the teacher exists. Refusals change nothing. |
| Classes.CreateKeepsNamesUnique | backend/src/controllers/class.controller.ts:15-25 | Creation keeps class names unique regardless of case. |
| Classes.Write | backend/src/controllers/class.controller.ts:311-321 | An absent field keeps the column, `null` clears it, and a value sets it. |
| Classes.Update | backend/src/controllers/class.controller.ts:248-327 | The update succeeds exactly when something is given, the class exists, the name is new and unused, and a given teacher exists. It changes only the supplied columns of that one class: a truthy name or teacher replaces the old one, a `null` rank or score clears it, a number sets it, and an absent one keeps it. |
| Classes.NullTeacherUpdatesNothing | backend/src/controllers/class.controller.ts:258-321 | A `null` teacher passes the "something given" check and then changes nothing. |
| Classes.UpdateKeepsNamesUnique | backend/src/controllers/class.controller.ts:278-296 | Updates keep class names unique regardless of case. |
| Classes.Delete | backend/src/controllers/class.controller.ts:329-407 | A delete goes through exactly for an existing class without halaqas, students or memorization targets, and then it is the cascade. Halaqas or students give 400. A target still naming the class makes the class delete throw (500) and leaves the store unchanged. |
| Classes.DeleteLeavesNoOrphans | backend/src/controllers/class.controller.ts:369-401 | After the cascade, no exam, schedule, result or target refers to the class. The other classes and the surviving exams, schedules and results are unchanged, and the tables outside these four are kept. |
| Classes.TargetBlocksDelete | backend/src/controllers/class.controller.ts:369-401 | A class with no halaqa or student but a memorization target copied from a former student cannot be deleted: the request fails with 500. |
| Classes.ListAsWritten | backend/src/controllers/class.controller.ts:65-120 | As written, any search term or a page query the database refuses makes the listing fail. Otherwise it holds the teacher's classes and the class paging of their count. |
| Classes.ListIntended | backend/src/controllers/class.controller.ts:65-120 | The intended listing fails only on a refused page query, and holds exactly the classes matching the teacher and the search term, with their paging. |
| Classes.SearchRefusedAsWritten | backend/src/controllers/class.controller.ts:70-74 | A search that the intended listing answers with a class makes the written one fail. |
| Classes.ListingsAgreeWithoutSearch | backend/src/controllers/class.controller.ts:65-120 | Without a search term the two listings agree. |
| Teachers.Create | backend/src/controllers/teacher.controller.ts:8-71 | A teacher row is created exactly for a TEACHER account without one and a positive salary. A `null` or non-positive salary is 400. |
| Teachers.CreateKeepsTeacherRowsSound | backend/src/controllers/teacher.controller.ts:8-71 | Creation keeps one teacher row per TEACHER account. |
| Teachers.Update | backend/src/controllers/teacher.controller.ts:73-120 | A falsy salary is refused first, then an unknown teacher (404). Success changes only that teacher's salary. |
| Teachers.UpdateIdempotent | backend/src/controllers/teacher.controller.ts:73-120 | Repeating an update changes nothing more, and updates keep the teacher rows sound. |
| Teachers.DeleteGuard | backend/src/controllers/teacher.controller.ts:122-160 | A delete passes the guard exactly for an existing teacher without classes, halaqas or unpaid salaries. |
| Teachers.DeleteAsWritten | backend/src/controllers/teacher.controller.ts:122-188 | As written, the delete goes through exactly when the guard passes, the teacher has no schedule, attendance or salary row under another id, and the account and halaqa with the teacher's id exist unused or not at all. It then removes, from the schedule, halaqa, teacher-attendance, salary, teacher and account tables, the row whose own id equals the teacher id. Every other row and table is kept. |
| Teachers.DeleteAsWrittenMissesTeacherRows | backend/src/controllers/teacher.controller.ts:161-182 | Rows of the teacher under other ids make the written delete fail with 500. When it goes through and the account id differs, the account with the teacher's id is removed and the teacher's own account survives. |
| Teachers.PaidSalaryBlocksWrittenDelete | backend/src/controllers/teacher.controller.ts:147-182 | A paid salary row under another id makes the written delete fail while the intended one goes through. |
| Teachers.DeleteAsWrittenRemovesWrongUser | backend/src/controllers/teacher.controller.ts:161-182 | A concrete store where deleting teacher 5, who belongs to user 3, deletes user 5 instead. |
| Teachers.DeleteIntended | backend/src/controllers/teacher.controller.ts:147-182 | The intended cascade goes through exactly when the guard passes and the teacher's account exists and is held by no other row. |
| Teachers.DeleteIntendedLeavesNoOrphans | backend/src/controllers/teacher.controller.ts:161-182 | It removes the teacher, its account, and its schedule, teacher-attendance and salary rows. Every other row of those tables survives unchanged, and every other table is kept. |
| Teachers.SetActive | backend/src/controllers/teacher.controller.ts:446-512 | Deactivating or activating sets only the linked account's flag. |
| Teachers.SetActiveIdempotent | backend/src/controllers/teacher.controller.ts:446-512 | Repeating it changes nothing more. |
| Teachers.DeactivateThenActivate | backend/src/controllers/teacher.controller.ts:446-512 | Deactivating an active teacher and activating it again restores the store. |
| Teachers.Matching | backend/src/controllers/teacher.controller.ts:578-616 | One entry per matching row: the number of entries is the number of matching ids, each satisfies the filter and is a row of the table, and every matching row is among them. |
| Teachers.DifferenceIsOwed | backend/src/controllers/teacher.controller.ts:614-616 | Total earned minus total paid is the sum of what each row still owes. |
| Teachers.SettledOwesNothing | backend/src/controllers/teacher.controller.ts:614-616 | When every row is paid in full, nothing is owed. |
| Teachers.Summarize | backend/src/controllers/teacher.controller.ts:614-616 | `totalEarn` is the sum of the rows' salaries, `totalPaid` the sum of their paid amounts, and `total` their difference, which is what the rows still owe. |
| Teachers.SalaryHistoryAsWritten | backend/src/controllers/teacher.controller.ts:578-629 | As written, a year filter makes the report fail with 500. Without one the report's `data` is the teacher's rows under the status filter, and its summary is their earned and paid sums and what they still owe. |
| Teachers.SalaryHistoryIntended | backend/src/controllers/teacher.controller.ts:578-629 | The intended report answers for every existing teacher. Its `data` is the teacher's rows of the requested year and status, and its summary is their earned and paid sums and what they still owe. |
| Teachers.YearFilterRefusedAsWritten | backend/src/controllers/teacher.controller.ts:601-603 | A year for which the teacher has a salary row fails as written, yet that row belongs in the report. |
| Teachers.SalaryHistoriesAgreeWithoutYear | backend/src/controllers/teacher.controller.ts:578-629 | Without a year the two reports agree. |
| Teachers.MonthWindowIsTheMonth | backend/src/controllers/teacher.controller.ts:654-668 | For a month filter, the window holds exactly that month's days. |
| Teachers.AsRecords | backend/src/controllers/teacher.controller.ts:670-679 | Attendance rows become records with the same statuses. |
| Teachers.StatusQuery | backend/src/controllers/teacher.controller.ts:656-658 | An absent or empty status query filters nothing. Any other string filters on the status of that name. |
| Teachers.AttendanceHistory | backend/src/controllers/teacher.controller.ts:631-699 | It reads the student attendance table. For an existing teacher and a status query the enum accepts, the answer's `data` is the matching rows: the teacher's, of the asked status, in the date window. The total, present and absent counts are the numbers of matching rows in all, PRESENT and ABSENT, and a status filter puts every row under that status. A status string naming no enum member makes the query throw (500). |
| Teachers.CountsMatchRows | backend/src/controllers/teacher.controller.ts:670-679 | Counting the matching rows gives the number of matching ids in all and for each of the two statuses. |
| Teachers.StatusCountMatchesRows | backend/src/controllers/teacher.controller.ts:677-679 | The count of one status is the number of matching rows of that status. |
| Teachers.HistoryCountsCover | backend/src/controllers/teacher.controller.ts:677-679 | When the table holds only PRESENT and ABSENT rows, the two counts add up to the total. |
| Teachers.OneStatusCounts | backend/src/controllers/teacher.controller.ts:677-679 | Filtering on one status counts every row under it and none under the other. |
| Halaqas.Insert | backend/src/controllers/haqala.controller.ts:48-56 | The insert succeeds exactly when the class reference exists, and then it adds the halaqa with the given teacher, class and name. |
| Halaqas.CreateAsWritten | backend/src/controllers/haqala.controller.ts:7-60 | As written, the class check looks up the teacher id among the classes. A teacher id that is no class id gives 404, and an unknown class fails only at the insert. |
| Halaqas.CreateIntended | backend/src/controllers/haqala.controller.ts:25-34 | The intended check succeeds exactly for an existing teacher and class with a name unused in that class. It never answers 500. |
| Halaqas.ClassLookupByTeacherId | backend/src/controllers/haqala.controller.ts:25-34 | An existing class is refused as written whenever no class has the teacher's id, while the intended version creates the halaqa. |
| Halaqas.UnknownClassReachesInsert | backend/src/controllers/haqala.controller.ts:25-56 | An unknown class passes the written check and fails with 500, while the intended version answers 404. |
| Halaqas.VersionsAgreeOnSuccess | backend/src/controllers/haqala.controller.ts:7-60 | Whenever the written version succeeds, the intended one gives the same reply. |
| Halaqas.InsertKeepsNamesUnique | backend/src/controllers/haqala.controller.ts:36-56 | Inserting an unused name keeps halaqa names unique within each class. |
| Halaqas.CreateKeepsNamesUnique | backend/src/controllers/haqala.controller.ts:36-56 | Both versions keep halaqa names unique within each class, regardless of case. |
| Parents.Create | backend/src/controllers/parent.controller.ts:7-52 | A parent row is created exactly for a PARENT account that has none. A missing id is 400 and a non-parent account is 400. |
| Parents.CreateKeepsParentRowsSound | backend/src/controllers/parent.controller.ts:31-48 | Creation adds exactly one row and keeps one parent row per PARENT account. |
| Parents.SecondCreateRefused | backend/src/controllers/parent.controller.ts:37-40 | Registering the same account twice fails the second time. |

## Left out

- Password hashing and token signing are ideal (`Crypto.Hash` is injective). Token verification is a function parameter, so argon2 and JWT themselves are not modelled.
- The refresh-token handler is not modelled, because its answer depends on Express sending two responses.
- E-mail, WhatsApp, Twilio, nodemailer and uploads are not modelled. The sweep records them as events, and only a failed WhatsApp send matters (it aborts).
- Cron scheduling is not modelled: the sweep is a function of `today`. The code generator is not modelled either: the code is a parameter.
- The list and read-only handlers outside the named operations are not modelled, because they hold no decision logic beyond a lookup. These include `getClassById`, `changeTeacherClass`, the class's students, halaqas, schedules, exams and results, the teacher lists and `getStudentTeacher`.
- `findMany` result order is not modelled: rows are taken in ascending id order. Among codes with the same `createdAt`, the larger id counts as the latest.
- Foreign keys are checked only where a handler's outcome depends on them: the class reference of the halaqa insert, the memorization targets that block the class delete, and the references that block the teacher delete. An update of a missing row throws (500) wherever a handler can reach one.
- Floating point is not modelled: the attendance percentages and `toFixed` strings are left out, and the counts are kept.
- Time of day and time zones are not modelled: dates are calendar triples, and instants are integer milliseconds.
- express-validator's `isEmail` is not modelled: it is a parameter of the schema functions.
- Case folding covers ASCII letters only, not Unicode.
- The `parseInt` and `Number()` parsing of query strings is not modelled: a parsed value is an `Option<int>` or a `JsNumber` that is an integer or NaN. Fractional ids, pages and page sizes, and malformed "YYYY-MM" month strings, are not modelled.
- Each row's id comes from one global counter instead of one sequence per table.
- `Promise.all` concurrency and the check-then-create races are not modelled. Transactions are atomic transitions.
- Accounts.ResetPassword: the id is an `Option<nat>`, so a `null` user id is not distinguished from a missing one; the route only ever supplies a missing one.
- Accounts.ChangeRole: the contract does not fix the wording of each message.
- Classes.Delete: the contract states the status and store, not the messages that embed counts.
- Classes.Delete: the database schema is not part of this model, so its relations are taken to restrict deletes. Beyond the halaqa and student checks, only memorization targets naming the class block it. Student attendance rows carry no class in this model, so they cannot block it.
- Accounts.ListUsers: the page slice (the `users` array that `findMany` returns with skip and take) is not modelled. Only the counts and paging data are.
- Teachers.SalaryHistoryAsWritten: the report's rows are in row-id order. The `orderBy: { month: "desc" }` sort is not modelled.
- Teachers.SalaryHistoryIntended: like the written report, its rows are in row-id order, not sorted by month.
- Memorize.Create: the initial status of a new target is the schema default, taken to be PENDING.
- Attendance.Report: the per-student table is ordered by first appearance. The record lookup by class (the query before the counting) is an input.
- Teachers.AttendanceHistory: the `startDate`/`endDate` strings are taken as already parsed dates.
- Teachers.AttendanceHistory: the rows are in row-id order. The `orderBy: { date: "desc" }` sort is not modelled. The names of the status enum are a parameter, because the database schema is not part of this model.
- Memorize.Create: `new Date(startDate)` is not modelled. The body value arrives already classified as falsy, unparsable or a parsed instant.
- Teachers.DeleteAsWritten: the database schema is not part of this model, so its relations are taken to restrict deletes. Only these references block the transaction: the teacher's schedule, teacher-attendance and salary rows; student, parent and other teacher rows holding the account with the teacher's id; and students and targets placed in the halaqa with that id. Code rows and student attendance rows are taken not to block.
- Paging.ClassPaging: the class list's rows are a set of ids; the page slice itself (`skip`, `take`, newest first) is not modelled.

## Findings

| source | as written | input that shows it | evidently intended | confidence | as-written member | corrected member |
|---|---|---|---|---|---|---|
| backend/src/schemas/auth.schemas.ts:27 | the confirmation is compared with the whole request body | any body, e.g. `password = confirm_password = "secret123"` | compare with `req.body.password` | not executed | Schemas.SignupSchemaRejectsEverything | Schemas.ConfirmIntendedRule |
| backend/src/controllers/auth.controller.ts:843-846 | the code row object is compared with `===` to the submitted string | the correct, unexpired latest code | compare the row's `code` field | not executed | Accounts.VerifyResetCodeRefusesCorrectCode | Accounts.VerifyResetCodeIntended |
| backend/src/controllers/auth.controller.ts:203-206 | the guard refuses active users | any active user | refuse inactive users, deactivate active ones | not executed | Accounts.DeleteTemporaryNeverDeactivates | Accounts.DeleteTemporaryIntended |
| backend/src/controllers/haqala.controller.ts:25-34 | the class is looked up by `teacherId` | teacher 7 and existing class 2, with no class 7 | look the class up by `classId` | not executed | Halaqas.ClassLookupByTeacherId | Halaqas.CreateIntended |
| backend/src/controllers/teacher.controller.ts:161-182 | the cascade deletes by the teacher id in every table, including the accounts | teacher 5 of user 3 (Teachers.DeleteAsWrittenRemovesWrongUser); a paid salary under another id gives 500 (Teachers.PaidSalaryBlocksWrittenDelete) | delete the teacher's own rows and its account | not executed | Teachers.DeleteAsWrittenMissesTeacherRows | Teachers.DeleteIntended |
| backend/src/controllers/class.controller.ts:72 | the filter operator is `contians` | any non-empty `search` | `contains` | not executed | Classes.SearchRefusedAsWritten | Classes.ListIntended |
| backend/src/controllers/teacher.controller.ts:602 | the filter operator is `startWith` | any non-empty `year` | `startsWith` | not executed | Teachers.YearFilterRefusedAsWritten | Teachers.SalaryHistoryIntended |
| backend/src/routes/auth.routes.ts:102 and backend/src/controllers/auth.controller.ts:884-888 | the reset route has no authentication, so the user id is `undefined` and the lookup finds the first account | any reset while the first account's latest code is verified, e.g. right after its owner verified an e-mail | reset the account of the e-mail the code was sent to | not executed | Accounts.ForgottenPasswordFlowNeverResets | Accounts.ForgottenPasswordFlowIntended |
