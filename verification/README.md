# Boolean University login gate and student dashboard, in Dafny

This project models the client-side login gate of the Boolean University
portal (`Login.js`) and the student dashboard that follows it
(`student.js`), and proves properties of that model.

The model has two parts.

- **The login gate.** `BooleanLogin` holds a fixed table of three accounts,
  keyed by e-mail. Each record carries a failure counter and a lock flag.
  One submission of the login form is one pure step over a `Portal`. The
  portal holds the user table and the tab's session storage. The step
  first normalises the e-mail (`trim()` then `toLowerCase()`). It then
  refuses empty fields and a malformed e-mail, and only after that looks
  the account up. A locked account is refused. A matching password resets
  the counter and writes the session record. A wrong password counts one
  more failure, and the third failure locks the account.
- **The student dashboard.** The dashboard reads the session record or
  sends the visitor back to the login page. It derives a student
  identifier from the e-mail and dispatches its buttons by their text.
  Its logout clears the session and the remembered e-mail.

Runs of submissions are modelled by replaying the step over a sequence of
attempts (`Lockout.Replay`). The lockout properties are proved over such
runs:

- the counter invariant holds on every reachable table;
- three wrong passwords lock an account;
- a lock cannot be opened by the right password;
- only the account under the submitted key ever changes.

These hold within one page. The table lives in the page, not in any
browser store: a reload builds a new `BooleanLogin`, which seeds the table
afresh with every counter at zero and every lock open, while the tab's
session storage survives (`Lockout.Reload`). `Lockout.ReloadReopens` proves
that after a reload every seeded account admits its own password again,
whatever happened to it before.

Files:

- `options.dfy`: `Option`.
- `text.dfy`: the JavaScript string operations the code relies on. These
  are the `\s` class, `trim`, `toLowerCase` and `includes`.
- `email.dfy`: the e-mail check `^[^\s@]+@[^\s@]+\.[^\s@]+$`. It is written
  as a computed check, and proved equal to a direct reading of the
  pattern.
- `login.dfy`: `Login.js`.
- `lockout.dfy`: sequences of attempts against the login page.
- `dashboard.dfy`: `student.js`.

The failure messages differ from a design that hides whether an account
exists. An unknown e-mail gets "Invalid email or password.". A wrong
password gets the same text followed by " N attempt(s) remaining.".
`Login.WrongPasswordRevealsAccount` proves that the first text is a proper
prefix of the second, so the two can be told apart. The model follows the
code here.

## Model

| member | source | states |
|---|---|---|
| Text.TrimStartShape | Login.js:69 | what `trim` drops at the front is all white space, and the rest starts with a non-white character |
| Text.TrimEndShape | Login.js:69 | what `trim` drops at the back is all white space, and the rest ends with a non-white character |
| Text.TrimShape | Login.js:69 | trimming leaves an infix of the input with only white space around it, and that infix starts and ends with non-white characters; the result is empty exactly when the input is all white space |
| Text.ToLowerShape | Login.js:69 | lower-casing keeps the length, maps each upper-case letter to its lower-case partner, keeps every other character, and leaves no upper-case letter |
| Text.ToLowerStable | Login.js:69 | lower-casing is idempotent, keeps a trimmed string trimmed, and keeps all-white strings all white |
| Text.TrimTrimmed | Login.js:69 | trimming a string without white space at its ends returns it unchanged |
| Text.Contains | student.js:25-26 | `includes` holds exactly when the pattern occurs at some position of the string |
| Email.IndexOf | Login.js:101 | the position found is the first '@', or the length when the string has no '@' |
| Email.ValidEmailIffRegex | Login.js:100-103 | the computed e-mail check accepts exactly the strings that split as `local@left.right` with three non-empty runs free of white space and '@' |
| Email.NoAtNoEmail | Login.js:100-103 | a string without '@' is never accepted |
| Login.SeedDirectory | Login.js:7-34 | the table starts with exactly the three seeded e-mails, each record filed under its own e-mail, unlocked, with no failures, so the counter invariant holds |
| Login.SeedKeyIsLookupKey | Login.js:7-34 | every seeded key passes the e-mail check and is already normalised, so each account can be reached by typing its e-mail |
| Login.JohnRecord | Login.js:8-15 | John Smith's seeded record is a student account with password "student123" |
| Login.NormalizeShape | Login.js:69 | the lookup key has no white space at its ends and no upper-case letter, and it is empty exactly when the typed e-mail is all white space |
| Login.NormalizeIdempotent | Login.js:69 | normalising a lookup key again changes nothing |
| Login.Decimal | Login.js:152 | the number printed in the remaining-attempts message is a non-empty run of decimal digits without a leading zero that denotes exactly that number |
| Login.DecimalInjective | Login.js:152 | different numbers of remaining attempts print differently |
| Login.Message | Login.js:81-152 | the text shown for an outcome starts with "Welcome back, " exactly on success, and starts with "Invalid email or password." exactly for an unknown account or a wrong password |
| Login.MessageDeterminesOutcome | Login.js:81-152 | the text shown determines the outcome: equal texts mean both succeed with the same full name, or both are the same failure with the same number of attempts remaining |
| Login.MessagesOfKindsDiffer | Login.js:81-152 | failures of different kinds never show the same text |
| Login.WrongPasswordRevealsAccount | Login.js:109-154 | the unknown-account text is a proper prefix of every wrong-password text, so the two messages differ |
| Login.StoreSession | Login.js:192-201 | session storage gains the record under "userSession", holding the normalised e-mail, the account's role and full name, and the login time; every other key keeps its value |
| Login.Authenticate | Login.js:105-156 | an unknown key or a locked account changes nothing; a matching password on an open account resets the counter and yields the session; a wrong one adds exactly one failure, locks when the count reaches 3 and otherwise reports 3 minus the count remaining; only the record under the key changes, never its password, role, name or e-mail; the counter invariant is preserved |
| Login.HandleLogin | Login.js:68-98 | an empty normalised e-mail or empty password is refused first, then a malformed e-mail, and neither touches any state; otherwise the outcome and new table are those of `Authenticate` on the normalised key; only a success writes the session, with the normalised e-mail; the counter invariant is preserved |
| Login.DashboardFor | Login.js:203-215 | Student, Faculty and Administrator land on student.html, faculty.html and admin.html, and any other role navigates nowhere |
| Login.RememberMe | Login.js:173-182 | ticking stores the e-mail field as typed when it is non-empty, unticking removes the entry, and no other key of local storage changes |
| Login.SavedEmail | Login.js:184-190 | a page load pre-fills exactly the non-empty remembered e-mail |
| Login.RememberThenLoad | Login.js:173-190 | what ticking stores is what the next load pre-fills, and unticking leaves nothing to pre-fill |
| Login.ResetAll | Login.js:265-269 | every record is reopened with no failures, no other field of any record changes, and the counter invariant holds afterwards |
| Login.ResetReopens | Login.js:265-269 | after the reset every account accepts its own password, whatever its failures and lock were |
| Lockout.Replay | Login.js:105-156 | a run of attempts keeps the set of accounts and preserves the counter invariant (at most 3 failures, locked exactly at 3) |
| Lockout.Outcomes | Login.js:105-156 | a run yields one outcome per attempt |
| Lockout.InitialPortal | Login.js:7-34 | a fresh tab starts from a consistent table and an empty session storage |
| Lockout.Reload | Login.js:285-286 | a reload keeps the session storage and replaces the table by the seeded one: the same three accounts, each with no failures and no lock |
| Lockout.ReloadReopens | Login.js:285-286 | after a reload every seeded account, locked or not before, logs in with its own password, writes its e-mail into the session, and is left with no failures and no lock |
| Lockout.ReplayAppend | Login.js:105-156 | replaying two runs back to back is replaying their concatenation, outcomes included |
| Lockout.UntouchedAccount | Login.js:105-156 | attempts whose e-mail never normalises to an account's key leave that record exactly as it was |
| Lockout.OutcomeAt | Login.js:105-156 | the outcome of the i-th attempt of a run is that of submitting it on the page left by the attempts before it |
| Lockout.LockedStep | Login.js:116-122 | one attempt leaves a locked record as it is, never succeeds on it, and is refused with the lockout message once it reaches the lookup |
| Lockout.LockedRecordKept | Login.js:116-122 | a locked record is unchanged by any run of attempts |
| Lockout.LockIsPermanent | Login.js:116-122 | within one page, on a locked account no later attempt succeeds, even with the right password, and every one that reaches the lookup gets the lockout message; the record never changes |
| Lockout.LosingStreak | Login.js:141-154 | a streak of n wrong passwords reports n-1, n-2, ..., 1 attempts remaining and then the lock |
| Lockout.WrongStep | Login.js:141-154 | one wrong non-empty password on an open, well-formed account adds one failure, and locks exactly when that reaches 3 |
| Lockout.WrongStreakLocks | Login.js:141-154 | as many consecutive wrong passwords as an open account has failures left lock it, each reporting one fewer remaining attempt, and leave it with 3 failures and the lock set |
| Lockout.ThreeStrikes | Login.js:116-154 | three wrong passwords on a fresh account give 2 and 1 attempts remaining and then the lock, and a fourth attempt with any non-empty password is refused as locked |
| Lockout.StreakOfThree | Login.js:141-154 | the losing streak from a fresh account is two remaining-attempt reports followed by the lock |
| Lockout.JohnSmithLockout | Login.js:105-156 | three identical wrong passwords for john.smith@boolean.edu and then "student123" give 2 remaining, 1 remaining, the lock, and a refusal, and the account ends locked |
| Dashboard.ExtractStudentId | student.js:23-28 | the identifier is always STU001 or STU002, and it is STU002 exactly when the e-mail contains "jane.doe" but not "john.smith" |
| Dashboard.StudentIdNeverEmpty | student.js:16-27 | the identifier is never empty, so the caller's fallback to STU001 never takes effect |
| Dashboard.JohnSmithFirst | student.js:23-28 | "john.smith" wins over "jane.doe", and a missing e-mail or one with neither name gets STU001 |
| Dashboard.InitializeUserInfo | student.js:10-21 | without a session record the page goes back to login; with one it shows the full name, or "Student" when that is empty, and the identifier derived from the session's e-mail |
| Dashboard.LoginThenDashboard | student.js:12-16 | after a successful login the dashboard shows the account's full name and the identifier derived from the normalised e-mail |
| Dashboard.HandleQuickAction | student.js:76-93 | "Register for Courses" opens the catalogue, the three other named buttons each raise their own notice, and any other text is only logged |
| Dashboard.HandleViewAll | student.js:95-109 | "Browse Catalog" opens the catalogue, "View All" and "Inbox" raise their own notices, and any other text is only logged |
| Dashboard.DispatchTablesSeparate | student.js:76-109 | different named buttons of one table do different things, and the two tables never raise the same notice |
| Dashboard.Logout | student.js:136-143 | a confirmed logout removes exactly "userSession" and "rememberedEmail" and goes to login; an unconfirmed one changes nothing |
| Dashboard.LogoutEndsSession | student.js:137-143 | after a confirmed logout the dashboard sends the visitor to login, nothing is pre-filled, and logging out again changes nothing |

## Left out

- The DOM and presentation are not modelled. This covers reading form fields, messages, CSS classes, the loading state of the button, the password visibility toggle and the animations (Login.js:158-171, 217-246). The e-mail field, the password and the remember-me box are inputs.
- The simulated network delay and the redirect delay (`setTimeout`, Login.js:95-97, 136-138) are not modelled. An attempt is atomic.
- The navigation itself is left out. `Login.DashboardFor` returns the page, and `Dashboard.View` and `Dashboard.Stores` say whether the page goes back to login.
- `console.log`, `console.table` and `logAttempt` are logging only (Login.js:248-262, 270-281; student.js:59-74). `getUserStatus` only prints the table.
- `alert` texts are left out: the dashboard's notices are tags of `Dashboard.Notice`. `confirm` is a boolean input.
- `goToCatalog` and `openMessage` only raise alerts (student.js:111-133, 145-152). `Dashboard.Action.GoToCatalog` stands for them.
- The clock is a parameter: `new Date().toISOString()` is the opaque `now` text.
- `JSON.stringify`/`JSON.parse` are left out. The session is stored as a record, not as text.
- Text.ToLower: lower-cases the ASCII letters A-Z only; the full Unicode case mapping of `toLowerCase` is not modelled. That mapping sends U+212A KELVIN SIGN to the ASCII 'k', so JavaScript would let an e-mail typed with it reach a key containing 'k', where the model keeps the sign. No seeded key contains 'k', and every other non-ASCII letter lower-cases to a text holding a non-ASCII character, which no seeded key holds, so both find the same accounts.
- Dashboard.InitializeUserInfo: a missing `fullName` field cannot occur, because a session record always carries one. Only the empty name falls back to "Student".
- The event-listener wiring and the constructor calls are left out. They only connect these functions to the page.
- Object-prototype lookups are not modelled. `this.users[username]` could find inherited names such as `constructor`, but no such name contains '@' (`Email.NoAtNoEmail`), so none reaches the lookup.
