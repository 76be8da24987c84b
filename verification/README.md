# User management CRUD service: a Dafny model

The system is a small Flask web application that keeps a table of users
(first name, last name, email, age, city, creation time). It can list,
add, view, update, delete and search them. Two scripts sit beside it:

- a seeding script that inserts four fixed student records unless their
  emails are already present;
- a CI hook that reads an OWASP ZAP scan report, counts alerts by risk
  level and fails the build on any High alert.

The model has five modules:

- `Wrappers` holds `Option` and `Result`.
- `Text` models the pieces of Python and SQL string semantics the core
  relies on:
  - Python's whitespace (`str.isspace`, ASCII and Unicode) and `str.split()[0]`;
  - `int()` on a form string: the padding it skips, an optional sign, ASCII
    digits, and CPython's default limit of 4300 digits;
  - case-insensitive substring search;
  - SQL `LIKE` pattern matching with `%` and `_`.
- `Users` models the `User` table as a map from id to row, and each route
  handler as a pure function from the store and the request to a new store
  and an outcome.
  - A form field counts as present when it is non-empty, as Python's
    truthiness test on `request.form.get` does.
  - The store invariant `ValidStore` says: keys equal row ids, emails are
    unique, and every row has non-empty text fields and an age in 1..150.
    Every write handler is proved to preserve it.
  - `Index` and `SearchUsers` are methods with loops. They list rows in
    ascending id order.
- `Seed` models the seeding loop as a fold over the four entries. It
  tracks the added and skipped counts.
- `ZapHook` models the report as a tree of sites and alert items, then
  the counting loop, the exit decision and the script's exit status.

The database's id assignment and creation timestamp come from outside the
handlers. They are a parameter `Commit = Assigned(id, createdAt) |
CommitError`. A commit that raises becomes `CommitError` for an insert,
or `committed == false` for an update or delete. In every such case the
rollback leaves the store unchanged.

## Model

| member | source | states |
|---|---|---|
| Text.ParseInt | app.py:91-92 | `int(age)` succeeds exactly on optional padding, an optional sign, one to 4300 ASCII digits, optional padding; otherwise the `ValueError` path. Padding is tab through carriage return, space and the non-ASCII Unicode whitespace, but not the separator controls U+001C-U+001F |
| Text.ParseIntRoundTrip | app.py:92 | the decimal digits of any natural number, written with no sign, `+` or `-`, any number of leading zeros and any padding on both sides, are read back by `int()` as the number or its negation, as long as there are at most 4300 digits |
| Text.ParseIntToString | app.py:92 | `int(str(n)) == n` for every integer with at most 4300 digits |
| Text.FirstToken | scripts/zap-hook.py:25 | `split()[0]` fails exactly on text that is all whitespace in the sense of `str.isspace`, Unicode spaces included; otherwise it yields a maximal non-whitespace run preceded only by whitespace |
| Text.FirstTokenUnique | scripts/zap-hook.py:25 | the first word is unique: any maximal run preceded only by whitespace is the one `split()[0]` returns |
| Text.ContainsIgnoringCaseCorrect | app.py:269-274 | the executable case-folded substring test holds exactly when the query occurs in the field at some offset, ignoring ASCII case |
| Text.LikeContainsIsSubstring | app.py:269-274 | for a query with no `%` or `_`, `ilike('%' + q + '%')` matches exactly when q occurs in the field ignoring case |
| Users.Validate | app.py:86-104 | checks run in order (missing field, non-numeric age, age outside 1..150, email held by another row); each error is returned exactly when the earlier checks pass and its own fails; on success the fields are the form's, age parsed, and the email is free |
| Users.FieldsValidate | app.py:86-104 | any fields meeting the table's constraints, typed into the form with the age in decimal, pass validation unchanged when no other row holds the email |
| Users.InsertRow | app.py:106-129 | the commit either adds exactly one row under the assigned id, leaving every other row unchanged, or fails (raised or duplicate key) and leaves the store unchanged |
| Users.InsertKeepsInvariants | app.py:31-37 | inserting a row whose email no row holds keeps keys matching ids and emails unique, and keeps the full store invariant for valid fields |
| Users.AddUser | app.py:77-129 | a validation failure or a failed commit changes nothing and is reported; on success exactly one new row with the form's values appears under the new id; the store invariant is preserved |
| Users.ViewUser | app.py:145 | `get_or_404` returns the stored row exactly when the id is present, and NotFound otherwise |
| Users.UpdateUser | app.py:169-220 | a missing id is NotFound; validation exempts the user's own row from the duplicate-email check; the update succeeds exactly when the id exists, validation passes and the commit goes through; success replaces the five form fields of that row only, keeping its id and creation time; a failed commit changes nothing; the store invariant is preserved |
| Users.DeleteUser | app.py:237-252 | a missing id is NotFound; the delete succeeds exactly when the id exists and the commit goes through; a committed delete removes exactly that row and returns it; a failed commit changes nothing; the store invariant is preserved |
| Users.Index | app.py:55 | the listing holds every stored row exactly once, and nothing else, in ascending id order |
| Users.MatchesIsHit | app.py:270-275 | the executable search filter holds exactly when the query occurs, ignoring case, in the first name, the last name or the city |
| Users.SearchUsers | app.py:265-278 | an absent or empty query gives no users; otherwise the result is exactly the stored rows whose first name, last name or city contains the query ignoring case, each once, in id order |
| Users.LikeHitWithoutWildcards | app.py:269-274 | for queries without `%` or `_`, the `ilike` filter as written and the substring search agree on every user |
| Users.UnderscoreQueryMatchesAnyone | app.py:269-274 | as written, the query `_` matches every user with a non-empty first name, even though no field contains an underscore |
| Users.SampleAges | app.py:91-92 | `int()` reads "0", "151" and "-3" as numbers and rejects "abc" and " " |
| Users.OutOfRangeAgesAreRangeErrors | app.py:93-95 | with all fields present, ages 0, 151 and -3 give the range error, not the format error |
| Users.FormatErrorsAfterMissingFields | app.py:86-98 | a whitespace-only name counts as present, a non-numeric or blank age is a format error, and an empty field is a missing-field error that takes precedence |
| Users.AddThenView | app.py:106-118 | after a successful add, viewing the new id returns exactly the submitted values with the assigned id and timestamp |
| Users.SecondAddWithSameEmailRejected | tests/basic_test.py:154-176 | a second add with the same email and otherwise valid data is rejected as a duplicate, leaves the store unchanged, and exactly one row holds the email |
| Users.OwnEmailIsNotDuplicate | app.py:194-196 | resubmitting a user's own email on update is never a duplicate |
| Users.UpdateToTakenEmailRejected | app.py:194-198 | updating a user to another row's email is rejected as a duplicate and changes nothing |
| Users.AddTestUserScenario | tests/basic_test.py:95-118 | adding test/user/test@user.com/"18"/Islamabad to an empty store yields exactly that row, with age 18 |
| Users.ReplayKeepsValid | app.py:31-37 | any sequence of add, update and delete requests, with any commit outcomes, preserves the store invariant |
| Seed.SeedStep | scripts/add_user_basic.py:40-71 | an entry whose email is held is skipped and changes nothing; otherwise it is added exactly when the commit succeeds with a fresh id, and a failed commit counts as neither added nor skipped and leaves the tally unchanged |
| Seed.Run | scripts/add_user_basic.py:37-71 | the loop never drops or changes an existing row, never lowers a counter, and added plus skipped never exceeds the number of entries |
| Seed.RunKeepsInvariants | scripts/add_user_basic.py:40-71 | the loop keeps ids matching keys and emails unique, and keeps the full store invariant when every entry meets the field constraints |
| Seed.RunSeed | scripts/add_user_basic.py:37-71 | the loop over any list of entries ends with exactly the tally of the one-entry-at-a-time fold |
| Seed.AddUsers | scripts/add_user_basic.py:15-74 | the script's loop computes the same tally as the fold over the four entries, and keeps every existing row |
| Seed.FailureFreeRun | scripts/add_user_basic.py:40-67 | when every commit succeeds with a fresh id, each entry is added or skipped and afterwards every entry's email is in the table |
| Seed.RunOverStoredEmails | scripts/add_user_basic.py:42-48 | when every entry's email is already present, every entry is skipped and the table is unchanged |
| Seed.SeedTwice | scripts/add_user_basic.py:37-74 | after a run in which no insert fails, every entry was added or skipped, and a second run over the same entries adds nothing, skips them all and leaves the table unchanged |
| Seed.SeedEntriesDistinct | scripts/add_user_basic.py:25-30 | the four seed records satisfy the table's field constraints and have pairwise distinct emails |
| Seed.SeedEntriesValidate | scripts/add_user_basic.py:25-30 | each seed record, submitted as a form whose age is typed in decimal, passes the web form's validation unchanged when its email is free |
| ZapHook.RiskOf | scripts/zap-hook.py:23-25 | an item is ignored exactly when it has no `riskdesc`; it raises exactly when the text is missing or all whitespace; it yields a word exactly when the text has a non-whitespace character, and that word is the text's first word |
| ZapHook.Bump | scripts/zap-hook.py:26-27 | a word that is exactly one of the four bucket names adds one to that bucket only; any other word leaves the counts unchanged |
| ZapHook.CountAlertsCorrect | scripts/zap-hook.py:22-27 | counting a site's items fails exactly when some item raises; otherwise it adds the per-level tally of the items |
| ZapHook.CountSitesCorrect | scripts/zap-hook.py:21-27 | counting all sites fails exactly when some item of some site raises; otherwise it adds the tally of every item of every site |
| ZapHook.TallyTotal | scripts/zap-hook.py:18-27 | the four counts sum to the number of items whose first risk word is a bucket name |
| ZapHook.ParseZapXmlCorrect | scripts/zap-hook.py:12-32 | parsing yields None exactly for a malformed report or an item that raises; otherwise each count is the number of items with that risk word |
| ZapHook.Decide | scripts/zap-hook.py:42-72 | the verdict is parse failure exactly when parsing failed; otherwise High alerts fail, else Medium alerts pass with warnings, else pass |
| ZapHook.Gate | scripts/zap-hook.py:42-72 | the exit status is 0 or 1, and 1 exactly when the report failed to parse or has a High alert |
| ZapHook.GateFailsIff | scripts/zap-hook.py:12-62 | the build fails exactly when the report is malformed, some item's risk text is missing or blank, or some item's risk word is "High" |
| ZapHook.LowAndInformationalIgnored | scripts/zap-hook.py:58-72 | Low and Informational counts never change the verdict |
| ZapHook.DecisionScenarios | scripts/zap-hook.py:58-72 | one High alert fails with status 1; Medium alerts alone pass with warnings and status 0; neither passes with status 0 |

## Left out

- Flask plumbing is not modelled: routing, templates, `flash` messages, redirects, the 404/500 error handlers, and the GET branches that only render a form.
- SQLAlchemy sessions, `create_tables`, `app.run` and the app context are not modelled. A commit is atomic, and its outcome is a parameter (`Commit`, or `committed`).
- Column length limits (`String(50)`, `String(120)`) are not modelled: SQLite does not enforce them.
- The creation timestamp is not modelled as `datetime.utcnow()`. It is an opaque integer supplied with the commit.
- Text.ParseInt: accepts only ASCII digits. It does not model `int()` accepting `_` between digits or non-ASCII decimal digits such as Arabic-Indic ones.
- Text.ParseInt: the 4300-digit limit is CPython's default (`sys.get_int_max_str_digits()`, from 3.11 on); a changed limit or an older interpreter without one is not modelled.
- Text.IsSpace: lists the whitespace of the Unicode database current CPython versions ship; characters added or removed by other Unicode versions are not tracked.
- Text.ContainsIgnoringCase: folds ASCII letters only, as SQLite's `LIKE` does. Unicode case folding is not modelled.
- Users.Validate: models `filter_by(email=...).first()` as "some other row holds the email". Under the unique-email invariant this is the same row, so which row `.first()` picks is not modelled.
- Users.Index: the source's `query.all()` promises no order. The model lists rows by ascending id, which is SQLite's usual rowid order.
- Users.SearchUsers: is the corrected literal-substring search (see Findings). The as-written wildcard behaviour is `Users.LikeHit`.
- Concurrent requests are not modelled, including the race between the duplicate-email check and the commit. Each handler runs atomically on the store.
- ZapHook: XML parsing by defusedxml and the fixed file name are not modelled. A report that fails to parse or open is `Malformed`.
- ZapHook: sites are a flat list, each with its own items. With the descendant search `.//`, a site nested inside another site would count its items twice; that nesting is not modelled.
- Printing is not modelled in either script. `sys.exit` is modelled only as the returned status.
- The test suite's HTTP client and its temporary database are not modelled. Individual test cases appear as scenario lemmas.

## Findings

| source | as written | input that shows it | evidently intended | confidence | as-written member | corrected member |
|---|---|---|---|---|---|---|
| app.py:269-274 | the query is put unescaped inside the `ilike` pattern `%query%`, so `%` and `_` typed by the user act as wildcards | query `_` against a user "Ali Khan" from "Lahore": the pattern `%_%` matches although no field contains an underscore | case-insensitive literal substring search on first name, last name and city | medium; not executed | Users.UnderscoreQueryMatchesAnyone | Users.SearchUsers |
