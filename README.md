# Giveaway site: a verified model of its core

The application is a small Flask site. Visitors see the open giveaways and the
recently ended ones, and enter a giveaway with name, email and phone. An admin
logs in to add, edit and delete giveaways, with an optional picture, and to
read and delete entries. This project models the site's business core in
Dafny, with the database replaced by in-memory maps, and proves what the
routes, forms and models promise.

Files, one module each:

- `wrappers.dfy` (`Wrappers`): `Option`.
- `sets.dfy` (`Sets`): picking an element of a non-empty set, subset cardinality.
- `helpers.dfy` (`Helpers`): `allowed_file` as string manipulation (the text after the last dot, lower-cased, looked up in the allowed set), the `admin_required` guard as a total function, `format_datetime`.
- `models.py` → `models.dfy` (`Models`):
  - the `Admin`, `Giveaway` and `Entry` records and their column widths;
  - `is_active`, `entry_count` and `image_url`;
  - the relations the store keeps: usernames unique, every entry referencing a giveaway, one entry per email per giveaway;
  - the delete cascade.
- `forms.py` → `forms.dfy` (`Forms`): each form as a function from the submitted values to the list of field-scoped errors, each proved to agree with a validity predicate. It also holds `validate_end_date` as written and as corrected (see Findings), and `is_edit`.
- `listings.dfy` (`Listings`): the read-only routes (home page, dashboard, entry list). Each is a filter followed by ORDER BY, built on a sort proved sorted, duplicate-free and complete.
- `app.dfy` (`App`):
  - a `Session` class holding the two session keys;
  - a `Store` class holding the three tables, the set of stored upload names and the id counters;
  - one method per state-changing route, plus the start-up bootstrap;
  - every method keeps the store invariant `Store.Valid`;
  - `EntryLifecycle` runs one visitor and admin session end to end.

Modelling conventions:

- Time is an integer clock reading, passed in. Each `datetime.now()` call is its own parameter: the two listing queries of a page get two readings.
- Every handler is modelled on a submitted request. Its outcome is a `Response` value:
  - a redirect (`EntryCreated`, `GiveawaySaved`, …);
  - `NotFound` for a 404;
  - `Invalid(errors)` when the form is shown again;
  - `Closed` or `Duplicate` for the two refusals flashed on the giveaway page;
  - `Unauthorized(next)` for the guard's redirect to login.
- The calls into libraries whose code is not part of this model become parameters:
  - the Email() syntax verdict is the boolean `emailOk`;
  - check_password_hash is `checkPassword`;
  - `uuid4().hex` and `secure_filename` are `uuidHex` and `secureName`;
  - strftime is `strftime`.
- A date field is `None` when it was left empty or could not be parsed.
- SQL leaves the order of rows with equal sort keys open. The model breaks such ties by ascending id.

## Model

| member | source | states |
|---|---|---|
| Helpers.Extension | helpers.py:16-17 | The part after the last '.': absent exactly when the name has no dot; otherwise a dot-free suffix that directly follows a dot. |
| Helpers.ExtensionOfJoin | helpers.py:17 | Splitting `stem + "." + ext` at the last dot gives back `ext` whenever `ext` has no dot (split inverts join). |
| Helpers.AllowedFile | helpers.py:14-17 | allowed_file: the name has a dot and its last suffix, lower-cased, is in the allowed set; an accepted name therefore has a dot and at least four characters. |
| Helpers.AllowedFileIff | helpers.py:14-17 | allowed_file holds if and only if some dot in the name is followed by a dot-free suffix whose lower-case form is png, jpg, jpeg or gif. |
| Helpers.AllowedFileNeedsSuffix | helpers.py:16-17 | A name without a dot is refused, and so is a name ending in a dot (empty extension). |
| Helpers.UpperCaseSuffixAccepted | helpers.py:17 | The check ignores case: "PHOTO.PNG" is accepted. |
| Helpers.InnerSuffixIgnored | helpers.py:17 | Only the last suffix counts: "a.png.exe" is refused. |
| Helpers.LastSuffixDecides | helpers.py:17 | Only the last suffix counts: "a.exe.png" is accepted. |
| Helpers.CheckAdmin | helpers.py:8-11 | The guard lets the request through if and only if the session is logged in; otherwise it redirects with `next` equal to the requested URL. |
| Helpers.AdminRequired | helpers.py:4-12 | Not logged in: the handler is not run and the result is the login redirect carrying the requested URL. Logged in: the result is exactly the handler's result on the same arguments. |
| Helpers.FormatDatetime | helpers.py:19-23 | A missing value formats as ""; a present one as whatever strftime renders. |
| Models.IsActive | models.py:23-27 | is_active: start ≤ now ≤ end; an active giveaway never ends before it starts. |
| Models.IsActiveWindow | models.py:23-27 | is_active is a closed window: true at the start and at the end, false before the start and after the end, and true at every time between two active moments. |
| Models.EntryCount | models.py:29-32 | The count is at most the number of entries, and it is zero exactly when no entry references the giveaway. |
| Models.EntryCountIsDistinctEmails | models.py:29-32 | While emails are unique per giveaway, entry_count equals the number of distinct emails that entered. |
| Models.ImageUrl | models.py:34-39 | Never empty. It is the default picture exactly when no image name is stored; otherwise it is "/static/uploads/" followed by the stored name. |
| Models.EmailEntered | app.py:101-104 | The duplicate lookup finds a row exactly when the email, compared exactly, is among the emails that entered that giveaway. |
| Models.Cascade | models.py:21 | Deleting a giveaway's entries keeps exactly the entries of other giveaways, unchanged. |
| Models.CascadeKeepsInvariants | app.py:247-251 | After the cascade and the giveaway's removal, every entry still references a giveaway and emails stay unique per giveaway. |
| Models.CascadeEntryCount | app.py:247-251 | After the cascade the deleted giveaway has zero entries and every other giveaway keeps its entry count. |
| Models.InsertEntryCount | app.py:111-117 | Adding one entry raises its giveaway's count by one and leaves every other count unchanged. |
| Models.RemoveEntryCount | app.py:267-271 | Removing one entry lowers its giveaway's count by one and leaves every other count unchanged. |
| Models.InsertKeepsEmailsUnique | app.py:101-117 | Inserting an entry whose (giveaway, email) pair is not yet present keeps the pair unique. |
| Forms.TextErrors | forms.py:9-11 | One text field's validator chain: no error exactly when the field meets its required/length rule. A blank required field gets only the "required" message. Every message names the field. |
| Forms.EmailErrors | forms.py:10 | The email field reports nothing exactly when it is non-blank, passes the syntax check and is at most 100 long. |
| Forms.EntryErrors | forms.py:7-12 | No errors exactly when name is 2..100, email is valid and at most 100, and phone is at most 20. Each field is flagged if and only if it breaks its own rule. |
| Forms.LoginErrors | forms.py:14-18 | No errors exactly when the username is 3..64 and the password non-blank. Each field is flagged if and only if it breaks its own rule. |
| Forms.ImageErrors | forms.py:25-27 | FileAllowed: a missing file passes; a chosen one must end in '.' plus jpg, jpeg, png or gif, ignoring case. |
| Forms.ImageNameAllowedIffAllowedFile | forms.py:25-27 | The form's FileAllowed rule and the route's allowed_file accept exactly the same file names. |
| Forms.IsEdit | forms.py:42-45 | is_edit holds exactly when the form is bound to an existing giveaway. |
| Forms.EndDateCheckAsWritten | forms.py:34-40 | validate_end_date as written raises exactly when the start date is missing; otherwise it agrees with the corrected validator. |
| Forms.EndDateErrors | forms.py:34-40 | An end not after the start is always rejected. With a valid order, an end in the past is rejected when creating and accepted when editing. |
| Forms.DateErrors | forms.py:28-40 | The date fields report nothing exactly when both dates are given, the end is after the start, and, when creating, the end is not in the past. The start field is flagged exactly when the start is missing. The end field is flagged exactly when the end is missing or validate_end_date (corrected) objects. |
| Forms.GiveawayErrors | forms.py:20-40 | No errors exactly when the submission is a valid giveaway: title 5..100, description at least 10, prize 3..200, allowed image, both dates present, end after start, and end not in the past unless editing. Each text and image field is flagged if and only if it breaks its own rule. A missing start date is reported on the start field, for every input. The end field is flagged exactly when the end is missing or validate_end_date (corrected) objects. |
| Forms.GiveawayErrorsAsWritten | forms.py:20-40 | The form as written raises exactly when an end date arrives without a start date; otherwise it reports what the corrected form reports. |
| Forms.MissingStartCrashesAsWritten | forms.py:36 | A giveaway with a good title, description, prize and end date but no start date makes the form as written raise. The corrected form reports just the missing start date. |
| Forms.EditWaivesOnlyPastEnd | forms.py:34-45 | Whatever creation accepts, editing accepts. Editing accepts more only by letting an end date lie in the past. An end not after the start is rejected either way. |
| Forms.ValidFormsFitColumns | forms.py:7-24 | An accepted entry fits name ≤ 100, email ≤ 100, phone ≤ 20, and an accepted giveaway fits title ≤ 100, prize ≤ 200: the form bounds imply the column widths. |
| Listings.SortByKey | app.py:85-86 | ORDER BY key, id: every id of the set exactly once, strictly increasing in (key, id). |
| Listings.ActiveGiveaways | app.py:85 | The listed ids are exactly the giveaways whose end is not before `now`, without repeats, in ascending end order. |
| Listings.PastGiveaways | app.py:86 | At most `limit` ids, all of giveaways that have ended, without repeats, in descending end order. A past giveaway is left out only when the cap is reached, and then it ended no later than every listed one. |
| Listings.Cap | app.py:86 | `.limit(n)` keeps the first n rows, or all rows when there are fewer. |
| Listings.OmittedEndedEarlier | app.py:86 | Every past giveaway the cap cuts off ended no later than every one it keeps. |
| Listings.IndexPage | app.py:83-87 | The home page lists every giveaway open at the first clock reading and at most five of those ended at the second, most recently ended first. |
| Listings.DashboardPage | app.py:157-162 | Behind the guard: the login redirect, or every giveaway open at the first clock reading and every one ended at the second, uncapped. |
| Listings.ListingsPartition | app.py:160-161 | Every listed id is a giveaway. A giveaway is in both lists exactly when it ended between the two clock readings. If the clock did not go back it is in at least one, and with equal readings in exactly one. |
| Listings.ActiveListingVersusIsActive | models.py:23-27 | An is_active giveaway is listed as open. A giveaway that has not started yet but ends later is listed as open too, though not is_active. |
| Listings.GiveawayEntries | app.py:257-262 | Not found for an unknown giveaway. Otherwise exactly that giveaway's entries, entry_count many, newest first, without repeats. |
| Listings.EntriesPage | app.py:257-262 | Behind the guard: the login redirect or the giveaway's entry list. |
| App.CredentialsMatch | app.py:139-140 | Some admin has the username and the password check accepts its hash; a match implies an admin with that username exists. |
| App.CredentialsDecidedByLookup | app.py:139-140 | With unique usernames, checking only the one admin found by name (`filter_by(...).first()`) decides the same as searching all admins. |
| App.NewImage | app.py:172-174 | The route stores an upload: a file was chosen and allowed_file accepts its name, so the name has a dot and at least four characters. |
| App.UploadName | app.py:176-177 | The stored name is the uuid hex, an underscore and the secured name; both parts are recovered by splitting at the underscore's position. |
| App.Consistent | models.py:6-46 | The store invariant: ids below their counters, the column widths, end after start, unique usernames, every entry referencing a giveaway, and one entry per email per giveaway. |
| App.ConsistentHasNoOrphans | models.py:43 | Under the invariant, a key that is not a giveaway has no entries. |
| App.Store.Valid | models.py:5-47 | The invariant over the store's fields; each id counter names an unused key, so autoincrement always yields a fresh id. |
| App.Session.constructor | app.py:134 | A new session has neither key: not logged in and no admin id. |
| App.ValidFormStoresChosenFile | app.py:172-174 | For an accepted form, the route's allowed_file test passes exactly when a file was chosen, so a chosen picture is always stored. |
| App.Session.Logout | app.py:150-155 | Both session keys are cleared whatever the state was. |
| App.Store.constructor | app.py:61-63 | The empty database satisfies the store invariant. |
| App.Store.Bootstrap | app.py:64-80 | Afterwards no admin is named "admin" and one admin is named "yameenking99" (exactly one, by username uniqueness). Other admins are kept. A new admin carries the given hash. A second run changes nothing. |
| App.Store.Login | app.py:132-148 | An existing session is left alone. An invalid form reports its errors. A valid form logs in if and only if some admin has that username and the password check accepts its hash; otherwise the answer is BadCredentials ("Invalid username or password"). Success sets both keys to that admin; anything else leaves the session unchanged. |
| App.Store.SubmitEntry | app.py:89-123 | Checks in order: unknown giveaway, then invalid form, then `end < now` (closed), then the same email already entered (duplicate, exact comparison). Only when all pass is exactly one entry added, carrying the form's fields, under a fresh id; its giveaway's count rises by one. Otherwise entries are unchanged. Giveaways and admins never change, and the store invariant is kept. |
| App.Store.AddGiveaway | app.py:164-197 | Guard first. An invalid form changes nothing. Otherwise a new giveaway carries the form's fields. Its image is the fresh upload name exactly when a chosen file passes allowed_file, and only then is a file stored. Validation uses the corrected form: an end date without a start date gives `Invalid` here, where the form as written raises (see Findings); the store is unchanged either way. |
| App.Store.EditGiveaway | app.py:199-234 | Guard, then not found, then an invalid form changes nothing. Otherwise title, description, prize and both dates are overwritten. The image and the old file are replaced only when a chosen file passes allowed_file; otherwise the image is kept. Validation uses the corrected form: an end date without a start date gives `Invalid` here, where the form as written raises (see Findings); the store is unchanged either way. |
| App.Store.DeleteGiveaway | app.py:236-255 | Guard, then not found. Otherwise the giveaway, its picture and all its entries are removed, its count becomes zero, every other giveaway keeps its entries and count, and the invariant is kept. |
| App.Store.DeleteEntry | app.py:264-274 | Guard, then not found with nothing changed. Otherwise exactly that entry is removed and its giveaway's count drops by one. |
| App.EntryLifecycle | app.py:89-123 | From an empty database: log in, add a giveaway, enter it with one email (created), enter again (duplicate), count one, delete it (count zero, in neither the open nor the ended list), log out; an admin route then redirects to login. |

## Left out

- The GET side of every route (rendering a fresh form), `flash` messages, templates, `redirect`/`url_for` strings and `g.now`. A handler's outcome is the `Response` value.
- entry_confirmation (app.py:125-130): a read-only page that only looks two records up.
- SQLAlchemy, engine options, the DATABASE_URL rewrite, logging and the 16 MiB upload cap: configuration and framework behaviour. Tables are maps and `create_all` is the `Store` constructor.
- The file system: saving, existence checks and removal become changes to the set `Store.uploads` of stored names. A failing save or removal is not modelled.
- CSRF: `validate_on_submit` also refuses a POST without a valid CSRF token. ValidEntry, ValidLogin and ValidGiveaway leave that check out; the token is framework data.
- AddGiveaway: validates with the corrected form. For an end date without a start date, the route as written raises inside `validate_on_submit` (app.py:169, and app.py:205 for EditGiveaway); the model answers `Invalid` with the start field flagged. Nothing is stored in either case.
- Concurrency: two simultaneous submits with one email could both pass the duplicate check; the model is sequential.
- Library code: password hashing, the Email() syntax check, uuid4, secure_filename, date parsing and strftime enter as parameters, so their own behaviour is not modelled.
- Time zones: is_active reads `utcnow` (models.py:26) while the listings and the form read the local `now` (app.py:85, forms.py:39). All clock readings of the model are on one time scale, so it does not show the offset between them.
- Record timestamps (`created_at`) are taken as the `now` of the request that creates the record.
- The String(255) image column and the String(256) hash column are not bounded, because the stored name comes from library code.
- Lower: lower-cases ASCII letters only, not the full Unicode mapping of Python's `str.lower`.
- HasData: counts as blank the ASCII characters `str.strip` removes (9 to 13, 28 to 31 and space), but not the non-ASCII Unicode spaces such as U+0085 or U+00A0.
- IsEdit: takes the bound object as given. Whether the form library really records the object under `_obj` is library behaviour that is not part of this model. If it does not, is_edit is always false and an edit whose end date has passed would be refused.
- EditGiveaway: follows the route's evident intent when no new file is chosen. When the edit form is built from the stored giveaway, the image field may start out holding the stored name (a string). The route would then read `.filename` from that string. That prefill is library behaviour and is not part of this model.

## Findings

| source | as written | input that shows it | evidently intended | confidence | as-written member | corrected member |
|---|---|---|---|---|---|---|
| forms.py:36 | validate_end_date compares the end date with `start_date.data`, which is None when the start date is empty or unparseable; comparing a datetime with None raises TypeError, so the request fails instead of reporting the form error | title "Summer raffle", description "Win a brand-new bicycle", prize "Bicycle", no start date, end date `now + 10` | skip the ordering check when there is no start date, and let the start field report that it is required | not executed | Forms.MissingStartCrashesAsWritten | Forms.GiveawayErrors |
