# City complaint portal — a verified model of the store and its validators

The portal is a small web application where citizens register with their
Aadhar number (India's twelve-digit identity number), log in, file complaints
about civic problems (with optional photos), and look up a complaint's status
by its six-digit complaint number; officers log in, list every complaint
newest first, and mark complaints solved.

This project models the application's logic with the web layer removed:

- `Text` — Python's `str.strip()`, `str.lower()`, decimal digits and
  `f"{n}"` rendering of a number, with their properties (strip yields an infix
  cut only at whitespace, is idempotent, rendering reads back).
- `Validators` — `is_valid_aadhar`, `mask_aadhar`, the ten-digit contact rule,
  priority normalisation, and the shape of a complaint number.
- `Models` — the rows of the four tables (`officers`, `citizens`,
  `complaints`, `complaint_images`), the submitted forms, the outcome of each
  handler (standing for the flash message and its category), and
  `query.filter_by(...).first()`.
- `Lifecycle` — what each handler does to the tables, as functions on
  values, and the table invariants: ids in order, citizen email, Aadhar number
  and contact unique, complaint numbers well formed and unique, every complaint
  owned by a registered Aadhar number, every image owned by a complaint.
- `Portal` — the session (`class Session`) and the database (`class Store`)
  updated in place by the handlers `register`, `login`, `officer_login`,
  `logout`/`officer_logout`, `file_complaint` (with its image loop and the
  retry loop of `_generate_complaint_no`), `solve_complaint`,
  `complaint_status` and `officer_complaints`. The methods that change the
  tables (`Register`, `FileComplaint`, `Lodge`, `SolveComplaint`) keep the store
  invariant `Valid()`, and `SaveImages`, which only appends image rows, keeps
  `ImagesValid`; every method that changes the tables or the session
  states its new state exactly.

Inputs the program takes from the outside world are parameters: the time
(`now`), the successive draws of `random.randint` (`draws`), the bcrypt hash
of a new password (`hashed`), the bcrypt check (`checkPassword`), and the file
name under which each upload is stored (`storedNames`).

The model follows the code as written: `officer_login` does not check for
empty fields; the status lookup matches the
Aadhar number typed into the form, not the logged-in citizen's own; the
officer listing is an inner join on the Aadhar number.

## Model

| member | source | states |
|---|---|---|
| Text.IsSpace | app.py:52 | the characters Python's `str.isspace()` accepts, which `.strip()` removes: the ASCII tab, line feed, vertical tab, form feed, carriage return, the four separators 0x1C-0x1F and space, and the Unicode spaces 0x85, 0xA0, 0x1680, 0x2000-0x200A, 0x2028, 0x2029, 0x202F, 0x205F, 0x3000 |
| Text.Strip | app.py:146-150 | `.strip()`: the result is no longer than the input, has no whitespace at either end, and is empty exactly when the input is all whitespace |
| Text.StripPadded | app.py:52 | stripping whitespace-padded text whose ends are not whitespace returns that text exactly |
| Text.StripIsInfix | app.py:52 | the stripped string is a slice of the input with only whitespace cut away on either side |
| Text.StripIdempotent | app.py:146-150 | stripping a stripped field changes nothing |
| Text.Lower | app.py:150 | `.lower()`: same length, each character lower-cased |
| Text.LowerKeepsSpace | app.py:150 | lower-casing a character keeps it whitespace or non-whitespace |
| Text.LowerIdempotent | app.py:150 | lower-casing twice equals lower-casing once |
| Text.NormalisedIffFixpoint | app.py:150 | a string is a normalised email (no edge whitespace, no capital) exactly when `.strip().lower()` leaves it unchanged |
| Text.StripLowerNormalised | app.py:150 | the email `register` and `login` compute is always normalised |
| Text.DecimalString | app.py:44 | `f"{n}"`: at least one digit, all digits, leading zero only for zero |
| Text.ParseDecimalString | app.py:44 | rendering a number and reading the digits back gives the number |
| Text.DecimalStringInjective | app.py:44 | different draws render as different strings |
| Text.DecimalLength | app.py:44 | a number with k digits renders as exactly k characters |
| Validators.IsValidAadhar | app.py:50-52 | `is_valid_aadhar`: the stripped value (absent read as `""`) is twelve digits; characterised independently by `AadharValidIff` |
| Validators.AadharValidShape | app.py:50-52 | every accepted value is present and is whitespace, twelve digits, whitespace |
| Validators.AadharAcceptsPadded | app.py:50-52 | every whitespace-padded run of exactly twelve digits is accepted |
| Validators.AadharValidIff | app.py:50-52 | `is_valid_aadhar` holds iff the value is present and is whitespace, exactly twelve digits, whitespace; so `None` and `""` are rejected |
| Validators.MaskAadhar | app.py:55-63 | `None` and `""` mask to `""` |
| Validators.MaskStripped | app.py:59-63 | the two branches of `mask_aadhar` after stripping; its properties are `MaskStrippedShape` and `MaskStrippedFormatIff` |
| Validators.MaskStrippedShape | app.py:59-63 | on the stripped value: length 14 for twelve digits, else the value's length; the last `min(4, len)` characters are the value's; everything before them is `X` (fallback) or `XXXX-XXXX-` (display form) |
| Validators.MaskStrippedFormatIff | app.py:60-63 | the display form `XXXX-XXXX-dddd` comes out iff the stripped value is twelve digits |
| Validators.MaskFormatIff | app.py:55-63 | `mask_aadhar` gives the fourteen-character `XXXX-XXXX-dddd` form iff `is_valid_aadhar` holds, and its four digits are the stripped input's last four |
| Validators.MaskFallback | app.py:62-63 | for a present malformed value the mask has the stripped length, `X` before the last four characters, the input's characters in them, and an input of at most four characters comes back unchanged |
| Validators.MaskRevealsOnlyLastFour | app.py:55-63 | whatever the input, the mask shows only the stripped input's last `min(4, len)` characters, preceded only by `X` and `-` |
| Validators.MaskOfTwelveDigits | app.py:59-61 | a bare twelve-digit number masks to `XXXX-XXXX-` and its last four digits |
| Validators.IsValidContact | app.py:158-161 | the inline contact rule: exactly ten decimal digits; used by `CheckRegistration` and `AdmittedCitizenWellFormed` |
| Validators.PriorityName | app.py:114 | the stored priority is one of `Normal`, `Urgent`, `Critical` |
| Validators.NormalizePriority | app.py:289-290 | the name of the result equals the input iff the input is one of the three names; any other input gives `Normal` |
| Validators.PriorityRoundTrip | app.py:285-290 | normalising a priority's name gives that priority, so normalising is idempotent |
| Validators.DrawIsComplaintNo | app.py:44 | every draw in 100000..999999 renders as six digits with a non-zero first digit, and reads back as the draw |
| Models.RegisterOutcome.Category | app.py:153-191 | `register` flashes `success` only on registration and `danger` for every refusal |
| Models.LoginOutcome.Category | app.py:203-215 | `login` flashes `success` with the welcome and `danger` for missing fields or bad credentials |
| Models.FileOutcome.Category | app.py:273-350 | `file_complaint` flashes `warning` when nobody is logged in, `danger` when a mandatory field is empty, `success` with the complaint number when filed |
| Models.SolveOutcome.Category | app.py:389-426 | `solve_complaint` flashes `warning` without an officer, `danger` when the number is unknown, `success` when it marks the complaint solved, `info` when it was already solved |
| Models.StatusOutcome.Category | app.py:433-454 | `complaint_status` flashes `warning` when nobody is logged in, `danger` for a missing field or no match, and no message when it shows the complaint |
| Models.FindFirst | app.py:169 | `query.filter_by(...).first()`: the first matching row's index, or none when no row matches |
| Models.FindFirstUnique | app.py:169 | when exactly one row matches, `first()` returns it |
| Lifecycle.ReadRegistration | app.py:145-151 | the fields `register` reads: name, contact, Aadhar number and address stripped, email stripped and lower-cased, password as sent; `StripLowerNormalised` and `AdmittedCitizenWellFormed` state what this gives |
| Lifecycle.AllFilled | app.py:154 | every field of the read registration is non-empty; part of the admission condition of `CheckRegistration` |
| Lifecycle.CheckRegistration | app.py:145-177 | registration is admitted iff every stripped field and the password are non-empty, the contact is ten digits, the Aadhar number is valid, and no citizen has the email, Aadhar number or contact |
| Lifecycle.CheckRegistrationRefusals | app.py:153-176 | the checks run in order and the first failing one names the refusal: fields missing, then a bad contact, a bad Aadhar number, an email taken, an Aadhar number taken, a contact taken; each refusal holds exactly when every earlier check passed and its own failed |
| Lifecycle.NewCitizen | app.py:180-188 | the row `register` adds from the read fields and the hash; `AdmitFindsRegistrant` states its fields |
| Lifecycle.AdmittedCitizenWellFormed | app.py:146-166 | an admitted row has a ten-digit contact, a twelve-digit Aadhar number and a normalised email |
| Lifecycle.FreshCitizenKeepsCitizensValid | app.py:168-190 | appending a well-formed citizen with three new keys keeps ids in order and the keys unique |
| Lifecycle.RegistrationKeepsCitizensValid | app.py:168-190 | an admitted registration keeps email, Aadhar number and contact unique |
| Lifecycle.ResubmissionRejected | app.py:169-171 | submitting the same registration again is refused with "email already registered" |
| Lifecycle.CitizenKeysIdentify | app.py:66-69 | in a valid table, looking a citizen up by their id, email or Aadhar number finds that citizen's row |
| Lifecycle.AadharsGrow | app.py:180-190 | registering a citizen adds exactly their Aadhar number to the set of owners |
| Lifecycle.ReadFiling | app.py:279-290 | the fields `file_complaint` reads, stripped, with defaults `Normal` and `Just Me`, the priority normalised; `NormalizePriority` states the normalisation |
| Lifecycle.MandatoryFilled | app.py:293 | title, location, category and description are non-empty; the filing guard used by `FileComplaint` |
| Lifecycle.NewComplaint | app.py:298-308 | the row `file_complaint` adds: the read fields, the filer's Aadhar number, status Pending; `FileComplaint` states it is appended exactly |
| Lifecycle.FilingKeepsComplaintsValid | app.py:298-310 | adding a complaint with a fresh, well-formed number, filled mandatory fields and a registered owner keeps complaint numbers unique |
| Lifecycle.ComplaintNosIdentify | app.py:102-104 | in a valid table a complaint number identifies one row |
| Lifecycle.MoreOwnersKeepComplaintsValid | app.py:180-190 | registering citizens never orphans a complaint |
| Lifecycle.NamedIndices | app.py:314-315 | the positions of the uploads with a non-empty filename, each exactly once, in increasing order |
| Lifecycle.NamedPaths | app.py:314-315 | at most one stored name per upload; every upload named gives all names; none named gives none |
| Lifecycle.NamedPathsInOrder | app.py:314-322 | the k-th stored path is the stored name of the k-th upload with a filename, so there is exactly one path per such upload, in upload order |
| Lifecycle.ImageRows | app.py:320-322 | one image row per stored path, consecutive ids, owned by the given complaint; `SaveImages` spells out each row through `NamedIndices` |
| Lifecycle.Admit | app.py:179-190 | the citizens table gains exactly one row, appended, when registration is admitted, and is unchanged otherwise |
| Lifecycle.AdmitFindsRegistrant | app.py:180-188 | the appended row has the next id, the registrant's stripped name, contact, Aadhar number and address, the lower-cased email and the hash, and a lookup by that email (as `login` does, app.py:208) finds it |
| Lifecycle.RegistrationKeepsTablesValid | app.py:145-190 | registration, admitted or refused, keeps the whole database valid |
| Lifecycle.Resolve | app.py:393-403 | unknown number: not found, table unchanged; Pending: that row becomes Solved and nothing else changes; already Solved: table unchanged; status only moves Pending to Solved |
| Lifecycle.ResolveIdempotent | app.py:400-426 | solving a second time changes nothing and reports "already solved" (or "not found" again) |
| Lifecycle.ResolveKeepsComplaintsValid | app.py:400-402 | solving keeps the complaints table valid |
| Lifecycle.LookupStatus | app.py:438-452 | either stripped field empty: rejected; a found complaint is in the table and matches both fields; "not found" means no complaint matches both |
| Lifecycle.LookupByOwner | app.py:445-448 | in a valid table the lookup with a complaint's own number and owner finds that complaint |
| Lifecycle.Joined | app.py:379 | the join keeps exactly the complaints whose owner is registered, and drops nothing when every owner is |
| Lifecycle.ConsNewestFirst | app.py:380 | a complaint no older than the head of a newest-first list keeps the list newest first when put in front |
| Lifecycle.InsertNewestFirst | app.py:380 | inserting into a newest-first list keeps it newest first and adds exactly the one complaint |
| Lifecycle.SortNewestFirst | app.py:380 | the sorted list is newest first and a permutation of its input |
| Lifecycle.Listing | app.py:365-381 | the officer listing is newest first, a permutation of the joined rows, and contains exactly the complaints with a registered owner |
| Lifecycle.ListingShowsEveryComplaint | app.py:379 | in a valid database the listing is a permutation of all complaints |
| Portal.Session.HasOfficer | app.py:258 | `"officer_id" in session`, the guard of the officer pages (also app.py:360 and app.py:389); `OfficerComplaints` and `SolveComplaint` state their behaviour in terms of it |
| Portal.Session.Clear | app.py:229-233 | `session.clear()` (also the whole of `officer_logout`, app.py:264-268) leaves no citizen and no officer logged in |
| Portal.Store.constructor | app.py:77-132 | an empty database holding only the given officers is valid |
| Portal.Store.CurrentCitizen | app.py:66-69 | a found citizen is in the table and has the session's id; none when the session has no id, id 0, or an id no row has |
| Portal.Store.GenerateComplaintNo | app.py:41-47 | returns the first draw whose rendering no complaint carries; it is a six-digit number with non-zero first digit |
| Portal.Store.Register | app.py:142-192 | the outcome is `CheckRegistration`'s, the citizens table becomes `Admit`'s (whose new row `AdmitFindsRegistrant` describes), and the database stays valid |
| Portal.Store.Login | app.py:198-216 | empty field or bad credentials: session unchanged; success: the session holds the citizen's id, name and Aadhar number, officer keys untouched, and the current citizen is that citizen |
| Portal.Store.OfficerLogin | app.py:237-251 | bad credentials: session unchanged; success: the session holds the officer's id and name, citizen keys untouched |
| Portal.Store.FileComplaint | app.py:271-351 | not logged in or a mandatory field empty: nothing changes; otherwise exactly one Pending complaint owned by the logged-in citizen, with a fresh well-formed number taken from the draws, then one image row per named upload; the database stays valid; a free draw is needed only on that path |
| Portal.Store.Lodge | app.py:297-323 | the committing half of filing: a fresh number taken from the draws, one new row, its image rows, database still valid |
| Portal.Store.SaveImages | app.py:313-322 | the image loop appends exactly one row per upload with a filename, in upload order, with consecutive ids, the upload's stored name, owned by the new complaint |
| Portal.Store.SolveComplaint | app.py:386-428 | without an officer: nothing changes; with one: outcome and table are `Resolve`'s, and the database stays valid |
| Portal.Store.ComplaintStatus | app.py:430-456 | requires a logged-in citizen, then answers as `LookupStatus` (empty field rejected, "not found" only when no complaint matches both fields); a found complaint is in the table and matches the submitted number and Aadhar number |
| Portal.Store.OfficerComplaints | app.py:358-383 | only for an officer; the rows are newest first and exactly the complaints with a registered owner |
| Portal.Store.OfficersSeeEveryComplaint | app.py:379-380 | in a valid database the officer sees every complaint exactly once |
| Portal.Store.OwnComplaintIsFound | app.py:445-448 | a logged-in citizen who submits a complaint's number and its owner's Aadhar number is shown that complaint |

## Left out

- Flask routing, templates, redirects, and the text of flash messages; each handler's outcome stands for its message, with the category as `Category()` (none for a found complaint, which is shown without a message).
- Mail sending after filing and after solving (app.py:326-348, app.py:406-424): a best-effort side effect after the commit that never changes stored state. When sending fails the program adds a `warning` flash next to the `success` one; `FileOutcome.Category` and `SolveOutcome.Category` give only the `success` category.
- bcrypt: hashing is the caller-supplied `hashed` string, checking is the `checkPassword` parameter.
- File I/O for uploads, `secure_filename` and `uuid4` naming: the stored name of each upload is supplied in `storedNames`; only uploads with a non-empty filename count.
- `random.randint` and `datetime.utcnow`: supplied as `draws` and `now`.
- Portal.Store.GenerateComplaintNo: the program retries forever; the model requires that some supplied draw is free, which is the loop's termination assumption.
- Configuration, environment loading and mail credentials (app.py:14-37), the `home`, dashboard and GET-form pages, and the debugging `print` in `solve_complaint`.
- Text.Lower: `.lower()` is modelled for the ASCII letters only; non-ASCII capitals are left as they are.
- Validators.IsValidAadhar, Validators.IsValidContact, Validators.MaskAadhar: Python's `\d` and `str.isdigit()` also accept non-ASCII digits, and not the same ones (`\d` takes decimal digits only, `isdigit()` also superscripts such as `²`); the model accepts only `0`–`9` in all three places. So Validators.MaskFormatIff holds in this ASCII model only: in the program, twelve `²` characters are masked to the display form although `is_valid_aadhar` rejects them.
- Models.FindFirst: rows are kept in insertion order; the database's own order for `first()` without `order_by` is taken to be that order.
- Lifecycle.SortNewestFirst: the order among complaints with the same `date_created` is unspecified in SQL; the model fixes one and proves only newest-first and permutation.
- Lifecycle.Joined: a SQL join would repeat a complaint once per citizen with its Aadhar number; because Aadhar numbers are unique, each complaint joins at most once, which is what the model states.
- Lifecycle.Listing, Portal.Store.OfficerComplaints: the query selects eleven columns (no `id`, no `citizen_aadhar`); the model returns whole complaint rows rather than that projection.
- Requests are modelled one at a time; the program serves them on threads, and transactions are not modelled. Two concurrent registrations or filings can both pass the handler's checks. For email, Aadhar number and complaint number the database's `unique` constraint then rejects the second commit with an error the handler does not catch. `contact` has no `unique` constraint (app.py:92), so two concurrent registrations can store the same contact, which `CitizensValid` does not allow; the model does not capture that state.
