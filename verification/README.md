# Inanis Garage dashboard and table mutations, in Dafny

Inanis Garage is a small fleet back office written as a single Flask
application. Every page view of its home route, `index`, recomputes one
dashboard from the in-memory tables:

- who holds each vehicle today. The first assignment in list order whose
  vehicle matches and whose `start_date <= today <= end_date` names the
  driver; otherwise the vehicle is "Available". The dates are compared as
  text.
- how many vehicles are available and how many are assigned;
- which documents expire soon. This means every document with a non-empty
  expiry between 7 days past and 30 days ahead, in vehicle order and then
  document order, cut to the first five.

The admin forms change the tables:

- `add_vehicle` files a vehicle under its stripped, upper-cased
  registration number, unless that key is taken.
- `add_user` adds an account, unless the name is taken.
- `upload_document` appends a record to a vehicle's document list, unless
  the file or the type is missing.
- `load_data` seeds a single `admin` account when the user table is empty.

This project models that core as pure functions over immutable values and
proves properties of it.

- `wrappers.dfy` (`Wrappers`): `Option`.
- `text.dfy` (`Text`): Python's string `<=` (`LexLe`, shown to be a total
  order), `str.strip` and ASCII `str.upper`.
- `isodate.dfy` (`IsoDate`): calendar dates, and the day number of
  Python's `date.toordinal`, which gives the `.days` of a date difference.
  It also defines the `YYYY-MM-DD` text of `strftime` (`Format`) and
  `strptime` restricted to that text (`Parse`). The central theorem is that
  comparing two such texts as strings orders them as the calendar does.
- `fleet.dfy` (`Fleet`): the records and the store. The vehicle table is a
  map plus the key sequence in insertion order, because that order decides
  which five alerts survive.
- `dashboard.dfy` (`Dashboard`): the `index` computation.
  - It has a functional definition: `Occupant`, `Resolve`, `DocAlerts`,
    `Alerts` and `Index`.
  - It has a loop-by-loop rendering of the route as written: `FindOccupant`,
    `CheckDocument`, `CollectAlerts`, `VisitVehicle` and `RenderIndex`.
  - The rendering is proved to compute `Index`, and to fail exactly when a
    listed vehicle has an expiry that is not the canonical `YYYY-MM-DD`
    text of a date.
  - `Index` and `RenderIndex` describe the program on stores that are
    `Ordered`: every key listed once, and a key is listed exactly when a
    vehicle is stored under it. `AddVehicleKeepsOrder` shows that adding a
    vehicle keeps a store ordered; the other handlers leave both tables alone.
- `handlers.dfy` (`Handlers`): the four table mutations as transitions from
  one store to a `Step` (new store and outcome).
- `scenarios.dfy` (`Scenarios`): worked cases.
  - The window edges 30/31 and -7/-8, on any day.
  - Day counts across a leap day, a year end and the non-leap 1900.
  - The first of two overlapping assignments wins.
  - Seven alerting vehicles show five alerts.

Inputs that come from outside the modelled code are parameters:

- the current date (`today`, a valid `Date`);
- the creation timestamp (`now`, opaque text);
- the password hash;
- the URLs of saved files and the Drive link;
- the persisted snapshot that `load_data` may have read.

The model keeps three behaviours of the code that a reader might not
expect:

- A truthy expiry that `strptime` cannot read makes `index` raise. It is not
  skipped. `RenderIndex` returns `None` in exactly that case.
- `index` shows no status buckets (expired / expiring soon / due soon). An
  alert carries only the vehicle, the document type and the day count.
- The alerts are not sorted by urgency. The first five in iteration order
  are kept.

## Model

| member | source | states |
|---|---|---|
| Text.Strip | inanis-garage-complete-20250823/app.py:204 | `s.strip()` is the infix of `s` from its first non-space character, neither starting nor ending with whitespace, with only whitespace cut off either side; it is empty only for an all-whitespace input |
| Text.Upper | inanis-garage-complete-20250823/app.py:204 | `s.upper()` keeps the length and maps each character by itself (ASCII letters to capitals) |
| Text.LexLeTotal | inanis-garage-complete-20250823/app.py:172 | Python string `<=` relates any two strings one way or the other; with `LexLeTransitive` and `LexLeAntisymmetric` it is a total order |
| IsoDate.OrdinalOrder | inanis-garage-complete-20250823/app.py:178 | the day number of a valid date is strictly increasing in (year, month, day): equal day numbers mean equal dates and `<=` on day numbers is calendar order |
| IsoDate.Format | inanis-garage-complete-20250823/app.py:166 | `strftime('%Y-%m-%d')` of a valid date is ten characters: four, two and two digits separated by hyphens |
| IsoDate.Parse | inanis-garage-complete-20250823/app.py:178 | `strptime('%Y-%m-%d')` accepts only hyphen-separated digit text naming a real calendar date, and raises (here `None`) on anything else |
| IsoDate.DaysBetween | inanis-garage-complete-20250823/app.py:178 | the day difference `(exp - now).days` is zero exactly for the same date and negative exactly when the first date is earlier |
| IsoDate.ParseFormat | inanis-garage-complete-20250823/app.py:166 | reading back the `%Y-%m-%d` text of a valid date gives that date |
| IsoDate.FormatParse | inanis-garage-complete-20250823/app.py:178 | a string `strptime('%Y-%m-%d')` accepts in canonical form is the text of exactly one date |
| IsoDate.LexLeIsChronological | inanis-garage-complete-20250823/app.py:166-172 | comparing the `YYYY-MM-DD` texts of two dates as strings gives the same answer as comparing their day numbers |
| IsoDate.LexLeOfWellFormed | inanis-garage-complete-20250823/app.py:172 | for two well-formed date strings, string `<=` is date `<=` |
| Dashboard.Covers | inanis-garage-complete-20250823/app.py:172 | an assignment covers a vehicle on a day only when it names that vehicle and its start is not after its end as strings |
| Dashboard.Occupant | inanis-garage-complete-20250823/app.py:170-173 | a vehicle no assignment covers today is "Available"; otherwise it shows the driver of the first covering assignment in list order (the `break`) |
| Dashboard.FirstCoverExists | inanis-garage-complete-20250823/app.py:171-173 | if any assignment covers the vehicle today, a first one in list order does |
| Dashboard.AvailableIffUncovered | inanis-garage-complete-20250823/app.py:170-174 | when no driver is named "Available", a vehicle shows "Available" exactly when no assignment covers it today |
| Dashboard.CoversChronological | inanis-garage-complete-20250823/app.py:172 | for well-formed dates the text test `start <= today <= end` is the calendar test, both end days included |
| Dashboard.InvertedRangeNeverCovers | inanis-garage-complete-20250823/app.py:172 | an assignment whose end precedes its start (not rejected anywhere) covers no day |
| Dashboard.OutOfRangeIsAvailable | inanis-garage-complete-20250823/app.py:169-174 | a vehicle whose assignments all end before today or start after it is "Available" |
| Dashboard.Resolve | inanis-garage-complete-20250823/app.py:169-175 | the status table has a key for exactly the listed vehicles, each mapped to its occupant, and `avail + assign` is the number of vehicles visited |
| Dashboard.FreeVehiclesAdd | inanis-garage-complete-20250823/app.py:174-175 | adding one new vehicle to the status table adds it to the free set exactly when its status is "Available" |
| Dashboard.CountersCountStatus | inanis-garage-complete-20250823/app.py:174-175 | over distinct vehicle keys, `avail` is the number of vehicles shown "Available" and `assign` the number of the rest |
| Dashboard.DocAlerts | inanis-garage-complete-20250823/app.py:176-179 | one vehicle's alerts are at most one per document, each naming that vehicle with a day count in `[-7, 30]` |
| Dashboard.DocAlertsAppend | inanis-garage-complete-20250823/app.py:176-179 | the alerts of a concatenated document list are the alerts of the first part followed by those of the second |
| Dashboard.DocumentContributes | inanis-garage-complete-20250823/app.py:177-179 | document `k` contributes exactly one alert at its own position when its expiry is present and `-7 <= days <= 30`, and nothing otherwise |
| Dashboard.Alerts | inanis-garage-complete-20250823/app.py:169-179 | every collected alert names a listed vehicle and has a day count in the window |
| Dashboard.AlertsAppend | inanis-garage-complete-20250823/app.py:169-179 | the alerts of a concatenated vehicle list are those of the first part followed by those of the second: vehicle order first, then document order |
| Dashboard.AlertsIgnoreUnlisted | inanis-garage-complete-20250823/app.py:169-176 | documents filed under a key that is not a listed vehicle never reach the panel |
| Dashboard.Index | inanis-garage-complete-20250823/app.py:165-182 | the dashboard has one status per listed vehicle, counters adding up to the vehicle count, and an alert panel of length `min(5, all alerts)` that is a prefix of all alerts |
| Dashboard.IndexOfOrderedStore | inanis-garage-complete-20250823/app.py:169-175 | on a store listing each vehicle once, the status keys are the vehicle keys, the counters add up to the table size, and `avail` counts the free vehicles |
| Dashboard.FindOccupant | inanis-garage-complete-20250823/app.py:170-173 | the assignment loop with its `break` returns the occupant |
| Dashboard.CheckDocument | inanis-garage-complete-20250823/app.py:177-179 | the body of the document loop fails exactly on a truthy expiry that is not the canonical `YYYY-MM-DD` text of a date, and otherwise yields that document's alert when it is in the window and nothing when it is not |
| Dashboard.DocAlertsStep | inanis-garage-complete-20250823/app.py:176-179 | scanning one more document appends its alert, if it is alerting, to those of the documents before it |
| Dashboard.CollectAlerts | inanis-garage-complete-20250823/app.py:176-179 | the document loop of one vehicle fails exactly when one of its documents has an unreadable expiry, and otherwise appends that vehicle's alerts in document order |
| Dashboard.ResolveStep | inanis-garage-complete-20250823/app.py:169-175 | resolving one more vehicle adds its status and bumps exactly the matching counter |
| Dashboard.AlertsStep | inanis-garage-complete-20250823/app.py:169-179 | scanning one more vehicle appends its document alerts to those of the vehicles before it |
| Dashboard.ProgressStep | inanis-garage-complete-20250823/app.py:169-179 | one pass of the vehicle loop keeps the loop state equal to the dashboard of the vehicles visited so far |
| Dashboard.ProgressDone | inanis-garage-complete-20250823/app.py:180-182 | after the last vehicle, the loop state cut with `expiring[:5]` is the dashboard |
| Dashboard.VisitVehicle | inanis-garage-complete-20250823/app.py:169-179 | one vehicle's pass fails exactly when that vehicle has an unreadable document, and otherwise extends the loop state by that vehicle |
| Dashboard.RenderIndex | inanis-garage-complete-20250823/app.py:165-182 | the route as written raises exactly when a listed vehicle has a truthy expiry that is not the canonical `YYYY-MM-DD` text of a date, and otherwise renders the functional dashboard `Index` |
| Handlers.VehicleKey | inanis-garage-complete-20250823/app.py:204 | the normalised registration number is no longer than the input, has no surrounding whitespace and no lower-case ASCII letter |
| Handlers.VehicleKeyIdempotent | inanis-garage-complete-20250823/app.py:204-205 | normalising a normalised key changes nothing, so a stored key is its own normal form |
| Handlers.AddVehicle | inanis-garage-complete-20250823/app.py:203-220 | a taken key is refused with "Exists" and nothing changes; a failed `int`/`float` changes nothing; otherwise exactly one vehicle is added under the key, last in order, with `reg_no` equal to the key, stripped fields, the fixed garage name, and every other table and vehicle unchanged |
| Handlers.AddVehicleKeepsOrder | inanis-garage-complete-20250823/app.py:216-220 | adding a vehicle keeps the order listing every vehicle exactly once and grows the table by one exactly when it saves |
| Handlers.AddUser | inanis-garage-complete-20250823/app.py:273-277 | a taken username is refused and nothing changes; otherwise exactly one account is added with the given role and hash, existing accounts and other tables unchanged |
| Handlers.UploadDocument | inanis-garage-complete-20250823/app.py:246-258 | without a file (or with an empty file name) or without a type nothing changes; otherwise one record is appended at the end of `documents[car_id]`, created if absent, and no other list changes |
| Handlers.UploadKeepsDashboardReadable | inanis-garage-complete-20250823/app.py:255-257 | after an upload every later dashboard can read all listed documents exactly when the new expiry is missing, empty or the canonical `YYYY-MM-DD` text of a date, or the upload went to an unlisted key |
| Handlers.UploadToUnlistedKeepsAlerts | inanis-garage-complete-20250823/app.py:257 | an upload for a key that is not a listed vehicle leaves the alert list as it was |
| Handlers.UploadAppendsAlert | inanis-garage-complete-20250823/app.py:257 | an upload for a vehicle adds its alert, when alerting, after the alerts of that vehicle's earlier documents |
| Handlers.SeedUsers | inanis-garage-complete-20250823/app.py:131-132 | an empty user table becomes exactly the one `admin` account with role `admin`; a non-empty one is kept |
| Handlers.LoadData | inanis-garage-complete-20250823/app.py:117-133 | after loading the user table is non-empty; it is the single `admin` account if the loaded one was empty, and nothing but the user table differs from the loaded snapshot (or the current tables when none was read) |
| Handlers.LoadDataIdempotent | inanis-garage-complete-20250823/app.py:131-132 | loading a seeded snapshot again changes nothing: seeding happens at most once |
| Scenarios.OneDocument | inanis-garage-complete-20250823/app.py:177-179 | a document whose expiry is the text of a date alerts, with that date's day count, exactly when the count is in the window |
| Scenarios.UpperEdge | inanis-garage-complete-20250823/app.py:179 | on any day, a document due in 30 days alerts and one due in 31 days does not |
| Scenarios.LowerEdge | inanis-garage-complete-20250823/app.py:179 | on any day, a document 7 days past expiry alerts and one 8 days past does not |
| Scenarios.WindowEdges | inanis-garage-complete-20250823/app.py:176-179 | of four documents at 30, 31, -7 and -8 days, exactly the first and third alert, in list order |
| Scenarios.EdgeDays | inanis-garage-complete-20250823/app.py:178 | from 2025-08-23, 2025-09-22 is 30 days ahead, 2025-09-23 is 31, 2025-08-16 is -7 and 2025-08-15 is -8 |
| Scenarios.CalendarEdges | inanis-garage-complete-20250823/app.py:178 | day differences across a leap day, a non-leap February and a year end |
| Scenarios.CenturyNotLeap | inanis-garage-complete-20250823/app.py:178 | 1900 has no 29 February |
| Scenarios.FirstAssignmentWins | inanis-garage-complete-20250823/app.py:171-173 | of two overlapping assignments covering the day, the earlier list entry names the driver |
| Scenarios.OneAlertPerVehicle | inanis-garage-complete-20250823/app.py:169-179 | when each listed vehicle has one alerting document, there is one alert per vehicle |
| Scenarios.SevenAlerts | inanis-garage-complete-20250823/app.py:169-179 | on an ordered store of seven vehicles with one insurance document each, due in 9 days, give seven alerts |
| Scenarios.SevenExpiringShowFive | inanis-garage-complete-20250823/app.py:182 | with seven alerts the panel shows exactly the first five |

## Left out

- Flask routing, templates, flash messages and redirects are left out.
  Login, logout, `load_user` and the `admin_required` guard are also left
  out. The admin check is not modelled: every handler is the body that
  runs once the guard has let the request through.
- Password hashing is left out. The hash is an opaque parameter of
  `AddUser` and `LoadData`, including the hash of the bootstrap password.
- The pickle I/O of `load_data` and `save_data` is left out. So are file
  saving, `secure_filename` and `os.makedirs`. `LoadData` takes the
  snapshot that was read, if any, as a parameter. A failed save is not
  modelled.
- The Google Drive and Calendar clients are left out, because they are
  network code. The Drive link of an upload is a parameter.
- The `vehicle`, `view_document`, `login` and `logout` routes are left out,
  and so is the average mileage in `vehicle`. They are read-only or
  floating point, and outside the modelled core.
- Fuel logs and maintenance records are left out. No modelled route reads
  or writes them, so the store omits those two tables.
- `int(year)` and `float(odo)` are modelled only by whether they succeed.
  The form carries their results, with `None` where the conversion raised.
  The mileage is a `real`, and floating-point rounding is not modelled.
- `AddVehicle` does not model the thumbnail file written before a later
  `int(year)` raises. The model only says the tables are unchanged.
- `Parse` models `strptime` only for the canonical `YYYY-MM-DD`
  text. Python also accepts one-digit months and days, such as
  `2025-9-1`. The model counts those as unreadable.
- `CheckDocument` fails on an expiry such as `2025-9-1`, where Python
  reads the date, because it uses `Parse`.
- `CollectAlerts` fails on such an expiry for the same reason.
- `VisitVehicle` fails on such an expiry for the same reason.
- `RenderIndex` fails on such an expiry for the same reason, so the
  page fails where Python would not.
- `UploadKeepsDashboardReadable` counts a non-canonical expiry such as
  `2025-9-1` as unreadable, where Python's dashboard would read it.
- `Format` writes years below 1000 with four digits. Some platforms'
  `strftime` writes them unpadded. Dates are 1 to 9999 as in Python.
- `Text.Upper` upper-cases ASCII letters only. Python's `str.upper` also
  maps other letters, some of them to several characters.
- `VehicleKey` promises a key no longer than the input only for the model's
  ASCII upper-casing. In Python `"straße".upper()` is `"STRASSE"`, so a key
  can be longer than the registration number. No lower-case ASCII letter
  remains in Python either.
- `Dashboard.AvailableIffUncovered` requires that no driver is named
  "Available". The code shows such a driver's vehicle as free and counts it
  under `avail`.
- One `today` is used for both the string comparison and the day count.
  The code reads the clock once for the text, through `datetime.today()`,
  and once per dated document, through `datetime.now()`. The readings can
  straddle midnight.
