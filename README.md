# transit_tracker ride records in Dafny

transit_tracker keeps a record of the MARTA rail cars its owner has ridden.
The records live in `data/seen_cars.yml`, a list of `{car_no, line, date}`
mappings. Three maintenance scripts keep that file in shape:

- `ride_scrubber.py` removes test entries, meaning rides whose car number
  is above `CAR_NO_LIMIT = 9999`.
- `tools/date_converter.py` rewrites every `MM/DD/YYYY` date as `YYYY-MM-DD`.
- `ride_importer.py` appends the rows of a spreadsheet export
  (`rides_to_import.csv`).

The web app's `/cars` view joins the observations stored in its database
with the line catalog, so that each car shows the long name of its line.

This project models those four pieces of logic and proves what they
promise. The modules are:

- `Results` (`results.dfy`): the `Option` and `Result` wrappers. An
  exception the Python code raises becomes an `Err` or a `None`.
- `Text` (`text.dfy`): the Python string operations the scripts rely on,
  with their laws. These are `str.strip()`, `str.lower()`, `str.split(",")`
  (split and join are inverses) and `int()`. `int()` skips its own set of
  whitespace and converts at most 4300 digits. It reads `str(n)` back as
  `n` whenever `str(n)` has at most 4300 digits.
- `Rides` (`rides.dfy`): the ride record. All three fields are text, as the
  file holds them.
- `RideScrubber` (`scrubber.dfy`): the filter loop. `Scrub` is its
  specification, `ScrubRides` is the loop proved against it, and reference
  filters and lemmas state keep/drop completeness, order, counts,
  idempotence and the error case.
- `DateConverter` (`dates.dfy`): the pieces of `convert_date`.
  - a model of `strptime("%m/%d/%Y")`, with calendar validation;
  - the two `strftime` renderings;
  - the round trip between writing a date and reading it back;
  - the in-place loop over an array of rides.
- `RideImporter` (`importer.dfy`): the per-row parse, skip and error rules,
  and the accumulation loop, proved against its specification.
- `CarsView` (`cars_view.dfy`): `get_all_cars`. The first loop builds a
  short name → long name map, in which the last duplicate wins. The second
  loop turns each observation into a view entry, and a missing code raises
  `KeyError`.
- `Ledger` (`ledger.dfy`): the class `SeenCarsFile`, whose `rides` field is
  the file. The three scripts' `main` functions are its methods:
  - the scrubber rewrites the file;
  - the converter rewrites it with converted dates;
  - the importer appends to it;
  - a run that raises leaves the file as it was, except that the converter
    has already truncated it.

The model follows these facts about the code:

- The scrubber's `int()` raises on a car number that is not an integer, so
  such a run writes nothing.
- The importer re-renders dates as `%m/%d/%Y` and keeps `car_no` as text.
  It does not look the line code up; only the web view resolves line codes,
  and an unknown code raises there.
- The scrubber and the converter open the file for writing, which
  truncates it, and then write it record by record.
- A file without records is the empty file, since the scripts write records
  one by one and never write an empty list. `yaml.safe_load` reads the empty
  file as `None`, and `for ride in rides` raises `TypeError` on it, in the
  scrubber and in the converter alike. A scrub that drops every ride
  therefore leaves a file on which every later scrub and conversion raises
  (`Ledger.EmptiedFileBreaksNextRun`).

## Model

| member | source | states |
|---|---|---|
| Text.SplitShape | ride_importer.py:15 | `line.split(",")` has one field more than there are commas, and no field contains a comma |
| Text.SplitSnoc | ride_importer.py:15 | adding a comma and a comma-free field at the end of a line adds that field at the end of the split |
| Text.JoinSplit | ride_importer.py:15 | joining the fields with commas gives back the line |
| Text.SplitJoin | ride_importer.py:15 | splitting comma-free fields joined by commas gives back the fields |
| Text.StripShape | ride_importer.py:17-24 | `strip()` keeps a contiguous slice, removes only Python whitespace, and leaves no whitespace at either end |
| Text.StripIdempotent | ride_importer.py:17-24 | stripping twice is stripping once |
| Text.LowerIdempotent | ride_importer.py:24 | a lower-cased code has no ASCII capital left, and lowering it again changes nothing |
| Text.Strip | ride_importer.py:17-24 | `str.strip()`: drops the leading and the trailing characters of Python's whitespace set |
| Text.Lower | ride_importer.py:24 | `str.lower()`: the same length, each ASCII capital replaced by its small letter and every other character kept |
| Text.Split | ride_importer.py:15 | `str.split(",")`: the maximal runs between commas, empty ones included |
| Text.ParseInt | ride_scrubber.py:14 | `int(s)`: skips `int()`'s whitespace (C `isspace` plus non-ASCII spaces, not U+001C to U+001F), takes an optional sign and well-formed digits with single inner underscores, at most 4300 of them, and is `None` where `int()` raises `ValueError` |
| Text.ParseIntOfDigits | ride_scrubber.py:14 | an all-digit `car_no` reads as its decimal value when it has at most 4300 digits, and raises otherwise |
| Text.ParseIntOfNegatedDigits | ride_scrubber.py:14 | a minus sign before digits reads as the negated value, under the same digit limit |
| Text.ParseIntDecimal | ride_scrubber.py:14 | `int(str(n)) == n` for every integer of at most 4300 digits; `int()` rejects the digit string of a longer one |
| Text.SeparatorIsNotIntSpace | ride_scrubber.py:14 | `strip()` removes a leading U+001C but `int()` does not skip it and raises |
| RideScrubber.Scrub | ride_scrubber.py:13-18 | the loop as a function of the rides: the first `car_no` that `int()` rejects ends the run with that error; otherwise each ride goes to dropped when its number is above 9999 and to kept when not, in order |
| RideScrubber.KeptRides | ride_scrubber.py:14-18 | the rides whose number parses and is at most 9999, in input order |
| RideScrubber.DroppedRides | ride_scrubber.py:14-16 | the rides whose number parses and is above 9999, in input order |
| RideScrubber.ScrubRides | ride_scrubber.py:13-18 | the loop with `continue` and `append` yields exactly the `Scrub` specification: the first unparsable `car_no` aborts, otherwise each ride goes to kept or dropped in order |
| RideScrubber.ScrubErrorSticks | ride_scrubber.py:14 | once `int()` has raised on a prefix, the whole run raises the same error |
| RideScrubber.ScrubSucceedsIff | ride_scrubber.py:13-18 | the run succeeds iff every `car_no` parses; then kept is exactly the rides with number at most 9999 and dropped exactly the rest, in input order |
| RideScrubber.ScrubFailsAtFirstBadCar | ride_scrubber.py:14 | a failed run names the first ride whose `car_no` `int()` rejects, and all rides before it parse |
| RideScrubber.FiltersClassify | ride_scrubber.py:14-18 | every kept ride has `int(car_no) <= 9999`; every dropped one has a larger number |
| RideScrubber.KeptComplete | ride_scrubber.py:14-18 | every input ride that passes the test is kept |
| RideScrubber.DroppedComplete | ride_scrubber.py:14-16 | every input ride whose number is above 9999 is dropped |
| RideScrubber.KeptIsOrderedSelection | ride_scrubber.py:13-18 | the kept rides are the input rides at strictly increasing positions, copied unchanged |
| RideScrubber.KeptSkipsOnlyFailing | ride_scrubber.py:14-18 | every input position left out of the kept rides holds a ride that fails the test |
| RideScrubber.CountsAddUp | ride_scrubber.py:14-18 | when every number parses, kept plus dropped is the input length, and the two together are a permutation of the input |
| RideScrubber.KeptDroppedPermutation | ride_scrubber.py:14-18 | when every number parses, the kept and dropped rides together are a permutation of the input |
| RideScrubber.KeptOfKeptIsIdentity | ride_scrubber.py:14-18 | filtering rides that all pass keeps all of them and drops none |
| RideScrubber.ScrubIdempotent | ride_scrubber.py:13-18 | running the filter loop again on the kept rides succeeds, keeps everything and drops nothing |
| RideScrubber.DecimalBoundary | ride_scrubber.py:5-16 | a car number written as `str(n)` with at most 4300 digits is kept exactly when `n <= 9999` and dropped exactly when `n > 9999`, so negative numbers are kept; a longer one parses as no number and aborts the run |
| RideScrubber.OverlongCarNumberAborts | ride_scrubber.py:14 | an all-digit `car_no` of more than 4300 digits makes `int()` raise, so the run ends with that error instead of dropping the ride |
| RideScrubber.SeparatorCarNumberAborts | ride_scrubber.py:14 | a `car_no` led by U+001C makes `int()` raise, so the run ends with that error |
| RideScrubber.Boundary | ride_scrubber.py:5-14 | 9999 is kept and 10000 dropped, because the test is a strict `>`; `12a` has no number |
| RideScrubber.ScenarioMixed | ride_scrubber.py:13-18 | car numbers `[150, 9999999, 300]` keep `[150, 300]` in order and drop `[9999999]` |
| DateConverter.DaysInMonth | tools/date_converter.py:17 | every month has 28 to 31 days |
| DateConverter.DateOfFields | tools/date_converter.py:17 | the date a month text (`%m`), a day text (`%d`) and a year text (`%Y`) name when each matches its pattern and together they form a real date |
| DateConverter.ParseSlashDate | tools/date_converter.py:8-17 | whatever `strptime(s, "%m/%d/%Y")` accepts is a real calendar date between years 1 and 9999 |
| DateConverter.ParseSlashDateOfFields | tools/date_converter.py:17 | a string of three slash-free fields is read field by field |
| DateConverter.Pad2Reads | tools/date_converter.py:9 | `%m`/`%d` output is two digits that read back as the number |
| DateConverter.Pad4Reads | tools/date_converter.py:9 | `%Y` output is four digits that `%Y` reads back as the year |
| DateConverter.DateStartsWithDigit | tools/date_converter.py:17 | `strptime(s, "%m/%d/%Y")` rejects a string that does not start with a digit |
| DateConverter.NewlineEndedDateRejected | ride_importer.py:18 | a date text followed by `\n` is rejected, because `%Y` cannot take the newline |
| DateConverter.FormatIso | tools/date_converter.py:17 | `strftime("%Y-%m-%d")`: four-digit year, dash, two-digit month, dash, two-digit day |
| DateConverter.FormatSlash | ride_importer.py:19 | `strftime("%m/%d/%Y")`: two-digit month, slash, two-digit day, slash, four-digit year |
| DateConverter.ConvertDate | tools/date_converter.py:12-20 | `convert_date`: the ISO rendering of the date `strptime` reads, or the input itself when `strptime` raises `ValueError` |
| DateConverter.ParseFormatSlash | ride_importer.py:18-19 | a date written `%m/%d/%Y` is read back by `strptime` as the same date |
| DateConverter.ConvertParsed | tools/date_converter.py:12-20 | a date `strptime` accepts is converted to its ISO form, which has no slash |
| DateConverter.ConvertUnchangedIff | tools/date_converter.py:16-19 | `convert_date` returns its input unchanged exactly when `strptime` raises `ValueError` |
| DateConverter.IsoHasNoSlash | tools/date_converter.py:9 | the `%Y-%m-%d` rendering contains no `/` |
| DateConverter.IsoFields | tools/date_converter.py:9-17 | the ISO form is ten characters with dashes at 4 and 7, holding the same year, month and day |
| DateConverter.ConvertIdempotent | tools/date_converter.py:12-20 | converting a converted date changes nothing |
| DateConverter.LeapDay | tools/date_converter.py:17 | February 29th is a date exactly in leap years; February 30th, April 31st, month 13 and day 0 never are |
| DateConverter.CenturyYears | tools/date_converter.py:17 | 2000 and 2024 are leap years; 1900 and 2023 are not |
| DateConverter.ConvertExamplePadded | tools/date_converter.py:12-20 | `03/01/2024` becomes `2024-03-01` |
| DateConverter.ConvertExampleShort | tools/date_converter.py:12-20 | `1/5/2024` becomes `2024-01-05`: one-digit fields are accepted and padded |
| DateConverter.ConvertExampleSpacedDay | tools/date_converter.py:12-20 | `03/ 5/2024` becomes `2024-03-05`: `%d` accepts a space before one digit |
| DateConverter.ConvertExampleLeapDay | tools/date_converter.py:12-20 | `02/29/2024` becomes `2024-02-29` |
| DateConverter.ConvertExampleNoLeapDay | tools/date_converter.py:12-20 | `02/29/2023` is left as it is |
| DateConverter.ConvertExampleMonth13 | tools/date_converter.py:12-20 | `13/01/2024` is left as it is |
| DateConverter.ConvertExampleIso | tools/date_converter.py:12-20 | a date already in ISO form, `2024-03-01`, is left as it is |
| DateConverter.ConvertedRides | tools/date_converter.py:32-33 | the rides in order, each with its date passed through `convert_date` and its other fields kept |
| DateConverter.ConvertRideDates | tools/date_converter.py:32-33 | the in-place loop leaves every ride with its date converted and its other fields untouched |
| DateConverter.ConvertedRidesIdempotent | tools/date_converter.py:32-35 | running the converter on its own output changes nothing |
| RideImporter.ParseRow | ride_importer.py:15-30 | one line: split on commas; a missing field 1 raises `IndexError`; field 1 that `strptime` rejects raises `ValueError`; a missing field 3 raises `IndexError`; a stripped field 3 equal to `Active` skips the row; otherwise the ride of field 0 stripped, field 3 stripped and lower-cased, and the date re-rendered `%m/%d/%Y` |
| RideImporter.Collect | ride_importer.py:14-30 | the rides of the row outcomes appended in order, skips adding nothing, and the first error ending the run with its row index |
| RideImporter.Import | ride_importer.py:12-30 | the row outcomes of the `readlines()` lines, newline included, collected |
| RideImporter.ImportRows | ride_importer.py:14-30 | the loop with `continue` and `append` yields exactly the `Import` specification |
| RideImporter.CollectErrorSticks | ride_importer.py:14-30 | once a row has raised, the run ends with that error whatever follows |
| RideImporter.RowRecord | ride_importer.py:15-30 | a produced ride holds field 0 stripped, field 3 stripped and lower-cased (and not `Active`), and field 1's date re-rendered as a string that reads back as the same date |
| RideImporter.RowSkipped | ride_importer.py:20-23 | a row is skipped iff it has four fields, a valid date, and a stripped field 3 equal to `Active` |
| RideImporter.RowErrors | ride_importer.py:15-20 | a missing field 1, then a bad date, then a missing field 3 raise, in that order; a row succeeds iff it has four fields and a valid date |
| RideImporter.CollectSucceedsIff | ride_importer.py:14-30 | the accumulation succeeds iff no row raises |
| RideImporter.CollectFailsAtFirstBadRow | ride_importer.py:14-30 | a failure names the first row that raised, and what it raised |
| RideImporter.ImportErrors | ride_importer.py:14-30 | the import succeeds iff no line raises; a failure names the first line that does, and its error |
| RideImporter.CollectFollowsRows | ride_importer.py:14-30 | the k-th ride comes from the k-th producing row, those rows increase, and every other row was skipped |
| RideImporter.ImportFollowsRows | ride_importer.py:14-30 | the same correspondence as `CollectFollowsRows`, stated on the file's lines |
| RideImporter.SplitFour | ride_importer.py:15 | four comma-free fields joined by commas split back into those four fields |
| RideImporter.RowOfFields | ride_importer.py:15-30 | a four-field row with a valid date is skipped when its stripped field 3 is `Active`, and otherwise yields car field 0 stripped, line field 3 stripped and lower-cased, and the date re-rendered `%m/%d/%Y` |
| RideImporter.RowOfBadDate | ride_importer.py:18 | a four-field row whose field 1 `strptime` rejects raises with that text, whatever field 3 holds |
| RideImporter.RowOfSpacedDate | ride_importer.py:18 | field 1 is not stripped, so a date field starting with a space or any other non-digit raises |
| RideImporter.ShortRowFailsOnDate | ride_importer.py:12-20 | a two-field line keeps its `\n` in field 1, so it raises `ValueError` at the date before the missing field 3 is reached |
| RideImporter.RowExampleSpacedDate | ride_importer.py:18 | field 1 is not stripped, so ` 3/1/2024` raises |
| CarsView.FriendlyLines | app/main.py:112-114 | the `friendly_lines` dict: each catalog row in order sets its short name to its long name |
| CarsView.JoinCars | app/main.py:115-120 | one entry per observation in order, with `car_no` and date copied and the line looked up in the map; the first code missing from the map raises `KeyError` |
| CarsView.FriendlyLinesKeys | app/main.py:112-114 | the map's keys are exactly the short names of the catalog rows |
| CarsView.FriendlyLinesLastWins | app/main.py:113-114 | the last catalog row with a given short name decides its long name |
| CarsView.FriendlyLinesFromLastRow | app/main.py:113-114 | every map entry comes from the last row with that short name |
| CarsView.JoinErrorSticks | app/main.py:115-120 | once an observation raises `KeyError`, the whole view raises it |
| CarsView.JoinSucceedsIff | app/main.py:115-120 | the join succeeds iff every line code is in the map; it then has one entry per observation, in order, with `car_no` and date copied and the line looked up |
| CarsView.JoinFailsAtFirstMissing | app/main.py:118 | the error names the code of the first observation missing from the map, and no partial list is returned |
| CarsView.GetAllCars | app/main.py:109-121 | the two loops yield exactly the join of the observations with the catalog map |
| CarsView.ViewShowsLastCatalogName | app/main.py:112-120 | in a successful view, entry `i` shows observation `i` with the long name of the last catalog row for its code |
| CarsView.ViewFailsIff | app/main.py:112-118 | the view fails iff some observation's line code is the short name of no catalog row |
| CarsView.DuplicateShortnameExample | app/main.py:112-120 | with `RD` listed twice, the later long name is shown; an unknown `BL` raises before `YL` is reached |
| Ledger.SeenCarsFile.Rewrite | ride_scrubber.py:20-23 | truncating and writing the records one by one leaves the file holding exactly those records |
| Ledger.SeenCarsFile.AppendAll | ride_importer.py:32-35 | appending keeps the old records and adds the new ones after them |
| Ledger.ScrubRun | ride_scrubber.py:10-18 | (definition) the empty file raises `TypeError`; otherwise the filter loop's outcome |
| Ledger.ScrubRunSucceedsIff | ride_scrubber.py:10-18 | a scrub succeeds exactly when the file is non-empty and every car number parses, and then keeps the in-limit rides and drops the rest |
| Ledger.RerunKeepsEverything | ride_scrubber.py:10-23 | scrubbing again a file that kept some rides succeeds, keeps them all and drops none |
| Ledger.EmptiedFileBreaksNextRun | ride_scrubber.py:10-23 | a scrub that kept no ride leaves the empty file, and the next scrub on it raises `TypeError` |
| Ledger.DropAllThenRerun | ride_scrubber.py:10-23 | for a file of one ride above 9999, the first scrub succeeds and empties the file, the second raises |
| Ledger.SeenCarsFile.RunScrubber | ride_scrubber.py:6-23 | the outcome is `ScrubRun` of the file; on success the file holds exactly the in-limit rides in order, all with number at most 9999; on an empty file or a bad `car_no` it is unchanged |
| Ledger.SeenCarsFile.RunDateConverter | tools/date_converter.py:24-35 | the run raises exactly when the file is empty, which it leaves empty; otherwise the file holds the same rides, in order, with every date passed through `convert_date` |
| Ledger.SeenCarsFile.RunImporter | ride_importer.py:8-35 | on success the file is the old records followed by the produced ones; on an error it is unchanged; old records are never rewritten |

## Left out

- YAML loading and dumping, and file opening, reading and writing. The file
  is the `rides` field of `Ledger.SeenCarsFile`. One `yaml.dump([ride])`
  write is one appended ride, and the lines of the import file are an input
  sequence.
- YAML implicit typing is not modelled. An unquoted `car_no` loads as an
  `int` and an ISO date can load as a `date` object; the model keeps every
  field as text.
- The database queries `get_cars` and `load_lines` (PostgreSQL via
  psycopg2) are left out. Their results are the input sequences of
  `CarsView.GetAllCars`. Each query row is modelled with the three columns
  the view reads, so a row too short for `obs[2]` or `row[2]` is not
  modelled.
- The FastAPI routes, `HTMLResponse`, the Jinja templates, `add_car`, its
  `datetime.now()` and `load_env` are web and I/O plumbing with no logic of
  the core.
- Console `print` output is left out. The dropped rides in
  `RideScrubber.ScrubReport` stand for the scrubber's one "not valid" line
  per dropped ride, and the importer's skip messages are not kept.
- Text.ParseInt: only ASCII digits are accepted. Python's `int()` also
  accepts other Unicode decimal digits. The digit limit is the CPython
  default of 4300 (`sys.set_int_max_str_digits` and `PYTHONINTMAXSTRDIGITS`
  can change it). Interpreters released before that limit existed (before
  3.11, 3.10.7, 3.9.14, 3.8.14 and 3.7.14) convert any number of digits;
  the model does not cover them.
- Text.Decimal: `str(n)` raises for more than 4300 digits. `Decimal` still
  renders such an `n`, as the car-number text that would be in the file, and
  `Text.ParseIntDecimal` and `RideScrubber.DecimalBoundary` state that
  `int()` rejects it.
- The lines of the import file are modelled as `readlines()` returns them:
  each line keeps its trailing `\n`, and the file's last line may have
  none. The model takes every line as an arbitrary string, so both cases
  are covered. The file reading itself is left out.
- DateConverter.DateOfFields: only ASCII digits are accepted in each field.
  `strptime`'s `\d` also matches other Unicode digits.
- DateConverter.ParseSlashDate: only ASCII digits are accepted, through
  DateConverter.DateOfFields. Its failure reason is not
  modelled; every rejection is one `None`.
- Text.Lower: only ASCII letters are lowered. Python lowers every Unicode
  capital.
- DateConverter.Pad4Reads: `%Y` is always four digits, and so it is in
  DateConverter.FormatIso, DateConverter.FormatSlash and
  DateConverter.ParseFormatSlash. Whether `strftime` pads years below 1000
  depends on the platform's C library.
- Ledger.SeenCarsFile.RunDateConverter: the record-by-record interleaving of
  converting and writing is not modelled, so a crash part-way through is
  not captured. It is modelled as a conversion of a copy of the file,
  followed by a rewrite.
- Ledger.ScrubRun and Ledger.SeenCarsFile.RunDateConverter: a file without
  records is taken to be the empty file, which loads as `None`. A file
  holding the text `[]` loads as an empty list, and the scripts then
  succeed on it; the model does not distinguish it, since the scripts never
  write one.
- Ledger.SeenCarsFile.RunScrubber: a crash between the truncation and the
  last write, which would leave a half-written file, is not modelled.
- The aliasing between the loaded ride dicts and the file's contents is not
  modelled.
- `tests/main_test.py` makes live HTTP requests and checks status codes
  only, so it has no logic to model.
