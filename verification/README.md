# eqcat catalogue toolkit core, modelled in Dafny

This project models the pure core of the `eqcat` earthquake catalogue toolkit
(GEM Science Tools, written in Python 2) and proves properties of it. It has
six parts.

- **The ISF bulletin reader** (`IsfReader`, `isf_reader.dfy`).
  - The fixed-column record builders read one line into one value: an event header, a 136-character origin line or a 38-character magnitude line.
  - `read_file` is modelled as a fold over the lines with an explicit state record: the catalogue so far, the open event block, and the origin and magnitude section flags.
- **The catalogue data model and merge engine** (`Catalogue`, `catalogue.dfy`). This covers:
  - magnitudes, locations, origins, events and catalogues;
  - `compare_magnitude`;
  - the merges of magnitudes, origins and catalogues;
  - `assign_magnitudes_to_origins`.
- **The tables derived from a catalogue** (`Tables`, `tables.dfy`). This covers prime-origin selection for `get_decimal_dates`, the rows of `render_to_simple_numpy_array`, and the origin and magnitude tables of `get_origin_mag_tables`.
- **The converters** (`Converters`, `converters.dfy`). This covers the CSV column checks `_header_check`, `_float_check` and `_int_check`, and the GCMT-to-ISF conversion `GCMTtoISFParser.parse` / `from_catalogue`.
- **The utilities** (`Calendar`, `calendar.dfy`; `Filenames`, `filenames.dfy`). This covers:
  - the leap-year rule;
  - the cumulative day tables;
  - the day count of `decimal_time` and `decimal_year`;
  - `build_filename` and `_to_latex`.
- **The ISC request builder** (`IscDownloader`, `isc_downloader.dfy`). This covers:
  - `SetField`, `UseMirror` and `CreateUrl`;
  - the settings file of `SaveSettings` / `LoadSettings`;
  - the year blocks of `GetCatalogue`;
  - the `DATA_TYPE` … `STOP` cut of `DownloadBlock`.

Shared modules:

- **`Base`** holds `Option`/`Result`, Python truthiness and small sequence helpers.
- **`Text`** models the Python string operations the code relies on:
  - `strip`, `split`, `join`, `find` and `str.split()` tokens;
  - slicing with negative and out-of-range bounds;
  - `int()` and `float()` on decimal text;
  - `%06d`.
- **`Decoders`** gives the lenient field decoders `_to_str`, `_to_int` and `_to_float` the behaviour the format calls for: `_to_str` strips surrounding whitespace and returns the possibly empty text; `_to_int` and `_to_float` give `None` for blank or unreadable text.

How the program's effects are modelled:

- A Python exception is an `Err` value.
- Mutation is a function returning the updated value.
- Floating-point numbers are exact `real`s.
- The network is a parameter `fetch` (URL to page text).
- File contents are strings or sequences of lines.

## Model

| member | source | states |
|---|---|---|
| Calendar.LeapPeriod | eqcat/utils.py:59-64 | the leap rule repeats every 400 years |
| Calendar.LeapExamples | eqcat/utils.py:59-64 | 2000 and 2012 are leap years, 1900 and 2013 are not |
| Calendar.MarkersAreCumulative | eqcat/utils.py:28-32 | each table entry equals the days of the earlier months, summed month by month from the Gregorian month lengths, using the leap table exactly in leap years |
| Calendar.YearLength | eqcat/utils.py:28-32 | the month lengths add up to 365 days, or 366 in leap years |
| Calendar.LeapTableShift | eqcat/utils.py:28-32 | the leap table equals the common one for January and February and is one day ahead from March on |
| Calendar.MarkersIncreasing | eqcat/utils.py:28-32 | both tables are strictly increasing |
| Calendar.DayCountRange | eqcat/utils.py:84-88 | the day count of a valid date lies in [0, 364], or [0, 365] in a leap year |
| Calendar.DayCountOrder | eqcat/utils.py:84-88 | within a year the day count follows calendar order, so distinct dates get distinct counts |
| Calendar.DecimalYearIgnoresLeap | eqcat/utils.py:51-55 | `decimal_year` counts days from the common table: equal to `decimal_time`'s count up to February, one less from March of a leap year |
| Calendar.DecimalYearLeapDayCollides | eqcat/utils.py:51-55 | in a leap year 29 February and 1 March get the same decimal year |
| Calendar.LeapCheck | eqcat/utils.py:59-64 | years not divisible by 4 are common, other non-century years are leap, and century years are leap exactly when divisible by 400 |
| Calendar.DayCount | eqcat/utils.py:84-88 | the table lookup equals the days of the earlier months summed month by month, plus the day, minus one |
| Calendar.DecimalTime | eqcat/utils.py:66-94 | the fraction past the year, times the year's length in seconds, is the number of seconds elapsed in the year |
| Calendar.DecimalYear | eqcat/utils.py:36-57 | in common years it is the decimal time at midnight; the fraction past the year, times 365, is the day count from the common-year month lengths |
| Calendar.DecimalYearWithinYear | eqcat/utils.py:51-57 | the decimal year of a valid date lies in [year, year + 1) |
| Calendar.YearSecondsBound | eqcat/utils.py:89-90 | the seconds elapsed before a valid date and time are non-negative and less than the length of that year |
| Calendar.DecimalTimeWithinYear | eqcat/utils.py:89-93 | the decimal time of a valid date and time lies in [year, year + 1) |
| Calendar.MakeDate | eqcat/parsers/isf_catalogue_reader.py:103-104 | `datetime.date` succeeds exactly on valid Gregorian dates in years 1 to 9999 and keeps the fields; otherwise it raises |
| Calendar.MakeTime | eqcat/parsers/isf_catalogue_reader.py:70 | `datetime.time` succeeds exactly when hour, minute, second and microsecond are in range |
| Calendar.Seconds | eqcat/isf_catalogue.py:527-528 | second plus microsecond / 10^6 lies in [0, 60) |
| Filenames.SplitExt | eqcat/utils.py:541 | `os.path.splitext` splits the name into root and extension, which concatenate back to it; a non-empty extension starts with its only dot and has no `/` |
| Filenames.BuildFilename | eqcat/utils.py:541-551 | the type is the name's extension without its dot when there is one, else `filetype`, else `png` (also for a bare `.`); the name is root + `.` + type; a falsy resolution becomes 300 |
| Filenames.BuildFilenameKeepsExtension | eqcat/utils.py:541-547 | a name that already has an extension comes back unchanged |
| Filenames.FindBrackets | eqcat/utils.py:290-291 | in `A(B)` the first `(` and the first `)` are found right after `A` and right after `B` |
| Filenames.ToLatexSubscript | eqcat/utils.py:284-292 | `_to_latex("A(B)")` is `$A_{B}$` |
| Filenames.ToLatexWithoutBrackets | eqcat/utils.py:290-292 | without brackets both searches give -1, and the slices drop the last character |
| Filenames.ToLatex | eqcat/utils.py:284-292 | the result is in math mode, opening with `$` and closing the subscript with `}$` |
| Catalogue.Fixed2 | eqcat/isf_catalogue.py:87 | the two-decimal rendering holds no `\|` and has its point three characters from the end |
| Catalogue.NewMagnitude | eqcat/isf_catalogue.py:71-88 | a missing or empty scale becomes `UK`, any other scale is kept; the other fields are stored as given; a missing value fails, because the identifier cannot be formatted |
| Catalogue.MagnitudeIdFields | eqcat/isf_catalogue.py:85-88 | the magnitude id splits on `\|` back into origin id, author, two-decimal value and scale |
| Catalogue.MagnitudeIdSeparates | eqcat/isf_catalogue.py:85-88 | equal magnitude ids mean equal origin id, author, scale and rendered value |
| Catalogue.MakeMagnitude | eqcat/isf_catalogue.py:71-88 | the fields are kept as given and the stored id is the one built from origin id, author, two-decimal value and scale |
| Catalogue.CompareMagnitude | eqcat/isf_catalogue.py:90-103 | raises exactly when origin id, author and scale match and the values differ by more than 0.001; otherwise it is true exactly when those three match |
| Catalogue.CompareSymmetric | eqcat/isf_catalogue.py:90-103 | comparing a with b gives the same outcome as comparing b with a |
| Catalogue.NewOrigin | eqcat/isf_catalogue.py:195-213 | a new origin has no magnitudes and is neither prime nor centroid |
| Catalogue.OriginIds | eqcat/isf_catalogue.py:309-313 | the origin ids, one per origin, in order |
| Catalogue.MagnitudesFor | eqcat/isf_catalogue.py:345-348 | exactly the event magnitudes that name the origin, drawn from the event's list |
| Catalogue.MagnitudesForIsFilter | eqcat/isf_catalogue.py:345-348 | the magnitudes naming the origin are the event's list filtered by origin id: same order, repeats kept |
| Catalogue.AttachMatching | eqcat/isf_catalogue.py:345-348 | each origin's list is extended by the event magnitudes that name it; nothing else changes |
| Catalogue.AssignMagnitudesToOrigins | eqcat/isf_catalogue.py:337-348 | with no magnitudes or no origins, the event is unchanged and the error value is returned; otherwise each origin's list becomes its old list followed by the event magnitudes naming it, in event order, and nothing else changes |
| Catalogue.ScanComparisons | eqcat/isf_catalogue.py:264-267 | the inner loop raises exactly when some existing magnitude conflicts with the incoming one; otherwise its verdict is the comparison with the last magnitude only |
| Catalogue.AppendUnmatched | eqcat/isf_catalogue.py:259-270 | the existing list stays a prefix, and only incoming magnitudes are added, at most one per incoming magnitude |
| Catalogue.MergeSecondaryMagnitudes | eqcat/isf_catalogue.py:250-270 | an empty list adopts the incoming one; otherwise the list stays a prefix and grows only by incoming magnitudes |
| Catalogue.MergeOne | eqcat/isf_catalogue.py:250-270 | with a non-empty list, one incoming magnitude raises exactly when it conflicts with some existing one; otherwise it is dropped when it matches the last entry and appended when it does not |
| Catalogue.AppendUnmatchedConcat | eqcat/isf_catalogue.py:259-270 | merging a + b is merging a and then merging b into the result; a failure on a ends the loop |
| Catalogue.AppendUnmatchedErrConflicts | eqcat/isf_catalogue.py:259-270 | when the loop raises, some incoming magnitude conflicts with an existing one or with an earlier incoming one |
| Catalogue.MergeErrConflicts | eqcat/isf_catalogue.py:250-270 | the merge raises only on a non-empty list, and only when some incoming magnitude conflicts with an existing one or with an earlier incoming one |
| Catalogue.AppendUnmatchedRaisesOnConflict | eqcat/isf_catalogue.py:260-270 | a conflict between any existing and any incoming magnitude makes the loop raise |
| Catalogue.MergeRaisesOnConflict | eqcat/isf_catalogue.py:255-270 | the merge raises on any conflict with a non-empty list |
| Catalogue.MergeDropsRepeatOfLast | eqcat/isf_catalogue.py:264-270 | an incoming magnitude matching the last existing one is not appended |
| Catalogue.MergeKeepsCopyUnlessLast | eqcat/isf_catalogue.py:264-270 | a magnitude matching an earlier but not the last entry is appended again, because only the last comparison counts |
| Catalogue.MergeTwoSameKey | eqcat/isf_catalogue.py:259-270 | two magnitudes with the same key: the merge raises beyond 0.001 and keeps one copy within it |
| Catalogue.NewOrigins | eqcat/isf_catalogue.py:356-367 | the secondary origins with an unknown id are exactly the ones appended, in order |
| Catalogue.RefinesAfterUpdate | eqcat/isf_catalogue.py:362-365 | replacing one origin's magnitudes by a longer list that extends them keeps every origin a refinement of its original |
| Catalogue.MergeOriginsFrom | eqcat/isf_catalogue.py:356-367 | on success the list grows by exactly the number of secondary origins whose id is not in the list computed before the loop |
| Catalogue.MergeOriginsRefines | eqcat/isf_catalogue.py:360-365 | every origin present before the loop only gains magnitudes |
| Catalogue.MergeOriginsAppends | eqcat/isf_catalogue.py:366-367 | after the original origins come the new ones, in secondary order |
| Catalogue.MergeOriginsAppendsKnown | eqcat/isf_catalogue.py:360-365 | when the first secondary origin has a known id, the tail after the originals is still exactly the new origins |
| Catalogue.MergeOriginsAppendsNew | eqcat/isf_catalogue.py:366-367 | when the first secondary origin has a new id, the tail after the originals is exactly the new origins, starting with it |
| Catalogue.MergeOriginsUntouched | eqcat/isf_catalogue.py:360-365 | an origin no secondary origin names is left exactly as it is |
| Catalogue.MergeOriginsOne | eqcat/isf_catalogue.py:356-367 | one secondary origin with a new id is appended; with a known id, that origin's magnitudes become their merge with the secondary ones, and the loop raises when that merge does |
| Catalogue.MergeOriginsConcat | eqcat/isf_catalogue.py:356-367 | merging origins a + b is merging a and then b, against the same ids computed before the loop |
| Catalogue.MergeOriginsAllNew | eqcat/isf_catalogue.py:366-367 | secondary origins whose ids are all new are appended as they are, in order |
| Catalogue.MergeOriginsErrKnown | eqcat/isf_catalogue.py:360-365 | the loop raises only when some secondary origin has a known id |
| Catalogue.MergeSecondaryOrigin | eqcat/isf_catalogue.py:350-367 | existing origins keep their positions and only gain magnitudes, unnamed ones are untouched, and the new origins follow in secondary order |
| Catalogue.MergeSecondaryOriginOne | eqcat/isf_catalogue.py:350-367 | one secondary origin: a new id is appended to the event; a known id replaces that origin's magnitudes by their merge, or raises as the merge does |
| Catalogue.EventKeys | eqcat/isf_catalogue.py:415-422 | the event ids, one per event, in order |
| Catalogue.MergeEventsFrom | eqcat/isf_catalogue.py:436-443 | the number of events is unchanged, each event refines its original, and events no secondary event names are unchanged |
| Catalogue.MergeEventsOne | eqcat/isf_catalogue.py:436-443 | one secondary event with an unknown id changes nothing; with a known id, that event's origins become their merge with the secondary origins, and the loop raises when that merge does |
| Catalogue.MergeEventsConcat | eqcat/isf_catalogue.py:436-443 | merging events a + b is merging a and then b, against the same keys computed before the loop |
| Catalogue.MergeEventsBaseFree | eqcat/isf_catalogue.py:436-443 | the result does not depend on which earlier version of the events the loop started from |
| Catalogue.MergeSecondCatalogue | eqcat/isf_catalogue.py:425-443 | same id, name, number and order of events; each event only gains origins and magnitudes; events with ids absent from the secondary are unchanged |
| Catalogue.MergeSecondCatalogueOne | eqcat/isf_catalogue.py:425-443 | a one-event secondary catalogue with an unknown id leaves the primary as it is; with a known id, only that event's origins change, to their merge, or the merge raises |
| Catalogue.MergeSecondCatalogueConcat | eqcat/isf_catalogue.py:425-443 | merging the events of two secondary catalogues in turn is merging them one catalogue after the other |
| Catalogue.MergeSecondCatalogueErrKnown | eqcat/isf_catalogue.py:425-443 | the merge raises only when some secondary event id is an id of the primary |
| Catalogue.MergeDisjointIsIdentity | eqcat/isf_catalogue.py:434-443 | a secondary catalogue sharing no event id leaves the primary as it is |
| Catalogue.DisjointRestIgnored | eqcat/isf_catalogue.py:436-443 | secondary events whose ids are all unknown are ignored |
| Tables.FirstPrime | eqcat/isf_catalogue.py:457-469 | the position of the first prime origin: all earlier origins are not prime |
| Tables.SelectOrigin | eqcat/isf_catalogue.py:456-478 | fails exactly for an event without origins; otherwise the first prime origin, or the first origin when none is prime |
| Tables.GetDecimalDates | eqcat/isf_catalogue.py:445-479 | one decimal time per event, from its selected origin; fails exactly when some event has no origin |
| Tables.DecimalDatesWithinYear | eqcat/isf_catalogue.py:445-479 | each decimal date lies within the year of the origin it was taken from |
| Tables.ReportableOrigins | eqcat/isf_catalogue.py:490-495 | only prime origins that have at least one magnitude, no more of them than the list holds |
| Tables.ReportableOriginsMembers | eqcat/isf_catalogue.py:490-495 | every kept origin comes from the list, and every prime origin of the list with a magnitude is kept |
| Tables.EventSimpleRows | eqcat/isf_catalogue.py:489-503 | one row per reportable origin of the event, in order, each built from that origin and its first magnitude |
| Tables.SimpleRows | eqcat/isf_catalogue.py:489-503 | as many rows as reportable origins over all events |
| Tables.SimpleRowsAt | eqcat/isf_catalogue.py:489-503 | the row of reportable origin k of event i sits right after the rows of all earlier events and is built from that origin with the event's decimal date |
| Tables.RenderToSimpleArray | eqcat/isf_catalogue.py:482-504 | fails exactly when the decimal dates fail; otherwise one row per reportable origin |
| Tables.RenderToSimpleArrayAt | eqcat/isf_catalogue.py:482-504 | each row of the array is that of a reportable origin of its event, paired with the event's decimal date |
| Tables.NoReportableNoRows | eqcat/isf_catalogue.py:490-495 | an event without a prime origin that has magnitudes contributes no row |
| Tables.OriginRowOf | eqcat/isf_catalogue.py:524-564 | date and time, longitude, latitude and depth come from the origin; prime is 1 or 0, matching the flag; falsy time and depth errors become 0.0 and truthy ones are kept; a falsy semimajor axis zeroes all three ellipse fields; text fields are cut to their column widths |
| Tables.MagnitudeRowOf | eqcat/isf_catalogue.py:567-574 | a falsy sigma becomes 0.0; value, ids, scale and author are kept, cut to their column widths |
| Tables.EventOriginRows | eqcat/isf_catalogue.py:525-565 | as many rows as origins visited |
| Tables.EventOriginRowsAt | eqcat/isf_catalogue.py:525-565 | row j of the event's block is the row of its j-th origin |
| Tables.EventMagnitudeRows | eqcat/isf_catalogue.py:567-574 | as many rows as magnitudes visited |
| Tables.EventMagnitudeRowsAt | eqcat/isf_catalogue.py:567-574 | row j of the event's block is the row of its j-th event-level magnitude |
| Tables.OriginTable | eqcat/isf_catalogue.py:514-520 | the origin table has as many rows as there are origins in all events |
| Tables.MagnitudeTable | eqcat/isf_catalogue.py:514-521 | the magnitude table has as many rows as there are event-level magnitudes |
| Tables.OriginTableAt | eqcat/isf_catalogue.py:522-565 | origin j of event i sits right after the origins of all earlier events |
| Tables.MagnitudeTableAt | eqcat/isf_catalogue.py:522-574 | magnitude j of event i sits right after the magnitudes of all earlier events |
| Tables.BuildOriginRows | eqcat/isf_catalogue.py:525-565 | the loop over an event's origins builds exactly its origin rows |
| Tables.BuildMagnitudeRows | eqcat/isf_catalogue.py:567-574 | the loop over an event's magnitudes builds exactly its magnitude rows |
| Tables.GetOriginMagTables | eqcat/isf_catalogue.py:507-575 | the two tables, event by event, sized by the number of origins and of magnitudes |
| IsfReader.HeaderLengths | eqcat/parsers/isf_catalogue_reader.py:35-39 | the origin header is 136 characters and the magnitude header 38, the lengths of the lines they announce |
| IsfReader.GetEventHeaderRow | eqcat/parsers/isf_catalogue_reader.py:46-53 | fails exactly when the row has fewer than two tokens; the id is the second token, the description the rest joined by single spaces; origins and magnitudes start empty |
| IsfReader.HeaderRoundTrip | eqcat/parsers/isf_catalogue_reader.py:46-53 | a header written as tag, id and words reads back as that event |
| IsfReader.ParseInts | eqcat/parsers/isf_catalogue_reader.py:103 | `map(int, ...)` fails exactly when some part is not an integer; otherwise one integer per part |
| IsfReader.TimeOfFields | eqcat/parsers/isf_catalogue_reader.py:61-70 | hours and minutes are the integers of the first two parts; the seconds with their fraction fall at most one microsecond short of the third part |
| IsfReader.TimeOfSeconds | eqcat/parsers/isf_catalogue_reader.py:65-70 | hours and minutes are kept; the whole seconds and truncated microseconds fall at most one microsecond short of the seconds read |
| IsfReader.GetTimeFromStr | eqcat/parsers/isf_catalogue_reader.py:55-71 | the time comes from the `:`-split of columns 11-21; the time error and RMS come from columns 24-28 and 30-34 |
| IsfReader.TimeOfRenderedFields | eqcat/parsers/isf_catalogue_reader.py:62-70 | whole hours, minutes and seconds in range read back as that time |
| IsfReader.TimeRoundTrip | eqcat/parsers/isf_catalogue_reader.py:55-71 | a row whose time columns hold `h:m:s` reads back as that time |
| IsfReader.GetOriginMetadata | eqcat/parsers/isf_catalogue_reader.py:73-88 | fails exactly on rows shorter than 114 characters; the counts and distances are the decoded columns; the flags are at most one or two characters |
| IsfReader.ReaderLocation | eqcat/parsers/isf_catalogue_reader.py:118-119 | the error-ellipse values land one slot off: depth solution gets the semimajor axis, and the depth error is left empty |
| IsfReader.GetEventOriginRow | eqcat/parsers/isf_catalogue_reader.py:90-123 | no origin exactly when the allow-list is non-empty and the author in columns 118-126 is not in it; otherwise the id is columns 128 onward, and the date, time and location are read from their columns |
| IsfReader.GetEventOriginRowColumns | eqcat/parsers/isf_catalogue_reader.py:91-123 | a read origin carries the time, time error and RMS of the time columns, the slot-shifted ellipse values of columns 61-66, 67-70 and 78-82, and the metadata of its row |
| IsfReader.GetEventMagnitude | eqcat/parsers/isf_catalogue_reader.py:125-138 | no magnitude exactly when the author in columns 20-28 is not selected; an error exactly when it is selected but the value is blank; otherwise scale, value, sigma, stations and origin id come from their columns |
| IsfReader.MagnitudeLineRoundTrip | eqcat/parsers/isf_catalogue_reader.py:125-138 | a magnitude line with its fields laid out in the expected columns reads back as exactly that magnitude |
| IsfReader.MagnitudeColumns | eqcat/parsers/isf_catalogue_reader.py:130-138 | each field of such a line decodes to the value written in it |
| IsfReader.MarkLast | eqcat/parsers/isf_catalogue_reader.py:160-170 | only the last origin gets the flag; the others, and an empty list, are unchanged |
| IsfReader.Flush | eqcat/parsers/isf_catalogue_reader.py:174-181 | a block with both origins and magnitudes is appended, with magnitudes assigned; any other block is dropped |
| IsfReader.StepGrows | eqcat/parsers/isf_catalogue_reader.py:155-215 | the events read so far stay in front, and at most one is added, only at an `Event` line with a block open |
| IsfReader.Step | eqcat/parsers/isf_catalogue_reader.py:155-215 | a line never removes events and adds at most one, only at an `Event` line that closes a block; other lines keep the events and whether a block is open |
| IsfReader.MarkerStep | eqcat/parsers/isf_catalogue_reader.py:160-170 | a marker line before any event raises; otherwise it flags only the last origin and changes nothing else |
| IsfReader.EventStep | eqcat/parsers/isf_catalogue_reader.py:172-188 | an `Event` line flushes the open block, opens a new empty one and leaves the section flags as they were |
| IsfReader.OtherLineStep | eqcat/parsers/isf_catalogue_reader.py:190-215 | a line that is no marker, event, header or record of the current section is dropped |
| IsfReader.StepOnMagnitudeRow | eqcat/parsers/isf_catalogue_reader.py:190-208 | a record line of the magnitude section passes every earlier test and reaches the magnitude branch |
| IsfReader.StepOnOriginRow | eqcat/parsers/isf_catalogue_reader.py:190-215 | a record line of the origin section passes every earlier test and reaches the origin branch |
| IsfReader.MagnitudeLineEffect | eqcat/parsers/isf_catalogue_reader.py:201-208 | with a block open, a magnitude line fails exactly when the magnitude parser does; otherwise the block gains the magnitude when its agency is selected, and nothing else changes |
| IsfReader.MagnitudeStep | eqcat/parsers/isf_catalogue_reader.py:190-208 | in the magnitude section a line of magnitude length adds its selected magnitude to the open block; it fails before the first event, or when the magnitude parser fails |
| IsfReader.OriginStep | eqcat/parsers/isf_catalogue_reader.py:190-215 | in the origin section a line of origin length adds its selected origin to the open block; an unselected one changes nothing; it fails when the origin parser fails, or on a selected origin before the first event |
| IsfReader.ReadRowsGrows | eqcat/parsers/isf_catalogue_reader.py:155-216 | the catalogue only grows while reading |
| IsfReader.StepAssembled | eqcat/parsers/isf_catalogue_reader.py:174-181 | a line adds only events with at least one origin and one magnitude |
| IsfReader.ReadRowsAssembled | eqcat/parsers/isf_catalogue_reader.py:179-181 | every event read has at least one origin and one magnitude |
| IsfReader.ReadRowsCount | eqcat/parsers/isf_catalogue_reader.py:172-188 | the events and the open block together never outnumber those at the start plus the `Event` lines read |
| IsfReader.ReadRowsOpensBlock | eqcat/parsers/isf_catalogue_reader.py:172-188 | once an `Event` line is read, a block stays open to the end |
| IsfReader.ReadFile | eqcat/parsers/isf_catalogue_reader.py:146-216 | the catalogue carries the given id and name |
| IsfReader.ReadFileCount | eqcat/parsers/isf_catalogue_reader.py:146-216 | there are fewer events than `Event` lines, because the last block is never flushed; a file with one event gives an empty catalogue |
| IsfReader.Closed | eqcat/parsers/isf_catalogue_reader.py:174-181 | closing the open block keeps the events read in front and adds at most one |
| IsfReader.ReadFileFlushed | eqcat/parsers/isf_catalogue_reader.py:146-216 | corrected: fails exactly when the code as written fails, and extends the catalogue the code as written returns |
| IsfReader.ReadFileFlushedKeepsLast | eqcat/parsers/isf_catalogue_reader.py:146-216 | corrected: a last block with origins and magnitudes is kept, as one more event; no more events than `Event` lines, each with origins and magnitudes |
| Converters.HeaderCheck | eqcat/parsers/converters.py:34-42 | a key is kept exactly when it is both an input key and a catalogue key |
| Converters.HeaderCheckIsFilter | eqcat/parsers/converters.py:34-42 | the result is the input keys filtered by membership, in input order |
| Converters.HeaderCheckIdempotent | eqcat/parsers/converters.py:34-42 | checking the checked keys again changes nothing |
| Converters.FloatCell | eqcat/parsers/converters.py:50-54 | NaN exactly for a blank value; otherwise the parsed number, or an error when it does not parse |
| Converters.FloatCheck | eqcat/parsers/converters.py:45-55 | exactly one cell is appended and the column is otherwise kept: NaN for a blank value, else the float read |
| Converters.IntCheck | eqcat/parsers/converters.py:58-68 | exactly one cell is appended: NaN for a blank value, else the integer read |
| Converters.FloatCheckOfRendered | eqcat/parsers/converters.py:45-55 | a rendered whole number is appended as its value |
| Converters.IntCheckOfRendered | eqcat/parsers/converters.py:58-68 | a rendered whole number is appended as its value |
| Converters.ChecksOfBlank | eqcat/parsers/converters.py:50-67 | a blank value appends NaN in both checks |
| Converters.EventId | eqcat/parsers/converters.py:163-167 | the id is the catalogue id, `_` and six or more digits |
| Converters.EventIdCounter | eqcat/parsers/converters.py:163-168 | the digits after `_` read back as the counter |
| Converters.EventIdInjective | eqcat/parsers/converters.py:163-168 | distinct counters give distinct ids |
| Converters.HypocentreMagnitudes | eqcat/parsers/converters.py:171-183 | `mb` exactly when m_b is truthy and `Ms` exactly when m_s is truthy, in that order, authored by the hypocentre source |
| Converters.ConvertRecord | eqcat/parsers/converters.py:166-219 | two origins: the prime hypocentre, then the centroid with id + `-C`; the centroid carries one `Mw` keyed to the centroid id and authored by the catalogue; the event magnitudes are the hypocentre's then the `Mw` |
| Converters.Parse | eqcat/parsers/converters.py:155-220 | one event per record, in order, the i-th with counter i + 1 |
| Converters.ParseIdsDistinct | eqcat/parsers/converters.py:163-168 | the events of a parse have distinct ids |
| Converters.ParseEventId | eqcat/parsers/converters.py:163-168 | event i gets the id with counter i + 1 |
| Converters.FromCatalogue | eqcat/parsers/converters.py:143-153 | nothing exactly for an empty catalogue; otherwise a catalogue with the given id and one event per record |
| Converters.ConvertedSelectsHypocentre | eqcat/parsers/converters.py:199-204 | the origin selected for a converted event is its hypocentre |
| Converters.ConvertedReportable | eqcat/parsers/converters.py:199-216 | a converted event reports only its hypocentre, and only when it has an `mb` or `Ms`; the centroid is never reported |
| IscDownloader.UseMirror | eqcat/isc_downloader.py:82-84 | only the server changes |
| IscDownloader.KeyIndex | eqcat/isc_downloader.py:102 | the first position of the name, or none exactly when no field has it |
| IscDownloader.FieldValue | eqcat/isc_downloader.py:114 | fails exactly when the text has no `=`; otherwise the part after the first `=`, up to any next one |
| IscDownloader.PrefixOfAssignment | eqcat/isc_downloader.py:103-104 | `prefix=value` splits back into prefix and value |
| IscDownloader.Reassigned | eqcat/isc_downloader.py:103-104 | the field keeps its name and parameter name, and reads back the new value when it holds no `=` |
| IscDownloader.Assign | eqcat/isc_downloader.py:103-104 | field i keeps its parameter name and takes the value; every other field, the names, the order and the server are unchanged |
| IscDownloader.SetField | eqcat/isc_downloader.py:100-104 | an unknown name fails; otherwise the parameter name before `=` is kept and the value replaced, and other fields, order, server and names are unchanged |
| IscDownloader.SetFieldLastWins | eqcat/isc_downloader.py:100-104 | setting a field twice equals setting it once to the second value |
| IscDownloader.SetFieldLayout | eqcat/isc_downloader.py:100-104 | names and parameter names of all fields are kept |
| IscDownloader.Texts | eqcat/isc_downloader.py:141-142 | the request texts, in insertion order |
| IscDownloader.CreateUrl | eqcat/isc_downloader.py:138-144 | the URL starts with the server |
| IscDownloader.QueryIsJoin | eqcat/isc_downloader.py:140-144 | the query is the texts joined by `&` with a trailing `&` |
| IscDownloader.UrlRoundTrip | eqcat/isc_downloader.py:138-144 | without `&` in the texts, splitting the query on `&` gives back the texts and a final empty part |
| IscDownloader.MirrorSameQuery | eqcat/isc_downloader.py:82-84 | the mirror URL is the mirror server followed by the same query |
| IscDownloader.SaveLine | eqcat/isc_downloader.py:114-116 | a field without `=` fails, as the index into its split does |
| IscDownloader.SaveLines | eqcat/isc_downloader.py:112-118 | one line per field in order; fails exactly when some field has no `=` |
| IscDownloader.SaveSettings | eqcat/isc_downloader.py:108-120 | saving fails exactly when some field has no `=` |
| IscDownloader.SaveSettingsLines | eqcat/isc_downloader.py:108-120 | with plain fields, the lines of the saved file are the saved lines, one per field in order |
| IscDownloader.SaveLineOfPlain | eqcat/isc_downloader.py:114-116 | a plain field is written as `name=value`, with `Null` for an empty value |
| IscDownloader.FileLines | eqcat/isc_downloader.py:128 | the lines of a file hold no line break |
| IscDownloader.LoadLine | eqcat/isc_downloader.py:129-132 | a line without `=` fails |
| IscDownloader.LoadLines | eqcat/isc_downloader.py:128-132 | loading keeps server, length and names |
| IscDownloader.LoadSettings | eqcat/isc_downloader.py:124-134 | loading keeps server, length and names |
| IscDownloader.LoadSavedLine | eqcat/isc_downloader.py:129-132 | loading a saved line sets the field to its value, with `Null` mapped back to empty |
| IscDownloader.LoadLineRestores | eqcat/isc_downloader.py:129-132 | loading the k-th saved line restores the k-th field |
| IscDownloader.LoadOverlay | eqcat/isc_downloader.py:128-132 | loading the saved lines from position k on restores the remaining fields |
| IscDownloader.SaveLoadRoundTrip | eqcat/isc_downloader.py:108-134 | for distinct names and values without `=`, line breaks or the literal `Null`, loading the saved file into settings with the same layout restores the settings |
| IscDownloader.Blocks | eqcat/isc_downloader.py:185-187 | block starts run from the first year in steps while below the stop; each block ends split - 1 years later but never after the cap |
| IscDownloader.BlocksSpaced | eqcat/isc_downloader.py:185-187 | the starts of any two blocks lie at least one step apart, in order |
| IscDownloader.BlocksOrdered | eqcat/isc_downloader.py:185-187 | each block ends before any later one starts |
| IscDownloader.YearBlocks | eqcat/isc_downloader.py:185-187 | as written: blocks inside [start, end] with starts below the end year, disjoint and increasing |
| IscDownloader.BlocksBeforeWholeStop | eqcat/isc_downloader.py:185-187 | when the stop is a whole number of steps away, every block ends before it |
| IscDownloader.YearBlocksMissEndYear | eqcat/isc_downloader.py:185-187 | as written, when the span is a multiple of the block length, no block reaches the end year |
| IscDownloader.DefaultYearsOneBlock | eqcat/isc_downloader.py:185-187 | with the default years 2012-2013 and one-year blocks, only 2012 is requested as written; the corrected blocks give 2012 and 2013 |
| IscDownloader.CoveringYearBlocks | eqcat/isc_downloader.py:185-187 | corrected: blocks inside [start, end], disjoint and increasing, the first starting at the start year and the last ending at the end year |
| IscDownloader.BlocksCover | eqcat/isc_downloader.py:185-187 | every year below the stop lies in its block |
| IscDownloader.CoveringYearBlocksCover | eqcat/isc_downloader.py:185-187 | every year from start to end lies in exactly one corrected block |
| IscDownloader.ExtractBlock | eqcat/isc_downloader.py:156-168 | empty unless both markers occur; the text from the first `DATA_TYPE` to one before the first `STOP`; empty when `STOP` comes first but not at position 0 |
| IscDownloader.ExtractBlockBetweenMarkers | eqcat/isc_downloader.py:156-161 | the block starts with `DATA_TYPE` and holds no `STOP` |
| IscDownloader.ExtractBlockStopFirst | eqcat/isc_downloader.py:157-161 | a `STOP` at position 0 makes the slice end at -1, so the block runs to the page's last character but one |
| IscDownloader.LinesStart | eqcat/isc_downloader.py:196 | the cut lies within the chunk, at its start or right after a line break, and at the start when no line is dropped |
| IscDownloader.AfterLines | eqcat/isc_downloader.py:196 | the result is a suffix of the chunk |
| IscDownloader.DropTwoLines | eqcat/isc_downloader.py:196 | the result is a suffix of the chunk |
| IscDownloader.DropTwoLinesOfHeader | eqcat/isc_downloader.py:194-196 | two header lines are dropped exactly, leaving the rest |
| IscDownloader.RequestValue | eqcat/isc_downloader.py:180-181 | an unknown name raises `KeyError`; otherwise the field's value |
| IscDownloader.IntStringHasNoEquals | eqcat/isc_downloader.py:188-189 | a year written as an integer holds no `=` |
| IscDownloader.BlockSettings | eqcat/isc_downloader.py:188-189 | succeeds exactly when both year fields exist; the request then reads back the block's years, keeps its layout and leaves every other field unchanged |
| IscDownloader.FetchBlock | eqcat/isc_downloader.py:188-196 | a block is fetched exactly when its settings can be made, and leaves those settings behind |
| IscDownloader.DownloadBlocks | eqcat/isc_downloader.py:185-198 | the text so far stays a prefix, and the settings keep their layout |
| IscDownloader.GetCatalogue | eqcat/isc_downloader.py:172-198 | as written: without blocks, one page is cut and the settings are unchanged; with blocks, a missing start year raises `KeyError`; the settings keep their layout |
| IscDownloader.RequestYears | eqcat/isc_downloader.py:180-181 | a missing start year raises `KeyError`; the years are the integers read from the request fields |
| IscDownloader.RequestYearsOfInts | eqcat/isc_downloader.py:180-181 | years written into the request as integers are read back as those integers |
| IscDownloader.GetCatalogueCorrected | eqcat/isc_downloader.py:172-198 | corrected: without blocks it is the code as written; with blocks, a missing start year raises `KeyError`; the settings keep their layout |
| IscDownloader.GetCatalogueOfIntYears | eqcat/isc_downloader.py:180-198 | with integer years in the request, the code as written downloads the blocks of `range(StartYear, EndYear, SplitYears)` and the corrected version those up to the end year |
| IscDownloader.GetCatalogueMissesEndYear | eqcat/isc_downloader.py:180-189 | as written, with integer years and a span that is a whole number of blocks, the download succeeds but the settings left behind end before the end year |
| IscDownloader.FirstBlockKept | eqcat/isc_downloader.py:194-198 | the first year's block opens the catalogue with its header |
| IscDownloader.DownloadBlocksLastYear | eqcat/isc_downloader.py:185-189 | the settings left behind carry the last block's end year |
| IscDownloader.FetchBlockKeepsYears | eqcat/isc_downloader.py:188-189 | a block fetch succeeds and keeps both year fields when the request names them |
| IscDownloader.DownloadBlocksOk | eqcat/isc_downloader.py:185-198 | every block is fetched when the request names both years |
| IscDownloader.GetCatalogueReachesEndYear | eqcat/isc_downloader.py:180-189 | corrected: with integer years, the download succeeds and the settings left behind end at the end year itself |

## Left out

- **Floating point.** Floats are exact reals. This affects several operations:
  - rounding in `decimal_time`, `decimal_year` and the microsecond product of `get_time_from_str`;
  - `{:.2f}`, which is modelled only by its shape (`Catalogue.Fixed2`);
  - the `f2`/`f4` column widths of the tables.
- **`float()` and `int()`.** They are modelled on plain decimal text with an optional sign and surrounding whitespace. Exponents, `inf`, `nan` and underscores are not modelled.
- **The decoders.** `eqcat/parsers/base.py` is not part of this model. `_to_str`, `_to_int` and `_to_float` are given the behaviour the format calls for: `_to_str` strips whitespace and returns the possibly empty text; `_to_int` and `_to_float` give `None` for blank or unreadable text.
- Decoders.ToStr: assumes that `_to_str`, defined in `eqcat/parsers/base.py` (not part of this model), returns the stripped text, empty for a blank field, and never `None`. A blank origin id or author is therefore stored as the empty string, and a magnitude id built from it has an empty field in that place. A `_to_str` that returned `None` would instead give `None|…` under `"{:s}".format`.
- **Partial updates before an exception.** An exception is an `Err` that carries no state, so the model drops the partial in-place update Python leaves behind. When `merge_secondary_magnitudes` raises partway through its loop (`eqcat/isf_catalogue.py:259-270`), the magnitudes it has already appended stay in `self.magnitudes`. Likewise, the origins already merged stay in `merge_secondary_origin`, and the events already merged stay in `merge_second_catalogue`. No caller in the core catches these errors.
- **The decoder import.** The reader imports `_to_string` but calls `_to_str`. The model calls the decoder as if it had been imported under the name used.
- **Files, the network and messages.**
  - The `open`/`readlines` shell of `read_file` is out: the model takes the lines.
  - The page fetch of `DownloadBlock` is the `fetch` parameter.
  - The output file of `GetCatalogue` is out: the model returns its text.
  - The files of `SaveSettings`/`LoadSettings` are strings.
  - `ListFields` and every `print` are out.
- **The end of `read_file`.** The last event block is never added to the catalogue. `IsfReader.ReadFile` follows the code; `IsfReader.ReadFileFlushed` is the corrected reader (see Findings).
- **Non-catalogue arguments.** The `isinstance` checks that raise on a non-catalogue, non-origin or non-magnitude argument cannot fail in a typed model.
- **The `tol` argument** of `compare_magnitude` is ignored by the code and is not modelled.
- **Aliasing.** The adopted magnitude list in `merge_secondary_magnitudes` is shared by reference; a functional model copies it.
- **`numpy` details.** Array allocation and dtypes are out; rows are datatypes, and texts are cut to their declared widths.
- **GCMT records.**
  - The GCMT parser and classes are abstract inputs with only the fields read.
  - The `tensor` attribute copied onto each event is not modelled.
  - A missing GCMT moment magnitude is not modelled.
- **The CSV parser.** The row loop of `GenericCataloguetoISFParser.parse`, `GeneralCsvCatalogue` and `GenericCataloguetoGCMT.export` are out. The export refers to an undefined name.
- **The CSV float column fold.** `_float_check` is modelled one cell per call; no lemma folds it over a whole column.
- **`SplitYears`.** It is a natural number. A negative value, which Python's `range` would accept, is not modelled.
- **`catalogue_query_tools.py`, the geodesy and regression helpers of `utils.py`, and plotting.** These are numeric or I/O code outside the core.
- Tables.OriginRowOf: the depth solution column is `a1` text in the source, where a number is converted to its text; the model keeps the number, because Python's number-to-text conversion is not modelled.

## Findings

| source | as written | input that shows it | evidently intended | confidence | as-written member | corrected member |
|---|---|---|---|---|---|---|
| eqcat/isc_downloader.py:185-187 | the blocks are `range(StartYear, EndYear, SplitYears)`, so no block starts at the end year; when the span is a multiple of the block length, the end year is never requested (`IscDownloader.YearBlocksMissEndYear`, `IscDownloader.GetCatalogue`) | default settings (2012 to 2013) with `SplitYears=1`: only 2012 is downloaded, while the unsplit request covers 2013 too | `range(StartYear, EndYear + 1, SplitYears)`: every year from start to end in exactly one block (`IscDownloader.CoveringYearBlocksCover`, `IscDownloader.GetCatalogueCorrected`) | high (not executed) | IscDownloader.GetCatalogueMissesEndYear | IscDownloader.GetCatalogueReachesEndYear |
| eqcat/parsers/isf_catalogue_reader.py:155-216 | a block is added to the catalogue only when the next `Event` line closes it; the loop ends without closing the last one, so the last event of every file is lost | a file with one `Event` line, one selected origin line and one selected magnitude line gives an empty catalogue | after the loop, the open block is flushed like the others, so every event with origins and magnitudes is kept | high (not executed) | IsfReader.ReadFileCount | IsfReader.ReadFileFlushedKeepsLast |
