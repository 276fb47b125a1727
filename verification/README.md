# Exam timetable search: a Dafny model

The exam timetable application turns the exam board's spreadsheets into exam
records. It does this in three places:

- **Search service** (`server/index.ts`). For every `GET /api/search` it looks
  the qualification up in a fixed table of eight workbook files. It reads the
  sheet whose lower-cased name contains "all papers" or "allpapers" and maps each
  row to an exam: spreadsheet serial dates become long dates such as
  "1 January 1970", and bare "H.M" durations get units. It then keeps the exams
  whose subject or paper contains the search term, ignoring case.
- **TypeScript converter** (`scripts/convert-excel.ts`). It writes an ISO-date
  snapshot of every qualification. Its sheet test is stricter, it accepts more
  column aliases, and it catches every failure inside one file.
- **JavaScript converter** (`scripts/convert-excel.js`). It reads only a sheet
  named exactly "All papers", reads one column per field, and catches failures
  per qualification in the batch loop.

Spreadsheet cells are JavaScript values: a number, a string or absent. The
model keeps that. `row.X || ''` is the first *truthy* cell of its columns
(0 and "" are falsy), so a field can hold a number at run time even though
the source types it as a string. That matters in the service in two places:

- `duration.includes` throws on a numeric duration.
- `exam.subject.toLowerCase()` throws on a numeric subject.

Each exception is modelled as a `Failure` and follows the source's own
`try`/`catch`.

The modules are:

- `Calendar`: the proleptic Gregorian calendar.
  - `CivilFromDays` and `DaysFromCivil` convert between a day count and a date.
  - They are proved mutually inverse.
  - They are proved to agree with a month-by-month `NextDay`.
- `Text`: ASCII lower-casing, `includes` (proved equal to "occurs at some
  index"), `split` with its inverse `Join`, and digit strings.
- `DateText`: the Date range, `toISOString().split('T')[0]` and
  `toLocaleDateString('en-GB', …)`. Each written form has a parser that is
  proved to read it back.
- `Cells`: values, truthiness, the first-truthy-column rule, workbooks.
- `Qualifications`: the file table, and the answer a plain object literal
  gives when it is indexed with a string.
- `Server`, `ConvertTs`, `ConvertJs`: the three pipelines.
- `Snapshot`: the record shape and the empty snapshot that both converters
  start from.
- `Variants`: how the three pipelines relate.

An unknown qualification gets 400 "Invalid qualification"
(server/index.ts:107-110). The handler answers 404 only when a known
qualification's file is missing (server/index.ts:115-118).

## Model

| member | source | states |
|---|---|---|
| Calendar.SplitEra | server/index.ts:36 | a day within a 400-year era splits into a March-based year of that era and a day of that year, inside the year's length |
| Calendar.SplitYear | server/index.ts:36 | a day of a March-based year splits into a month and a day that is valid in that month |
| Calendar.CivilFromDays | server/index.ts:36 | the date of a day count since 1970-01-01 is a valid Gregorian date |
| Calendar.DaysFromCivilOfCivil | server/index.ts:36 | converting a day count to a date and back gives the same day count |
| Calendar.CivilOfDaysFromCivil | server/index.ts:36 | converting a valid date to a day count and back gives the same date |
| Calendar.YearStartMonotone | server/index.ts:36 | later years of an era start later, by at least 365 days a year |
| Calendar.SplitEraUnique | server/index.ts:36 | a year-and-day pair inside the era has only one day number |
| Calendar.SplitYearUnique | server/index.ts:36 | a month-and-day pair inside the year has only one day-of-year |
| Calendar.DaysFromCivilNext | server/index.ts:36 | the next calendar day of a valid date is valid and one day count later |
| Calendar.CivilFromDaysSucc | server/index.ts:36 | day count z + 1 is the calendar day after day count z |
| Calendar.CivilFromDaysEpoch | server/index.ts:35-36 | day 0 is 1 January 1970 and back |
| Text.Lower | server/index.ts:54 | lower-casing keeps the length and maps each character, changing only A-Z |
| Text.LowerIdempotent | server/index.ts:129-130 | lower-casing twice is lower-casing once |
| Text.IncludesIffOccurs | server/index.ts:54 | `includes` holds exactly when the needle occurs at some index of the hay |
| Text.IncludesChar | server/index.ts:78 | a one-character `includes` is membership of that character |
| Text.IncludesSameLength | scripts/convert-excel.ts:41 | a needle as long as the hay is found only when it equals the hay |
| Text.Split | server/index.ts:79 | split gives at least one piece, none of which holds the separator, and joining the pieces gives back the text |
| Text.SplitAtFirst | scripts/convert-excel.ts:22 | splitting a + sep + b, where a has no separator, gives a as the first piece |
| Text.SplitOfJoin | server/index.ts:79 | splitting the join of separator-free pieces gives back the pieces |
| Text.DigitsRoundTrip | scripts/convert-excel.ts:22 | a zero-padded number reads back as the number |
| Text.DecimalRoundTrip | server/index.ts:37-41 | a number written in decimal reads back as the number |
| Cells.FirstTruthy | server/index.ts:71 | `a \|\| b \|\| ''` is the first truthy column in priority order, and "" when none is truthy |
| Cells.FindIndex | server/index.ts:53-56 | `find` gives the first element satisfying the test, and nothing exactly when no element does |
| Qualifications.FileFor | server/index.ts:22-31 | a name finds a file exactly when it is one of the table's own keys, and that file is in the same entry |
| Qualifications.FileForEntry | server/index.ts:22-31 | with distinct keys, each entry's name finds that entry's file |
| Qualifications.ObjectLookup | server/index.ts:107 | indexing the object literal gives the own file name; an inherited member is given exactly for names that are not keys but are inherited members; it is undefined exactly for names that are neither |
| Qualifications.FileTableKeys | server/index.ts:22-31 | the table has the eight listed qualifications |
| Qualifications.FileTableDistinct | scripts/convert-excel.ts:84-93 | no qualification is listed twice |
| Qualifications.FileTableOwnNames | server/index.ts:22-31 | no qualification name is an inherited object member |
| DateText.SerialDate | server/index.ts:36 | every serial names a valid calendar day |
| DateText.RepresentableYear | server/index.ts:36 | a Date in range has a year of at most six digits |
| DateText.IsoDate | scripts/convert-excel.js:6-9 | the ISO date text of the serial's day, and a RangeError exactly when the serial is outside the Date range |
| DateText.IsoDatePart | scripts/convert-excel.ts:22 | `split('T')[0]` of the timestamp is its date part |
| DateText.BodyFields | scripts/convert-excel.ts:22 | the unsigned part of an ISO date, YYYY-MM-DD or YYYYYY-MM-DD, reads back as the date with the year's magnitude |
| DateText.IsoTextHasNoT | scripts/convert-excel.ts:22 | the date part of a timestamp holds no 'T', so splitting at 'T' cannot cut it |
| DateText.IsoRoundTrip | scripts/convert-excel.ts:22 | an ISO date reads back as the same date |
| DateText.IsoDateShape | scripts/convert-excel.ts:22 | for an in-range serial the ISO text reads back as the serial's day, and it has the YYYY-MM-DD shape for years 0 to 9999 |
| DateText.IsoDateEpoch | scripts/convert-excel.js:7-8 | serial 25569 is written 1970-01-01 |
| DateText.IsoDateNextDay | scripts/convert-excel.js:7-8 | serial s + 1 is written as the calendar day after serial s |
| DateText.LongDate | server/index.ts:34-42 | "Invalid Date" outside the Date range, otherwise the "D Month YYYY" text of the serial's day |
| DateText.MonthNumber | server/index.ts:39 | a recognised month name is at that month's place in the list of names |
| DateText.MonthNumberOfName | server/index.ts:39 | each month's name reads back as that month |
| DateText.LongRoundTrip | server/index.ts:37-41 | a long date of a year after the start of the era reads back as the same date |
| DateText.LongDateEpoch | server/index.ts:34-42 | serial 25569 is written "1 January 1970" |
| DateText.BothFormsAgree | server/index.ts:34-42 | the long form and the ISO form of one serial read back as the same day |
| Server.ChooseSheet | server/index.ts:53-61 | the first sheet whose lower-cased name contains "all papers" or "allpapers", or none exactly when no sheet does |
| Server.NormaliseDuration | server/index.ts:76-81 | an empty duration, or one that already has 'h' or 'm', passes unchanged; every result is empty or has 'h' or 'm' |
| Server.DurationField | server/index.ts:77-81 | the duration cell throws a TypeError exactly when it is a nonzero number; a string cell becomes its normalised duration, and a falsy cell becomes "" |
| Server.DurationIdempotent | server/index.ts:76-81 | normalising a normalised duration changes nothing |
| Server.DurationOfDecimal | server/index.ts:79-80 | "H.M" becomes "Hh Mm" with M copied as written, and "00" when M is empty |
| Server.DurationOfWhole | server/index.ts:79-80 | a bare "H" becomes "Hh 00m" |
| Server.DurationDropsLaterPieces | server/index.ts:79 | pieces after the second '.' are dropped |
| Server.DurationOneFive | server/index.ts:79-80 | "1.5" becomes "1h 5m" |
| Server.DurationTwo | server/index.ts:79-80 | "2" becomes "2h 00m" |
| Server.DurationWithUnits | server/index.ts:78 | "1h 30m" and "90m" pass unchanged |
| Server.MapRow | server/index.ts:69-90 | a row maps to an exam of the requested qualification, and fails exactly when its duration is a nonzero number |
| Server.MapRows | server/index.ts:69-91 | one exam per row, in row order, unless some row throws, in which case it fails |
| Server.PaperPriority | server/index.ts:71 | the paper is Title, else Paper Title, else Paper, else "" (the first truthy one) |
| Server.DateField | server/index.ts:74 | a numeric date becomes the long "D Month YYYY" text of its serial's day, or "Invalid Date" outside the Date range; a string date is kept and an absent one becomes "" |
| Server.RowFields | server/index.ts:74-89 | subject and time default to ""; a numeric date becomes the long date of its serial; a string date is kept; an absent date becomes ""; the duration is the normalised string cell, else "" |
| Server.ProcessFile | server/index.ts:44-96 | every exam carries the qualification; an unreadable file or a workbook with no matching sheet gives none |
| Server.ProcessFileRows | server/index.ts:64-95 | the exams are the chosen sheet's rows in order; a nonzero numeric duration anywhere empties the result |
| Server.TestExam | server/index.ts:128-131 | the callback throws exactly when the subject is no string, or the subject does not match and the paper is no string; otherwise it says whether the subject or the paper contains the term, ignoring case |
| Server.FilterExams | server/index.ts:127-132 | fails exactly when some exam throws; otherwise the result is the matching exams, in order, each as often as it occurs |
| Server.KeptSound | server/index.ts:127-132 | every exam the filter keeps matches the term |
| Server.KeptComplete | server/index.ts:127-132 | every exam that matches the term is kept |
| Server.KeptSubsequence | server/index.ts:127-132 | the kept exams appear in the order they had among all exams |
| Server.KeptCount | server/index.ts:127-132 | a matching exam is kept as often as it occurs, and a non-matching one never |
| Server.AnswerFromFile | server/index.ts:112-135 | 404 exactly when the file is missing; a 200 body is the ingested exams, filtered by a non-empty term |
| Server.Search | server/index.ts:98-140 | the status is 200, 400, 404 or 500, and it is 400 exactly when the qualification is empty or not in the table |
| Server.SearchStatusOrder | server/index.ts:102-125 | the checks happen in the source's order: missing qualification, unknown qualification, missing file, no exams, then the filter |
| Server.SearchEmptyTerm | server/index.ts:127-132 | with no search term, a 200 answer returns every ingested exam in order |
| Server.SearchFiltered | server/index.ts:127-135 | with a term, a 200 answer returns exactly the matching ingested exams, in order and with their multiplicity |
| Server.SearchAsWritten | server/index.ts:98-140 | as written, the handler agrees with the corrected handler on every name that is not an inherited object member |
| Server.InheritedNameAnswer | server/index.ts:107-112 | as written, an inherited member name gets 500 where the corrected lookup gives 400 "Invalid qualification" |
| Server.ToStringQuery | server/index.ts:107-112 | `?qualification=toString` gets 500 as written and 400 when corrected |
| Snapshot.EmptyData | scripts/convert-excel.ts:97-100 | the initial snapshot has exactly the table's qualifications, each with an empty list |
| ConvertTs.ExcelDateToString | scripts/convert-excel.ts:19-27 | the ISO date of the serial's day, and "" when `toISOString` throws |
| ConvertTs.ChooseSheet | scripts/convert-excel.ts:40-53 | the first sheet whose lower-cased name contains "all papers" or equals "allpapers", or none exactly when no sheet does |
| ConvertTs.DateField | scripts/convert-excel.ts:67 | a numeric date becomes the ISO date of its serial's day, or "" outside the Date range; any other date is copied, absent included |
| ConvertTs.MapRow | scripts/convert-excel.ts:66-73 | each field is the first truthy alias in priority order, else ""; the date is the ISO date for a number and is copied otherwise |
| ConvertTs.ProcessFile | scripts/convert-excel.ts:29-81 | a missing or unreadable file gives no records |
| ConvertTs.ProcessFileRows | scripts/convert-excel.ts:40-76 | no matching sheet gives none; otherwise one record per row of the chosen sheet, in order |
| ConvertTs.ExcelDateEpoch | scripts/convert-excel.ts:19-22 | serial 25569 is written 1970-01-01 |
| ConvertTs.ExcelDateNext | scripts/convert-excel.ts:19-22 | serial s + 1 is written as the calendar day after serial s |
| ConvertTs.Fill | scripts/convert-excel.ts:103-106 | keys are kept; qualifications not in the batch are untouched; each batch entry holds its own file's records |
| ConvertTs.Convert | scripts/convert-excel.ts:95-106 | the snapshot has exactly the table's qualifications, each with its own file's records |
| ConvertTs.ConvertFileTable | scripts/convert-excel.ts:84-106 | on the real table, eight qualifications, each with its own file's records |
| ConvertTs.ConvertIsolated | scripts/convert-excel.ts:77-80 | one qualification's records depend only on its own file |
| ConvertJs.ChooseSheet | scripts/convert-excel.js:17-22 | a sheet named exactly "All papers", or none exactly when no sheet has that name |
| ConvertJs.DateField | scripts/convert-excel.js:34 | a numeric date throws exactly when it is outside the Date range; any other date is copied |
| ConvertJs.MapRow | scripts/convert-excel.js:33-40 | a row fails exactly when its date throws |
| ConvertJs.MapRows | scripts/convert-excel.js:33-40 | one record per row, in row order, unless some row throws |
| ConvertJs.RowColumns | scripts/convert-excel.js:33-40 | each field reads its one column, "" when falsy; a numeric date becomes its ISO date |
| ConvertJs.ProcessFile | scripts/convert-excel.js:11-41 | an unreadable file throws; a workbook with no "All papers" sheet gives no records |
| ConvertJs.ProcessFileRows | scripts/convert-excel.js:24-40 | an empty sheet gives no records; an out-of-range numeric date throws; otherwise one record per row, in order |
| ConvertJs.Attempt | scripts/convert-excel.js:63-73 | a missing file, or one whose processing throws, leaves the entry unchanged |
| ConvertJs.Fill | scripts/convert-excel.js:62-74 | keys are kept; qualifications not in the batch are untouched; each entry holds its file's records, or keeps its list when that file failed |
| ConvertJs.Convert | scripts/convert-excel.js:55-74 | the snapshot has exactly the table's qualifications; a failed file leaves its qualification with an empty list |
| ConvertJs.ConvertFileTable | scripts/convert-excel.js:44-74 | on the real table, eight qualifications; each one whose file failed holds an empty list |
| ConvertJs.ConvertIsolated | scripts/convert-excel.js:62-74 | one qualification's records depend only on its own file, whatever another file does |
| Variants.SheetTestsNested | scripts/convert-excel.js:18 | every sheet the JavaScript converter reads is accepted by the TypeScript converter, and every sheet the TypeScript converter accepts is accepted by the service |
| Variants.ServerOnlySheet | scripts/convert-excel.ts:40-43 | "AllPapers1" is the service's sheet but not the TypeScript converter's |
| Variants.TsOnlySheet | scripts/convert-excel.js:18 | "ALL PAPERS" is the TypeScript converter's sheet but not the JavaScript converter's |
| Variants.PaperIsTitle | scripts/convert-excel.ts:70 | the service's paper is the TypeScript converter's title |
| Variants.ConvertersAgree | scripts/convert-excel.js:33-40 | for an in-range date, the two converters write the same record exactly when, for each field with fallback columns, the primary column is truthy or every fallback is falsy |

## Left out

- Fractional serials and floating point. Cells hold integers, and an integer
  serial is midnight UTC of its day. A time of day inside the serial, and the
  rounding of `* 86400 * 1000`, are not modelled.
- Time zone and locale. Both date writers are taken in UTC with the en-GB
  month names. `toLocaleDateString` actually uses the host's time zone, which
  can move a date by a day.
- DateText.YearOfEra: years up to 0 are written as the year of the era
  (1 - y) with no era marker. This is not checked against the locale data.
- DateText.LongRoundTrip and DateText.BothFormsAgree are stated for years
  from 1 on only, because the long form drops the era.
- Cells that hold booleans, NaN or dates are not modelled. A cell is a number,
  a string or absent.
- Case mapping is ASCII only. `toLowerCase` maps non-ASCII letters too, and
  the model leaves them unchanged.
- Array-valued query parameters are not modelled: `String(...)` of an array
  joins it with commas. The model takes both parameters as strings, "" when
  absent.
- The server's Express set-up is not modelled: routing, CORS, JSON bodies and
  `listen`. Nor is logging.
- File reading and writing are not modelled: `fs.existsSync`, `XLSX.readFile`,
  `sheet_to_json` and `writeFileSync`.
  - A disk is a map from file name to workbook contents. An unreadable file
    stands for an exception thrown while reading.
  - `sheet_to_json` is taken as given: its rows are part of the sheet.
- `path.join` and the data directory are not modelled; the file name stands
  for the path.
- ConvertTs.ProcessFile: the fallback read of the first sheet when no sheet
  matches is only logged, and is not modelled. Its possible exception (no
  sheets at all) is caught and also gives [].
- ConvertJs.Convert: the snapshot is written even when some qualifications
  failed. The write itself is not modelled.
- Not part of this code, so not modelled:
  - the React front end (src/App.tsx, src/theme.ts), which calls `/api/search`
  - the ad hoc scripts/test-excel.js
- Server.NormaliseDuration guarantees that the result contains 'h' or 'm',
  not always both. The source's comment says "include 'h' and 'm'", but the
  guard passes "90m" through unchanged.

## Findings

| source | as written | input that shows it | evidently intended | confidence | as-written member | corrected member |
|---|---|---|---|---|---|---|
| server/index.ts:107-112 | `fileNameMap[qualification]` indexes a plain object, so an inherited member name gives a truthy non-string; `path.join` then throws and the catch answers 500 | `GET /api/search?qualification=toString` | every name that is not an own key of the table is answered 400 "Invalid qualification" | not executed | Server.SearchAsWritten (shown by Server.InheritedNameAnswer and Server.ToStringQuery) | Server.Search |
