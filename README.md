# Employee ETL transformation, modelled in Dafny

This project models the transformation stage of the employee ETL script
`employeeETL.py`. The stage takes a pandas table of raw employee records,
repairs it, cleans its fields and derives new columns:

- **Row repair** (`transform_data`, lines 201-213):
  - drops every row equal to the header;
  - strips the column labels;
  - removes whitespace from `EmployeeID` and `Department`;
  - applies the hard-coded shift fix to positional row 29.
- **Field cleaning** (lines 216-221):
  - `birthdate_cleaner` rewrites birthdates as `DD/MM/YYYY`, falling back to `01/01/2023`;
  - `name_cleaner` keeps only letters in both name columns.
- **Derived columns** (lines 224-235):
  - `create_fullName` splits first names before capitals and builds `FullName`;
  - its result is stored again as `Full Name`;
  - `calculate_age` gives `Age`;
  - `number_cleaner` cleans `Salary`;
  - `salaryBucketer` gives `SalaryBucket`.
- **Final drop** (line 239): removes `FirstName Cleaned`, `LastName` and `BirthDate`.

The modules follow that structure:

| file | module | what it holds |
|---|---|---|
| `wrappers.dfy` | `Wrappers` | `Option` and `Result`. |
| `text.dfy` | `Text` | Python's whitespace class, `str.strip`, `str.split` with `' '.join`, and decimal digits. |
| `dates.dfy` | `Dates` | Calendar dates, the proleptic Gregorian day number, `DD/MM/YYYY` and year-month-day formats, and the range of a pandas `Timestamp`. |
| `cleaners.dfy` | `Cleaners` | The per-value cleaners: `name_cleaner`, `birthdate_cleaner`, the capital split and full-name join of `create_fullName`, `calculate_age`, `number_cleaner` (with Python's `int()` grammar) and `salaryBucketer`. |
| `frames.dfy` | `Frames` | A `DataFrame` as a value: cells, labels, rows, `df[name]`, column assignment, `drop(columns=…)`, header-row removal and the row-29 patch. |
| `transform.dfy` | `Transform` | Each stage of `transform_data` as a function from frame to frame. The pipeline is `Transform`, and the lemmas here describe its result. |
| `table.dfy` | `Tables` | The table as a mutable `class`, plus `create_fullName` and `transform_data` as methods that change it statement by statement. Each is proved to end in the state the matching `Transform` function computes. |

### How Python behaviour is modelled

- **Cells** are `Nan`, `Str(s)` or `Num(n)`.
- **Exceptions** become `Result` values:
  - `KeyError` for missing labels, listing every label `drop` misses;
  - `AttributeError` for the `.str` accessor on a column holding numbers but no string;
  - `IndexError` for `iloc` outside the table;
  - `TypeError` for a regex or a comparison on the wrong kind of value;
  - `ValueError` for `int()` on a non-integer, and for a date `pd.to_datetime` or `strptime` cannot read or a `Timestamp` cannot hold;
  - `OverflowError` for a date difference that does not fit in int64 nanoseconds (line 127).
- Each stage stops at the first exception, as the Python code does.
- **Assignment** `df[name] = …` overwrites an existing column in place, or appends a new one at the end.
- **Labels** must be distinct once stripped. With duplicate labels, pandas returns frames where this code expects columns.

### What the code does at its edges

- **Header-row comparison.** Rows are compared with the labels as read, before they are stripped (lines 201-206). The labels are stripped afterwards.
- **Identifier cleaning.** The `.str` accessor at line 209 raises `AttributeError` on a column of integers, such as numeric identifiers.
- **Salary parsing.** `number_cleaner` has no fallback value. A salary that is not an integer literal once its letters are removed raises `ValueError` (line 152). A number anywhere in the column raises `TypeError` first, in the letter-removal pass of line 150.
- **Empty names.** `fillna` substitutes only for NaN (line 98). An empty first name stays empty and is stripped away.
- **Birthdates read back.** Line 125 reads the `DD/MM/YYYY` text written at line 71 without a format. Before pandas 2.0 such text is read month first whenever that names a date (see Findings).

### Consequences the proofs expose

- **Both name columns survive.**
  - Line 224 stores the result of `create_fullName` as `Full Name`.
  - That is beside the `FullName` column the function itself adds (line 98).
  - Both survive the final drop. `AfterRepairColumns` states the resulting labels in order.
- **A table with `Salary` at position 4 always fails.**
  - For the column order `EmployeeID, FirstName, LastName, BirthDate, Salary, Department`, position 4 of the line-213 patch is `Salary`, and it is blanked to `''`.
  - `''` is not NaN, so `fillna('0')` leaves it, and `int('')` raises.
  - `TransformFailsWithSalaryAt4` proves that `transform_data` fails on every table whose stripped labels are in that order.

## Model

| member | source | states |
|---|---|---|
| Text.TrimLeftSpec | employeeETL.py:100 | `lstrip` removes exactly the leading run of whitespace: the result is a suffix that starts with a non-space, and everything cut off was whitespace. |
| Text.TrimRightSpec | employeeETL.py:100 | `rstrip` removes exactly the trailing run of whitespace. |
| Text.StripSlice | employeeETL.py:206 | `str.strip()` returns the slice between the leading and trailing whitespace runs. The result neither starts nor ends with whitespace. |
| Text.RemoveSpaces | employeeETL.py:209 | Removing whitespace leaves no whitespace and never lengthens the text. |
| Text.RemoveSpacesAppend | employeeETL.py:209 | Whitespace removal distributes over concatenation, so the order of the other characters is kept. |
| Text.RemoveSpacesNoSpace | employeeETL.py:209 | Text without whitespace is unchanged. |
| Text.Join | employeeETL.py:93 | `' '.join` of non-empty words without whitespace is single-spaced and starts with a non-space. |
| Text.Words | employeeETL.py:91 | `str.split()` yields non-empty words without whitespace. |
| Text.JoinWordsSingleSpaced | employeeETL.py:91-93 | Splitting single-spaced text and re-joining it with `' '` gives the text back. |
| Text.DecimalRoundTrip | employeeETL.py:152 | Reading the decimal spelling of `n` gives `n`. |
| Dates.MonthsFillYear | employeeETL.py:127 | The months of a year add up to its 365 or 366 days. |
| Dates.LeapCount | employeeETL.py:127 | A year has 365 days, plus one if 4 divides it, minus one if 100 does, plus one if 400 does. |
| Dates.DaysBeforeYearClosedForm | employeeETL.py:127 | The days before year `y` follow the Gregorian closed form with the 4/100/400 leap rules. |
| Dates.NextDayNumber | employeeETL.py:127 | The day after a valid date has the next day number. |
| Dates.DayNumberOrder | employeeETL.py:127 | An earlier valid date has a smaller day number. |
| Dates.DayNumberInjective | employeeETL.py:127 | Distinct valid dates have distinct day numbers. |
| Dates.Pad2RoundTrip | employeeETL.py:71 | Reading back a two-digit zero-padded number (`%d`, `%m`) gives the number. |
| Dates.Pad4RoundTrip | employeeETL.py:71 | Reading back a four-digit zero-padded year (`%Y`) gives the year. |
| Dates.Pad2Reads | employeeETL.py:125 | Any two digits are the padding of their value. |
| Dates.Pad4Reads | employeeETL.py:125 | Any four digits are the padding of their value. |
| Dates.DMYRoundTrip | employeeETL.py:71 | Parsing `strftime('%d/%m/%Y')` of a valid date gives the date back. |
| Dates.DMYParsedIsFormatted | employeeETL.py:125 | A `DD/MM/YYYY` text that parses is exactly the formatting of its date. This is the other direction of the round trip. |
| Dates.ParseMonthFirst | employeeETL.py:125 | A format-less read of `NN/NN/YYYY` yields only valid dates. The first field is read as the month whenever that names a date. |
| Dates.MonthFirstSwaps | employeeETL.py:125 | A written date whose day is at most 12 is read back with day and month exchanged. |
| Dates.MonthFirstKeeps | employeeETL.py:125 | A written date whose day is above 12 is read back as itself. |
| Dates.ParseDMY | employeeETL.py:123 | Only valid calendar dates come out of `DD/MM/YYYY` parsing. |
| Dates.ParseYMD | employeeETL.py:68 | Year-month-day parsing yields only valid dates inside the pandas `Timestamp` range. Anything else coerces to NaT. |
| Dates.YMDRoundTrip | employeeETL.py:67-68 | A valid in-range date written `YYYY-MM-DD` or `YYYY/MM/DD` parses back to itself. |
| Cleaners.KeepLetters | employeeETL.py:48 | The regex substitution leaves only characters of `[a-zA-ZÀ-ÿ]` and never lengthens the text. |
| Cleaners.KeepLettersAppend | employeeETL.py:48 | Letter filtering distributes over concatenation, so it keeps the order of what it keeps. |
| Cleaners.KeepLettersCounts | employeeETL.py:48 | Every letter is kept as often as it occurs, and every other character zero times. |
| Cleaners.KeepLettersOfLetters | employeeETL.py:48 | Text made only of letters is unchanged. |
| Cleaners.CleanName | employeeETL.py:47-48 | `name_cleaner` on one value: the result has only letters. |
| Cleaners.CleanNameIdempotent | employeeETL.py:47-48 | Cleaning a name twice is cleaning it once. |
| Cleaners.CleanNameNoSpaceNoDigit | employeeETL.py:47-48 | A cleaned name has no whitespace and no digit. |
| Cleaners.CleanNameExampleBlanks | unittests.py:19 | `'  Carla '` cleans to `'Carla'`. |
| Cleaners.CleanNameExampleDigits | unittests.py:19 | `'Dena99'` cleans to `'Dena'`. |
| Cleaners.CleanNameExampleUnderscore | unittests.py:19 | `'Ellie_J'` cleans to `'EllieJ'`. |
| Cleaners.NameCell | employeeETL.py:48 | `re.sub` on a cell succeeds exactly on strings and returns the cleaned name. Anything else raises `TypeError`. |
| Cleaners.NameCleaner | employeeETL.py:47-48 | The whole column cleans exactly when every cell is a string. Each output is that cell's cleaned name. Otherwise `TypeError`. |
| Cleaners.SentinelIsReference | employeeETL.py:71 | The sentinel `01/01/2023` is the formatting of the reference date 2023-01-01, and it parses back to that date. |
| Cleaners.CleanBirthdate | employeeETL.py:67-71 | The cleaned text is a `DD/MM/YYYY` date. It names the parsed date for a parseable value, and the sentinel's date for a missing or unparseable one. |
| Cleaners.CleanBirthdateFormats | employeeETL.py:67-71 | A valid in-range date in year-month-day form comes out as that date's `DD/MM/YYYY`. |
| Cleaners.CleanBirthdateExample1975 | unittests.py:39 | `1975-03-03` becomes `03/03/1975`. |
| Cleaners.CleanBirthdateExample1980 | unittests.py:39 | `1980-01-01` becomes `01/01/1980`. |
| Cleaners.CleanBirthdateExample2023 | unittests.py:39 | `2023-11-20` becomes `20/11/2023`. |
| Cleaners.CleanBirthdateFallbackExamples | employeeETL.py:71 | An unparseable text and NaN both become exactly `01/01/2023`. |
| Cleaners.BirthdateCleaner | employeeETL.py:67-71 | One output per input, and each output is a `DD/MM/YYYY` text naming a valid date. |
| Cleaners.BirthDateOf | employeeETL.py:67-71 | The date a cleaned birthdate names is valid, a `Timestamp`, and what `DD/MM/YYYY` parsing of the cleaned text gives. |
| Cleaners.InsertSpacesShape | employeeETL.py:91 | After `re.sub(r"([A-Z])", r" \1", x)` on whitespace-free text, every whitespace is one `' '` directly before a capital. Removing the spaces gives the input back. |
| Cleaners.SplitCapitals | employeeETL.py:91-93 | The split first name is single-spaced: no leading, trailing or doubled spaces, and no other whitespace. |
| Cleaners.InsertSpacesAppend | employeeETL.py:91 | Inserting spaces before capitals distributes over concatenation. |
| Cleaners.SplitCapitalsShape | employeeETL.py:91-93 | The re-joined first name has no leading, trailing or doubled spaces. Every space is followed by a capital A-Z. Deleting the spaces gives back the whitespace-free input. |
| Cleaners.SplitCapitalsExample | employeeETL.py:91-93 | `JohnPaul` becomes `John Paul`. |
| Cleaners.SplitCapitalsCell | employeeETL.py:91 | The split succeeds exactly on strings. Anything else raises `TypeError`. |
| Cleaners.FullName | employeeETL.py:98-100 | The full name is NaN exactly when both names are NaN. |
| Cleaners.FullNameJoin | employeeETL.py:98-100 | With trimmed names: an empty first name gives the last name, an empty last name gives the first name, two empty names give `''`, and otherwise the two are joined by one space. |
| Cleaners.FullNameMissingFirst | employeeETL.py:98 | A NaN first name is filled from the last name, giving `last + ' ' + last`. Only NaN is filled, not `''`. |
| Cleaners.FullNameCell | employeeETL.py:98-100 | Adding strings raises `TypeError` exactly when a name is a number. Otherwise the result is the stripped join. |
| Cleaners.AgeFromDays | employeeETL.py:129 | `abs(int(days/365))` is the number of whole 365-day periods in the absolute difference. |
| Cleaners.AgeFromDaysSymmetric | employeeETL.py:129 | A negative day count gives the same age as its opposite. |
| Cleaners.Age | employeeETL.py:127-129 | The age is the number of whole 365-day periods between the two day numbers, whichever date comes first. |
| Cleaners.AgeOfReference | employeeETL.py:123-129 | The sentinel birthdate has age 0. |
| Cleaners.AgeSymmetric | employeeETL.py:127-129 | The age is symmetric in the two dates. |
| Cleaners.Birthday | employeeETL.py:125 | A birthday cell converts to a date only when it is text naming a valid date in the `Timestamp` range. |
| Cleaners.OverflowDays | employeeETL.py:127 | The nanosecond difference overflows int64 exactly when the dates are at least 106752 days apart. |
| Cleaners.CalculateAge | employeeETL.py:123-129 | `calculate_age`, with the birthdays read day first or month first. It succeeds exactly when the reference parses and is a `Timestamp`, and every birthday converts and does not overflow. Each age is that of the birthday on the reference. The errors follow the order of the lines: `OverflowError` exactly when everything converts but some difference overflows (line 127). Every other failure is `ValueError`: a reference that is no date (line 123), a birthday that is no date or no `Timestamp` (line 125), a reference outside the range (line 127), or a NaN birthday (line 129). |
| Cleaners.ReferenceInRange | employeeETL.py:123-127 | The sentinel `01/01/2023` parses to a `Timestamp`, so only the birthdays decide whether line 127 raises. |
| Cleaners.CleanedBirthdatesHaveAges | employeeETL.py:67-129 | A column `birthdate_cleaner` produces is aged exactly when no cleaned date overflows line 127, and otherwise raises `OverflowError`. Each age is that of the cleaned date, and a sentinel birthdate gives 0. |
| Cleaners.OverflowsUpTo | employeeETL.py:125-127 | Against 2023-01-01, a birthday in the `Timestamp` range overflows exactly when it is on or before 22 September 1730. |
| Cleaners.AgeOfText | employeeETL.py:123-129 | One birthday text raises `ValueError` when it does not convert, `OverflowError` when it overflows, and otherwise gets the age of the date it is read as. |
| Cleaners.CalculateAgeOfWritten | employeeETL.py:71-129 | Read day first as intended, a written birthdate raises `ValueError` outside the `Timestamp` range and `OverflowError` when it overflows. Otherwise it is aged as that very date. |
| Cleaners.AgeAsWrittenSwaps | employeeETL.py:71-129 | As written, a birthdate whose day is at most 12 is read with day and month exchanged. It raises, or is aged, as that exchanged date. |
| Cleaners.OverflowExamples | employeeETL.py:67-129 | `1700-01-01` is cleaned to `01/01/1700`, which overflows at line 127. `01/01/1500` raises `ValueError` at line 125. |
| Cleaners.AgesIn1980 | employeeETL.py:127-129 | 12 January 1980 is 43 on 2023-01-01, and 1 December 1980 is 42. |
| Cleaners.AgeAsWrittenExample | employeeETL.py:67-129 | `1980-01-12` is cleaned to `12/01/1980`. Its intended age is 43, but as written it gets 42. |
| Cleaners.DeleteLetters | employeeETL.py:150 | The substitution leaves no letter and never lengthens the text. |
| Cleaners.DeleteLettersAppend | employeeETL.py:150 | Letter deletion distributes over concatenation. |
| Cleaners.DeleteLettersOfNonLetters | employeeETL.py:150 | Text without letters is unchanged. |
| Cleaners.PyInt | employeeETL.py:152 | When `int()` accepts a text, the stripped text is non-empty and holds only digits and underscores, after an optional leading sign (`SignedDigits`). |
| Cleaners.PyIntOfDigits | employeeETL.py:152 | `int()` of a digit string, with or without a minus sign, is its decimal value. |
| Cleaners.PyIntDecimal | employeeETL.py:152 | `int()` reads back the decimal spelling of any integer, positive or negative. |
| Cleaners.PyIntRejects | employeeETL.py:152 | `int()` fails on text holding a character other than a digit, a sign, `_` or whitespace. |
| Cleaners.CleanNumber | employeeETL.py:148-152 | NaN gives 0. A string gives `abs(int(...))` of the text with its letters removed, or `ValueError` when that is not an integer literal. A number raises `TypeError` in the regex. |
| Cleaners.CleanNumberDigitsThenLetters | employeeETL.py:150-152 | Digits followed by letters clean to the number the digits spell. |
| Cleaners.CleanNumberFailures | employeeETL.py:152 | Text containing `$`, `,` or `.` raises `ValueError`. |
| Cleaners.CleanNumberEmpty | employeeETL.py:152 | `''` raises `ValueError`. |
| Cleaners.CleanNumberExample39400 | unittests.py:60 | `39400abc` cleans to 39400. |
| Cleaners.CleanNumberExample10000 | unittests.py:60 | `10000` cleans to 10000. |
| Cleaners.CleanNumberExample75000 | unittests.py:60 | `75000xyz` cleans to 75000. |
| Cleaners.DeleteLettersCell | employeeETL.py:150 | The letter-removing `re.sub` succeeds exactly on strings and raises `TypeError` on anything else. |
| Cleaners.IntCell | employeeETL.py:152 | `abs(int(x))`: `int()` of a string as Python reads it, or `ValueError`. An integer keeps its absolute value, and NaN raises `ValueError`. |
| Cleaners.NumberPasses | employeeETL.py:148-152 | For a cell that is not a number, the two passes give what `CleanNumber` gives. |
| Cleaners.NumberCleaner | employeeETL.py:148-152 | The column cleans exactly when every cell does, each output being `Num` of that cell's value. The error is `TypeError` exactly when some cell is a number, since the letter pass meets it before any `int()` runs. Otherwise it is `ValueError` exactly when some text is not an integer. |
| Cleaners.SalaryBucket | employeeETL.py:173-180 | The bucket is `A` iff 0 < s < 50000, `B` iff 50000 ≤ s ≤ 100000, `C` iff s > 100000, and `''` iff s ≤ 0. So it is total with disjoint cases. |
| Cleaners.SalaryBucketMonotone | employeeETL.py:173-180 | A higher salary never lands in a lower bucket. |
| Cleaners.SalaryBucketExamples | employeeETL.py:173-180 | These are the boundary values: 0, 25000, 50000, 100000 and 100001. |
| Cleaners.SalaryBucketCell | employeeETL.py:173-180 | A string salary cannot be compared, so it raises. A number gets its bucket, and NaN gets `''`. |
| Frames.IndexOf | employeeETL.py:216 | A label is looked up at its first position. |
| Frames.ColumnOf | employeeETL.py:216 | `df[name]` raises `KeyError` naming the label exactly when it is missing. Otherwise it returns that column's cells, top to bottom. |
| Frames.Assign | employeeETL.py:216 | `df[name] = vals` writes `vals` under `name`, in place or appended as a new last column. Every other cell keeps its value, and distinct labels stay distinct. |
| Frames.KeepLabels | employeeETL.py:239 | The kept labels are exactly those not dropped, and they stay distinct. |
| Frames.KeepLabelsTwice | employeeETL.py:239 | Dropping two label sets one after the other is dropping their union. |
| Frames.MissingLabels | employeeETL.py:239 | The labels `drop` reports are exactly the listed labels that are not columns. |
| Frames.MissingLabelsAppend | employeeETL.py:239 | Listing more labels appends their missing ones after those already reported. |
| Frames.DropColumns | employeeETL.py:239 | `drop(columns=…)` raises one `KeyError` exactly when a label is missing, and it lists every missing label in the order given. Otherwise it keeps the other labels in order, with their cells. |
| Frames.HeaderRow | employeeETL.py:202 | The labels, seen as a row of strings. |
| Frames.WithoutRow | employeeETL.py:201-203 | No remaining row equals the header, and no row is added. |
| Frames.WithoutRowKeeps | employeeETL.py:201-203 | Exactly the rows different from the header are kept, and the count falls by the number of header copies. |
| Frames.WithoutRowAppend | employeeETL.py:201-203 | Row filtering distributes over concatenation, so the kept rows stay in their original order. |
| Frames.PatchRow29 | employeeETL.py:212-213 | `IndexError` exactly when there is no row 29 or no column 5. Otherwise cells 2 and 4 move to 3 and 5, cells 2 and 4 become `''`, and no other cell changes. |
| Frames.TryMap | employeeETL.py:48 | `Series.apply` succeeds exactly when every cell does. Otherwise the first failing cell decides the error. |
| Transform.StripNamesIdempotent | employeeETL.py:206 | Stripping the labels again changes nothing. |
| Transform.RemoveSpacesCell | employeeETL.py:209 | A string loses its whitespace and is unchanged when it had none. Any other cell becomes NaN. |
| Transform.RemoveSpacesStr | employeeETL.py:209 | `.str.replace` raises `AttributeError` exactly on a column with a number and no string. Otherwise every cell is cleaned as above. |
| Transform.Relabelled | employeeETL.py:201-206 | Header rows are removed, compared with the unstripped labels, and then the labels are stripped. |
| Transform.CleanIds | employeeETL.py:209 | Raises for the first problem met in evaluation order: `EmployeeID` missing (`KeyError`), `EmployeeID` refused by `.str` (`AttributeError`), then the same two for `Department`. Otherwise both columns lose their whitespace and every other cell is kept. |
| Transform.IntegerIdsRefused | employeeETL.py:209 | A non-empty table whose identifiers are all integers raises `AttributeError` at line 209. |
| Transform.RowRepair | employeeETL.py:201-213 | The row repair fails exactly when line 209 raises on the relabelled table, or when the table has no row 29 or no column 5 (`IndexError`). Otherwise: stripped labels, header rows gone, row 29 blanked at 2 and 4, and identifiers and departments free of whitespace outside row 29. |
| Transform.CleanBirthDates | employeeETL.py:216 | Every birthdate is replaced by its cleaned `DD/MM/YYYY` text, and nothing else changes. |
| Transform.CleanNameColumn | employeeETL.py:220-221 | A name column is cleaned exactly when it exists and holds only strings. Nothing else changes. |
| Transform.CleanFields | employeeETL.py:216-221 | States only the shape: on success the labels and the row count are kept. When it succeeds is stated by `Transform.CleanFieldsOk`, and the values by `Transform.CleanFieldsValues`. |
| Transform.CleanFieldsOk | employeeETL.py:216-221 | Field cleaning succeeds exactly when the three columns exist and both name columns hold only strings. |
| Transform.CleanFieldsValues | employeeETL.py:216-221 | Field cleaning writes the cleaned birthdates and names and keeps every other cell. |
| Transform.SplitColumn | employeeETL.py:91-93 | One split first name per row, or `TypeError` for a cell that is not a string. |
| Transform.FullNameColumn | employeeETL.py:98-100 | One full name per row, or `TypeError` when a name is a number. |
| Transform.SplitFirstName | employeeETL.py:91-95 | `FirstName Cleaned` holds the split first names, and `FirstName` is gone. The labels are the others plus the new one. |
| Transform.AddFullName | employeeETL.py:98-102 | `FullName` holds each row's full name, and the same column is returned. It raises when a needed column is missing or a name is a number. |
| Transform.CreateFullName | employeeETL.py:91-102 | States only the shape: on success one row per input row and one full name per row. The values are stated by `Transform.CreateFullNameValues` and `Transform.CreateFullNameKeeps`. |
| Transform.CreateFullNameValues | employeeETL.py:91-102 | With string names, `create_fullName` succeeds and writes `strip(split(first) + ' ' + last)` per row, and it removes `FirstName`. |
| Transform.CreateFullNameKeeps | employeeETL.py:94-100 | Every other column keeps its cells through `create_fullName`. |
| Transform.AddAge | employeeETL.py:228 | `Age` is the age on 2023-01-01 of each birthdate, read day first. Succeeds exactly when `BirthDate` exists and every birthdate has an age. Otherwise `KeyError` without the column, `OverflowError` when every birthdate converts but some overflows, and `ValueError` otherwise. |
| Transform.AgeOf | employeeETL.py:125-129 | A birthdate cell has an age exactly when it is a `DD/MM/YYYY` date in the `Timestamp` range whose difference from 2023-01-01 does not overflow. |
| Transform.AgeOfCleaned | employeeETL.py:216-228 | A cleaned birthdate has the age of the date it was cleaned from, or none when that date overflows line 127. |
| Cleaners.FillNa | employeeETL.py:148 | `fillna` replaces exactly the NaN cells. |
| Transform.FillNaInvisible | employeeETL.py:148 | Filling NaN with `'0'` does not change what `number_cleaner` computes. |
| Transform.CleanSalary | employeeETL.py:232 | `Salary` is replaced by the cleaned numbers exactly when every salary cleans. Otherwise the error is `KeyError` without the column, `TypeError` when some salary is a number, and `ValueError` otherwise. |
| Transform.AddBuckets | employeeETL.py:235 | `SalaryBucket` holds each row's bucket. A string salary raises `TypeError`. |
| Transform.DeriveNames | employeeETL.py:224 | After the derivations, `FullName` and `Full Name` both hold each row's full name. |
| Transform.AgeAdded | employeeETL.py:228 | Adding `Age` gives every row the age of its own `BirthDate`. |
| Transform.DeriveAges | employeeETL.py:228 | After the derivations, `Age` holds each row's age from its birthdate. |
| Transform.DeriveSalaries | employeeETL.py:232-235 | After the derivations, `Salary` holds the cleaned salary and `SalaryBucket` its bucket. |
| Transform.DeriveKeeps | employeeETL.py:224-235 | Columns the derivations do not write keep their cells. |
| Transform.Derive | employeeETL.py:224-235 | States only the shape: on success the row count is kept. The values are stated by `Transform.DeriveNames`, `Transform.DeriveAges`, `Transform.DeriveSalaries` and `Transform.DeriveKeeps`, and the labels by `Transform.DeriveLabels`. |
| Transform.DeriveOk | employeeETL.py:224-235 | With string names, the derivations succeed exactly when every birthdate has an age (a `Timestamp` date that does not overflow line 127) and every salary cleans. |
| Transform.DeriveLabels | employeeETL.py:224-235 | The labels after the derivations are the old ones without `FirstName`, plus the five written. |
| Transform.DeriveOrder | employeeETL.py:224-235 | The kept labels stay in their order, and `FirstName Cleaned`, `FullName`, `Full Name`, `Age` and `SalaryBucket` follow in that order. |
| Transform.AfterRepair | employeeETL.py:216-239 | States only the shape: on success the row count is kept. When it succeeds is stated by `Transform.AfterRepairOk`, and the result by `Transform.AfterRepairColumns`, `Transform.AfterRepairNames`, `Transform.AfterRepairAges`, `Transform.AfterRepairSalaries` and `Transform.AfterRepairKeeps`. |
| Transform.AfterRepairOk | employeeETL.py:216-239 | After the row repair, the rest succeeds exactly when the four columns used exist, both name columns hold only strings, no cleaned birthdate is so early that line 127 overflows, and every salary cleans. |
| Transform.AfterRepairColumns | employeeETL.py:239 | The final labels are the untouched ones in order, followed by `FullName`, `Full Name`, `Age` and `SalaryBucket`. |
| Transform.AfterRepairNames | employeeETL.py:220-224 | Both full-name columns hold `strip(split(clean(first)) + ' ' + clean(last))`. |
| Transform.AfterRepairAges | employeeETL.py:216-228 | `Age` is the age of the date each raw birthdate cleans to. That is the sentinel's 0 for a missing or unparseable one. |
| Transform.AfterRepairSalaries | employeeETL.py:232-235 | `Salary` and `SalaryBucket` come from each raw salary. |
| Transform.AfterRepairKeeps | employeeETL.py:216-239 | Every column the pipeline does not touch reaches the output unchanged. |
| Transform.Transform | employeeETL.py:201-241 | The output has distinct labels and one row per row that was not a header. |
| Transform.TransformOk | employeeETL.py:201-239 | `transform_data` succeeds exactly when the row repair does and leaves a cleanable table: the four columns, string names, no birthdate on or before 22 September 1730, and salaries that clean. |
| Transform.TransformFailsWithSalaryAt4 | employeeETL.py:212-213 | With the stripped labels `EmployeeID, FirstName, LastName, BirthDate, Salary, Department`, `transform_data` always raises. |
| Transform.SalaryAt4NotCleanable | employeeETL.py:152 | A table in that order whose row-29 salary is `''` cannot be cleaned. |
| Tables.Table.DropHeaderRows | employeeETL.py:201-203 | The loop over the rows leaves exactly the header-free rows in order, and the labels are unchanged. |
| Tables.Table.StripColumnNames | employeeETL.py:206 | The labels are replaced by their stripped forms, and the rows are unchanged. |
| Tables.Table.SetColumn | employeeETL.py:216 | The table afterwards is `Assign` of the table before. |
| Tables.Table.DropLabels | employeeETL.py:239 | The table ends as `DropColumns` computes, or is untouched when it raises. |
| Tables.Table.CleanIdColumns | employeeETL.py:209 | The table ends as `CleanIds` computes, or is untouched when it raises: both right-hand sides are evaluated before either write. |
| Tables.Table.PatchRow | employeeETL.py:212-213 | The table ends as `PatchRow29` computes, with the same exception. Without row 29 or column 4 the table is untouched. With exactly five columns, cell 3 of row 29 already holds cell 2 when the write to cell 5 raises. |
| Tables.Table.RepairRows | employeeETL.py:201-213 | The table ends as `RowRepair` computes, with the same exception. |
| Tables.Table.CleanBirthDateColumn | employeeETL.py:216 | The table ends as `CleanBirthDates` computes, or is untouched when it raises. |
| Tables.Table.CleanNames | employeeETL.py:220-221 | The table ends as `CleanNameColumn` computes, or is untouched when it raises. |
| Tables.Table.CleanFieldColumns | employeeETL.py:216-221 | The table ends as `CleanFields` computes, with the same exception. |
| Tables.Table.AddAgeColumn | employeeETL.py:228 | The table ends as `AddAge` computes, or is untouched when it raises. |
| Tables.Table.CleanSalaryColumn | employeeETL.py:148-152 | The table ends as `CleanSalary` computes. When it raises, the in-place `fillna('0')` has already happened. |
| Tables.Table.AddBucketColumn | employeeETL.py:235 | The table ends as `AddBuckets` computes, or is untouched when it raises. |
| Tables.CreateFullName | employeeETL.py:91-102 | The table and the returned column are those `CreateFullName` computes. When building `FullName` raises, the split and the drop of `FirstName` stay done. |
| Tables.DeriveColumns | employeeETL.py:224-235 | The table ends as `Derive` computes, with the same exception. |
| Tables.TransformData | employeeETL.py:201-241 | `transform_data` ends without an exception exactly when `Transform` succeeds, and then holds its result. Otherwise it raises the same exception. |

## Left out

- `read_csv`, `load_data` (the credentials file, `MongoClient`, `insert_many`, `BulkWriteError`), `main.py` and the `logging` calls: all are I/O or foreign libraries, with no effect on the table.
- pandas' own date parser is not modelled. Line 68 passes the format `%Y/%m/%d` and relies on pandas' leniency to accept `1990-06-12`. The model accepts year-month-day with `-` or `/` inside the `Timestamp` range, and coerces everything else to NaT.
- Cleaners.CalculateAge: reads the birthdays at line 125 day first, as line 71 wrote them, which is the corrected reading of the Findings table. As written, the format-less `pd.to_datetime` differs in two ways:
  - Before pandas 2.0 it reads month first every date whose day is at most 12, so such a birthday is aged as a different date. This is modelled as `CalculateAge` with the `MonthFirst` reading.
  - From pandas 2.0 it infers one format from the first value and raises `ValueError` on a column such as `["03/03/1975", "20/11/2023"]`. This is not modelled.
  - Cleaners.CleanedBirthdatesHaveAges, Transform.AddAge, Transform.AfterRepairAges and Tables.TransformData describe the corrected reading.
- Transform.StrRefused: a column of cells that are all NaN counts as accepted by `.str`, as an `object` column is. A `float64` column of NaN, which pandas refuses, is not told apart, because cells carry no dtype.
- Cleaners.CleanBirthdate: a birthdate cell that is a number is treated as unparseable and gets the sentinel.
- Cleaners.Birthday: a number among the birthdays is treated as no date, giving `ValueError`. pandas would read it as nanoseconds since 1970, but `birthdate_cleaner` only ever passes text.
- Transform.RemoveSpacesCell: line 209's `str.replace('\s', '')` is read as the regular-expression whitespace removal its comment describes. Under a literal (non-regex) default it would change nothing.
- Cleaners.CleanName: line 47's `Series.replace('\s', '')` is modelled as what it does, a whole-value replace of the two-character text `\s`. The whitespace is removed by line 48.
- Cleaners.AgeFromDays: `int(days / 365)` is modelled as integer division truncating toward zero. The floating-point quotient is not modelled, which agrees for any realistic day count.
- Cleaners.PyInt: digits outside ASCII, which Python's `int()` also accepts, are not modelled.
- Frames.Cell: floating-point cells are not modelled. Salaries are text or NaN until `number_cleaner` turns them into integers.
- Transform.Transform: requires the stripped labels to be distinct. With duplicate labels, `df[name]` returns a table instead of a column, which this code does not expect.
- Tables.TransformData: states the exception raised but not the partly transformed table left after one. The same holds for Tables.Table.RepairRows, Tables.Table.CleanFieldColumns and Tables.DeriveColumns; each single-statement method does state it.
- Transform.TransformOk: characterizes when `transform_data` succeeds. Which exception it raises otherwise is stated stage by stage (Transform.RowRepair, Transform.CleanNameColumn, Transform.AddAge, Transform.CleanSalary, Transform.AddBuckets) and by Tables.TransformData.
- Row identity: pandas drops header rows by index label. The model removes them by position, which is the same for the unique index `read_csv` gives.

## Findings

| source | as written | input that shows it | evidently intended | confidence | as-written member | corrected member |
|---|---|---|---|---|---|---|
| employeeETL.py:125 | `pd.to_datetime(birthdays)` without a format reads the `DD/MM/YYYY` text of line 71 month first whenever that names a date (pandas before 2.0) | `1980-01-12` is cleaned to `12/01/1980`, read back as 1 December 1980, and aged 42 instead of 43 | the day-first reading line 71 wrote (`dayfirst=True` or `format='%d/%m/%Y'`) | not executed; medium, since it depends on the pandas version | Cleaners.AgeAsWrittenExample | Cleaners.CalculateAgeOfWritten |
