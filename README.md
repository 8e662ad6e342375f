# Employee anniversary filter — a Dafny model

This project models the two scripts of a small serverless playground.

- `anniversary/main.py` holds the handler `get_employees_anniversary`. It takes a
  payload naming a tenure (`years_of_service`), a source parquet object
  (`bucket`, `key`) and a destination. It keeps the employee rows whose start
  year lies exactly that many years before the current year, writes them as
  CSV to the destination, and returns a JSON envelope.
- `anniversary/datagenerator.py` fabricates the employee table. It holds
  `date_generator`, `create_bucket` and `employee_data_generator`.

Both scripts are pure apart from their storage, clock and random calls. They
are modelled as datatypes, functions and lemmas:

- the parquet table read by the handler is a `seq<Record>` parameter;
- `datetime.date.today().year` is a `currentYear` parameter;
- every random draw is a parameter whose range a `requires` clause states;
- every storage call is either assumed to succeed (the handler) or is an
  abstract outcome (`ServiceOutcome`, `WriteOutcome`).

Files:

- `Wrappers.dfy`: `Option` and `Result`.
- `PyInt.dfy`: `int(s)` on an ASCII string. It accepts optional surrounding
  whitespace, an optional sign, and digits grouped by single underscores. Its
  partner is the decimal rendering `ShowInt`.
- `Calendar.dfy`: the validity rule of the `datetime.date` constructor.
- `Employees.dfy`: the four-column employee record.
- `Anniversary.dfy`: the handler. It covers payload validation, the
  pandas-style filter (a mask, then boolean indexing over rows that keep
  their DataFrame index label), and the envelope.
- `DataGenerator.dfy`: the generator.
- `RoundTrip.dfy`: what the handler returns on a generated table.

Behaviour the model keeps from the code:

- The tenure is `currentYear - year(start_date)`. Month and day are ignored,
  so a start on 31 December counts as one year on the next 1 January.
- The error message says "4 digit year", but the code accepts any integer
  `int()` does. That includes negative and five-digit values.
- The request fields are `years_of_service`, `bucket`, `key` and
  `destination`. The success object has the keys `status` and `result`, and
  `result` holds `file_path` and `rows_returned`.
- The docstring of `create_bucket` promises "True if bucket created, else
  False". The code returns no value (`None`) when a credential variable is
  missing, because that `except` branch only logs. The model follows the code.
- The docstring of `employee_data_generator` says it writes the data in three
  formats (csv, parquet, json). The code writes one parquet file,
  `s3://<bucket>/sample.parquet`. The model follows the code.
- `employee_data_generator` does not create the bucket itself. The
  command-line entry point calls `create_bucket` first.
- The handler's catch-all storage branch does not reliably produce an error
  envelope, because `json.dumps` cannot encode an exception object.

## Model

| member | source | states |
|---|---|---|
| `PyInt.ParseShowInt` | anniversary/main.py:24 | `int()` reads back every integer's decimal rendering, with any ASCII whitespace around it |
| `PyInt.ParseInt` | anniversary/main.py:24 | `int()` of a string: a successful parse needs at least one digit in the string |
| `PyInt.ParseRejectsForeign` | anniversary/main.py:24 | an ASCII character other than whitespace, a digit, a sign or `_` makes `int()` raise ValueError |
| `PyInt.ShowNatValue` | anniversary/main.py:24 | the decimal digits of `n` have value `n` under the parser's digit reading |
| `Anniversary.Handle` | anniversary/main.py:13-52 | an error envelope comes with nothing written; a "done" envelope names the file written and counts exactly the rows written there |
| `Anniversary.MissingFieldMessage` | anniversary/main.py:32-33 | for a plain printable key (no quote, no backslash), the KeyError message is the key in single quotes followed by " required in payload" |
| `Anniversary.ParsePayload` | anniversary/main.py:22-35 | validation succeeds exactly on a payload with all four fields and an integer tenure, and then carries the parsed tenure and the three strings; every failure carries the invalid-year message or one of the four missing-field messages |
| `Anniversary.Load` | anniversary/main.py:38-40 | the loaded frame has one row per stored record, in stored order, under the index 0, 1, 2, ... |
| `Anniversary.Tenure` | anniversary/main.py:41-43 | the year difference `currentYear - year(start_date)`; its properties are stated by `Anniversary.SelectIgnoresMonthDay` and `Anniversary.YearBoundaryCountsAsFullYear` |
| `Anniversary.Mask` | anniversary/main.py:43 | the mask has one entry per row, true exactly when the row's start year is `currentYear - year` |
| `Anniversary.NonIntegerYearRejected` | anniversary/main.py:24-31 | a present but non-integer `years_of_service` gives the fixed "Year must be a valid 4 digit year" envelope, whatever the other fields are, and nothing is written |
| `Anniversary.AbcYearRejected` | anniversary/main.py:24-31 | the tenure "abc" gives the fixed invalid-year message |
| `Anniversary.FirstMissingFieldReported` | anniversary/main.py:24-35 | the fields are checked in the order years_of_service, bucket, key, destination; the first missing one is reported as `'<field>' required in payload` |
| `Anniversary.SuccessIffValid` | anniversary/main.py:22-52 | the handler reports "done" exactly when all four fields are present and the tenure is an integer |
| `Anniversary.Compress` | anniversary/main.py:43 | boolean indexing keeps exactly the elements under a true mask entry and never adds rows |
| `Anniversary.Select` | anniversary/main.py:43 | a row is kept if and only if it is in the frame and its tenure equals the requested year |
| `Anniversary.SelectAppend` | anniversary/main.py:43 | filtering a concatenation is the concatenation of the filtered parts |
| `Anniversary.SelectIdempotent` | anniversary/main.py:43 | filtering the filter's output with the same year and current year returns the same rows |
| `Anniversary.SelectKeepsOrder` | anniversary/main.py:43 | rows in original order stay in original order after filtering |
| `Anniversary.SelectLoadExact` | anniversary/main.py:38-45 | each written row is a matching source row under its original index, all columns unchanged, in source order; every matching source row is written |
| `Anniversary.SelectCount` | anniversary/main.py:43-50 | the number of kept rows equals the number of source rows whose tenure matches |
| `Anniversary.SelectIgnoresMonthDay` | anniversary/main.py:41-43 | frames that agree on index labels and start years keep the same rows: month and day never matter |
| `Anniversary.ValidPayloadSucceeds` | anniversary/main.py:37-52 | on a valid payload the envelope is "done" with `file_path` equal to `destination` and `rows_returned` equal to the matching count (zero included), and exactly the matching rows are written there |
| `Anniversary.HandleIgnoresMonthDay` | anniversary/main.py:41-52 | tables whose rows agree in start year get the same envelope |
| `Anniversary.ExportIsFixedPoint` | anniversary/main.py:43-45 | re-filtering the written rows with the same inputs yields the same rows |
| `Anniversary.YearBoundaryCountsAsFullYear` | anniversary/main.py:41-43 | a 31 December start counts as one year of tenure in the next calendar year |
| `Calendar.MonthLengthBounds` | anniversary/datagenerator.py:27-28 | every month of every year has 28 to 31 days, and only February of a common year has exactly 28 |
| `Calendar.MakeDate` | anniversary/datagenerator.py:28 | `datetime.date` succeeds exactly for a year in 1..9999, a month in 1..12 and a day within the month's length, and then holds those three values |
| `DataGenerator.WindowDateIsValid` | anniversary/datagenerator.py:25-28 | every year 1990..2021, month 1..12, day 1..28 is a valid `datetime.date`, in leap and common years |
| `DataGenerator.Day29DependsOnLeapYear` | anniversary/datagenerator.py:27-28 | day 29 would fail in February 2021 and succeed in February 2020, so 28 is the largest safe bound |
| `DataGenerator.DateGenerator` | anniversary/datagenerator.py:14-28 | the generated date is valid, carries the drawn year, month and day, and lies in 1990..2021, 1..12, 1..28 |
| `DataGenerator.CreateBucket` | anniversary/datagenerator.py:31-56 | True exactly on success with credentials; False exactly on ClientError; no value (None) exactly when a credential variable is missing or boto3 raises KeyError, both caught by `except KeyError`; any other error propagates |
| `DataGenerator.BuildTable` | anniversary/datagenerator.py:104-112 | row i combines the i-th name, date, department and role; every department and role is from its fixed list; every start date is valid and in 1990..2021 |
| `DataGenerator.EmployeeDataGenerator` | anniversary/datagenerator.py:59-124 | more than 1,000,000 rows raises ValueError with the fixed message before generating; otherwise the table built from the draws (`BuildTable`, `num_of_rows` rows, none for a negative count) is written to `s3://<bucket>/sample.parquet`, and the result is True exactly when the write succeeds |
| `DataGenerator.DefaultRowsAccepted` | anniversary/datagenerator.py:59 | the default count of 1,000,000 rows, the maximum itself, is accepted and builds a million rows |
| `RoundTrip.GeneratedTenureBounds` | anniversary/datagenerator.py:25 | every generated row has a tenure between currentYear - 2021 and currentYear - 1990 |
| `RoundTrip.TenureOutsideWindowMatchesNothing` | anniversary/main.py:43-52 | on a generated table, a tenure outside that range gives a "done" envelope with zero rows |
| `RoundTrip.EarliestYearIsFound` | anniversary/main.py:43-50 | if some row was drawn in 1990, asking for currentYear - 1990 years returns at least one row |

## Left out

- Storage I/O. `pq.read_table`, `to_csv`, `to_parquet`, `boto3.client` and the module-level `s3fs` client are foreign calls. The table read is a parameter, and the handler's writes are assumed to succeed. The generator's write and the bucket creation are abstract outcomes.
- The handler's catch-all `except Exception` branch. It passes an exception object to `json.dumps`, which cannot encode it, so the branch does not reliably yield an envelope.
- JSON encoding. `json.dumps` is not modelled: the envelope is a datatype holding the dictionary's content.
- The CSV text format of `to_csv`. Written rows keep their DataFrame index label and all four columns, but the text layout is not modelled.
- Index labels of other parquet files. `Load` gives the frame the index 0, 1, 2, ..., which is what `to_pandas()` restores for a file the generator wrote (pandas stores its RangeIndex as metadata). A source file stored with some other index would keep those labels, and `to_csv` would write them; the model assumes the default index.
- `Anniversary.MissingFieldMessage`: for keys containing a quote, a backslash or a non-printable character, Python's `repr` switches to double quotes or escapes; that is not modelled. Only the four plain payload keys reach this message.
- The wall clock, `datetime.date.today()`. The current year is a parameter.
- Randomness in `random.randint`, `random.choices` and Faker. The draws are parameters. No distribution or uniformity is claimed, so the generate-then-filter property is stated on the condition that some row was drawn in 1990.
- `pd.to_datetime` and the pyarrow conversion options. They change the column's type only; year, month and day are kept, so the model treats them as the identity on dates.
- `PyInt.ParseInt`: Unicode digits and whitespace, which CPython also accepts, are not modelled. Neither is the digit-count limit of newer CPython versions, nor non-string payload values that `int()` would also take.
- The handler's `context` argument. It is never used.
- The command-line entry point and argparse, at anniversary/datagenerator.py:127-140.
- Logging calls.
