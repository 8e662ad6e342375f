/**
 * The fixture generator: `date_generator`, `create_bucket` and
 * `employee_data_generator`. Every random draw is a parameter (an index into
 * the population for `random.choices`, a triple for the three `randint`
 * calls, a list of strings for Faker's names), and every storage call is an
 * abstract outcome.
 */
module DataGenerator {
  import opened Wrappers
  import opened Calendar
  import opened Employees

  const FirstYear := 1990   // the company's assumed founding year
  const LastYear := 2021
  const LastDay := 28

  const MaxRows := 1_000_000
  const TooManyRowsMessage := "Row number too large, Try less than 1 million rows"

  const Roles: seq<string> :=
    ["Data Engineer", "Data Scientist", "Engineering Manager", "Software Engineer", "Team Lead"]
  const Departments: seq<string> := ["R&D", "Sales", "Product", "Marketing"]

  // ---------------------------------------------------------------------------
  // date_generator

  /** The three `random.randint` results: year in 1990..2021, month in 1..12, day in 1..28. */
  datatype DateDraw = DateDraw(year: int, month: int, day: int)

  predicate InWindow(d: DateDraw) {
    FirstYear <= d.year <= LastYear && 1 <= d.month <= 12 && 1 <= d.day <= LastDay
  }

  /** Every drawn triple is a real calendar date, in February of leap and common years alike. */
  lemma WindowDateIsValid(d: DateDraw)
    requires InWindow(d)
    ensures MakeDate(d.year, d.month, d.day) == Some(Date(d.year, d.month, d.day))
  {
  }

  /** The day bound cannot be raised: day 29 fails in February of a common year, not of a leap year. */
  lemma Day29DependsOnLeapYear()
    ensures MakeDate(2021, 2, 29) == None
    ensures MakeDate(2020, 2, 29) == Some(Date(2020, 2, 29))
  {
  }

  /** `date_generator()` for the given draws; the `datetime.date` construction never raises. */
  function DateGenerator(d: DateDraw): (r: Date)
    requires InWindow(d)
    ensures IsValidDate(r)
    ensures FirstYear <= r.year <= LastYear && 1 <= r.month <= 12 && 1 <= r.day <= LastDay
    ensures r == Date(d.year, d.month, d.day)
  {
    WindowDateIsValid(d);
    MakeDate(d.year, d.month, d.day).value
  }

  // ---------------------------------------------------------------------------
  // create_bucket

  const AccessKeyVariable := "AWS_ACCESS_KEY_ID"
  const SecretKeyVariable := "AWS_SECRET_ACCESS_KEY"

  /**
   * How the body of the `try` ended once both credentials were read: the
   * bucket was created, boto3 raised ClientError, boto3 raised a KeyError
   * (caught by the same `except KeyError` as a missing variable), or it raised
   * anything else.
   */
  datatype ServiceOutcome = Created | ClientError | KeyErrorRaised | OtherFailure

  /** A Python return value (`None` where the function falls off its end) or an escaping exception. */
  datatype BucketResult = Returned(value: Option<bool>) | Raised

  predicate HasCredentials(env: map<string, string>) {
    AccessKeyVariable in env && SecretKeyVariable in env
  }

  /** `create_bucket(bucket_name)` with the environment `env`; `outcome` is the service's answer for that bucket. */
  function CreateBucket(env: map<string, string>, outcome: ServiceOutcome): (r: BucketResult)
    ensures r == Returned(Some(true)) <==> HasCredentials(env) && outcome == Created
    ensures r == Returned(Some(false)) <==> HasCredentials(env) && outcome == ClientError
    ensures r == Returned(None) <==> !HasCredentials(env) || outcome == KeyErrorRaised
    ensures r == Raised <==> HasCredentials(env) && outcome == OtherFailure
  {
    if AccessKeyVariable !in env then Returned(None)        // KeyError: logged, no return
    else if SecretKeyVariable !in env then Returned(None)
    else
      match outcome
      case Created => Returned(Some(true))
      case ClientError => Returned(Some(false))
      case KeyErrorRaised => Returned(None)                 // KeyError: logged, no return
      case OtherFailure => Raised
  }

  // ---------------------------------------------------------------------------
  // employee_data_generator

  /** The random draws of one run: Faker names, `random.choices` indices and `date_generator` triples. */
  datatype Draws = Draws(names: seq<string>, roles: seq<int>, departments: seq<int>, dates: seq<DateDraw>)

  /** The draws made for `n` rows: four columns of length `n`, every draw within its population. */
  predicate DrawnFor(d: Draws, n: nat) {
    && |d.names| == n && |d.roles| == n && |d.departments| == n && |d.dates| == n
    && (forall i :: 0 <= i < n ==> 0 <= d.roles[i] < |Roles|)
    && (forall i :: 0 <= i < n ==> 0 <= d.departments[i] < |Departments|)
    && (forall i :: 0 <= i < n ==> InWindow(d.dates[i]))
  }

  /** `range(num_of_rows)` and `random.choices(..., k=num_of_rows)` yield no element when the count is not positive. */
  function RowCount(numOfRows: int): nat {
    if numOfRows < 0 then 0 else numOfRows
  }

  /**
   * The DataFrame built from the four columns: row i takes the i-th element of
   * each. The later `pd.to_datetime` conversion keeps year, month and day, so
   * it is the identity on `Date`.
   */
  function BuildTable(d: Draws): (t: seq<Record>)
    requires DrawnFor(d, |d.names|)
    ensures |t| == |d.names|
    ensures forall i :: 0 <= i < |t| ==>
      && t[i].employeeName == d.names[i]
      && t[i].startDate == Date(d.dates[i].year, d.dates[i].month, d.dates[i].day)
      && t[i].department == Departments[d.departments[i]]
      && t[i].role == Roles[d.roles[i]]
    ensures forall r :: r in t ==>
      && r.department in Departments
      && r.role in Roles
      && IsValidDate(r.startDate)
      && FirstYear <= r.startDate.year <= LastYear
  {
    seq(|d.names|, i requires 0 <= i < |d.names| =>
      Record(d.names[i], DateGenerator(d.dates[i]), Departments[d.departments[i]], Roles[d.roles[i]]))
  }

  /** What `df.to_parquet` did. */
  datatype WriteOutcome = Written | WriteFailed

  datatype Generation =
    | RowsRejected(message: string)                             // ValueError, raised before generating
    | Attempted(path: string, table: seq<Record>, returned: bool)

  function ParquetPath(bucketName: string): string {
    "s3://" + bucketName + "/sample.parquet"
  }

  /**
   * `employee_data_generator(bucket_name, num_of_rows)` for the given draws and
   * write outcome. More than a million rows is refused with ValueError before
   * anything is drawn or written. Up to a million rows (a million included) the
   * table, with `num_of_rows` rows (none for a negative count), is written to
   * the bucket's `sample.parquet`, and True is returned exactly when the write
   * succeeded.
   */
  function EmployeeDataGenerator(bucketName: string, draws: Draws, write: WriteOutcome,
                                 numOfRows: int := MaxRows): (r: Generation)
    requires numOfRows <= MaxRows ==> DrawnFor(draws, RowCount(numOfRows))
    ensures numOfRows > MaxRows ==> r == RowsRejected(TooManyRowsMessage)
    ensures numOfRows <= MaxRows ==>
      && r.Attempted?
      && r.path == ParquetPath(bucketName)
      && r.table == BuildTable(draws)
      && |r.table| == RowCount(numOfRows)
      && (r.returned <==> write == Written)
  {
    if numOfRows > MaxRows then RowsRejected(TooManyRowsMessage)
    else Attempted(ParquetPath(bucketName), BuildTable(draws), write == Written)
  }

  /** The default count, exactly the maximum, is accepted and builds a million rows. */
  lemma DefaultRowsAccepted(bucketName: string, draws: Draws, write: WriteOutcome)
    requires DrawnFor(draws, MaxRows)
    ensures EmployeeDataGenerator(bucketName, draws, write).Attempted?
    ensures |EmployeeDataGenerator(bucketName, draws, write).table| == 1_000_000
  {
  }
}
