/**
 * The tenure filter handler `get_employees_anniversary`: validate the payload,
 * keep the rows whose start year lies exactly the requested number of years
 * before the current year, write them to the destination, and report the
 * destination and the row count.
 *
 * The parquet file at s3://{bucket}/{key} is passed in as `table`, and the year
 * of `datetime.date.today()` as `currentYear`.
 */
module Anniversary {
  import opened Wrappers
  import opened Calendar
  import opened Employees
  import PyInt

  const YearsOfService := "years_of_service"
  const Bucket := "bucket"
  const Key := "key"
  const Destination := "destination"

  const InvalidYearMessage := "Year must be a valid 4 digit year"

  /**
   * `f"{e} required in payload"` for a KeyError `e`, whose str() is the repr of
   * the key. This is the key between single quotes only for a plain printable
   * key with no quote and no backslash, as all four payload keys are; the
   * escaping `repr` applies to other keys is not modelled.
   */
  function MissingFieldMessage(field: string): (m: string)
    ensures |m| == |field| + 22
    ensures m[0] == '\'' && m[1..|field| + 1] == field && m[|field| + 1] == '\''
    ensures m[|field| + 2..] == " required in payload"
  {
    var suffix := "' required in payload";
    var m := "'" + field + suffix;
    assert m[1..|field| + 1] == field && m[|field| + 1..] == suffix;
    m
  }

  datatype Request = Request(year: int, bucket: string, key: string, destination: string)

  /**
   * The first `try` block: the four lookups in source order, with the integer
   * parse right after the first one.
   */
  function ParsePayload(payload: map<string, string>): (r: Result<Request, string>)
    ensures r.Success? <==> ValidPayload(payload)
    ensures r.Success? ==>
      r.value == Request(PyInt.ParseInt(payload[YearsOfService]).value,
                         payload[Bucket], payload[Key], payload[Destination])
    ensures r.Failure? ==>
      || r.error == InvalidYearMessage
      || r.error == MissingFieldMessage(YearsOfService)
      || r.error == MissingFieldMessage(Bucket)
      || r.error == MissingFieldMessage(Key)
      || r.error == MissingFieldMessage(Destination)
  {
    if YearsOfService !in payload then Failure(MissingFieldMessage(YearsOfService))
    else
      match PyInt.ParseInt(payload[YearsOfService])
      case None => Failure(InvalidYearMessage)
      case Some(year) =>
        if Bucket !in payload then Failure(MissingFieldMessage(Bucket))
        else if Key !in payload then Failure(MissingFieldMessage(Key))
        else if Destination !in payload then Failure(MissingFieldMessage(Destination))
        else Success(Request(year, payload[Bucket], payload[Key], payload[Destination]))
  }

  /** A payload the handler accepts: all four fields present and the tenure an integer literal. */
  predicate ValidPayload(payload: map<string, string>) {
    && YearsOfService in payload
    && PyInt.ParseInt(payload[YearsOfService]).Some?
    && Bucket in payload && Key in payload && Destination in payload
  }

  // ---------------------------------------------------------------------------
  // The DataFrame and the boolean-mask filter.

  /** A DataFrame row: its index label and its columns. */
  datatype Row = Row(index: nat, record: Record)

  /** The frame `read_table(...).to_pandas()` yields: the stored rows under the index 0, 1, 2, ... */
  function Load(table: seq<Record>): (f: seq<Row>)
    ensures |f| == |table| && Increasing(f)
    ensures forall i :: 0 <= i < |f| ==> f[i].index == i && f[i].record == table[i]
  {
    seq(|table|, i requires 0 <= i < |table| => Row(i, table[i]))
  }

  /** `year_today - df.start_date.dt.year` for one row: month and day play no part. */
  function Tenure(r: Record, currentYear: int): int {
    currentYear - r.startDate.year
  }

  /** The mask `(year_today - df.start_date.dt.year) == year`, element-wise. */
  function Mask(f: seq<Row>, year: int, currentYear: int): (m: seq<bool>)
    ensures |m| == |f|
    ensures forall i :: 0 <= i < |f| ==> (m[i] <==> f[i].record.startDate.year == currentYear - year)
  {
    seq(|f|, i requires 0 <= i < |f| => Tenure(f[i].record, currentYear) == year)
  }

  /** Boolean indexing `df[mask]`: the elements under a true mask entry, in order. */
  function Compress(xs: seq<Row>, mask: seq<bool>): (out: seq<Row>)
    requires |mask| == |xs|
    ensures |out| <= |xs|
    ensures forall x :: x in out <==> exists i :: 0 <= i < |xs| && mask[i] && xs[i] == x
  {
    if |xs| == 0 then []
    else
      var rest := Compress(xs[1..], mask[1..]);
      assert forall x :: x in rest <==> exists i :: 1 <= i < |xs| && mask[i] && xs[i] == x by {
        forall x ensures x in rest <==> exists i :: 1 <= i < |xs| && mask[i] && xs[i] == x {
          if x in rest {
            var j :| 0 <= j < |xs| - 1 && mask[1..][j] && xs[1..][j] == x;
            assert mask[j + 1] && xs[j + 1] == x;
          }
          if exists i :: 1 <= i < |xs| && mask[i] && xs[i] == x {
            var i :| 1 <= i < |xs| && mask[i] && xs[i] == x;
            assert mask[1..][i - 1] && xs[1..][i - 1] == x;
          }
        }
      }
      (if mask[0] then [xs[0]] else []) + rest
  }

  /** `df[(year_today - df.start_date.dt.year) == year]`. */
  function Select(f: seq<Row>, year: int, currentYear: int): (out: seq<Row>)
    ensures |out| <= |f|
    ensures forall r :: r in out <==> r in f && Tenure(r.record, currentYear) == year
  {
    Compress(f, Mask(f, year, currentYear))
  }

  // ---------------------------------------------------------------------------
  // The handler.

  /** The JSON object the handler returns, before json.dumps. */
  datatype Envelope =
    | Done(filePath: string, rowsReturned: nat)   // {"status": "done", "result": {...}}
    | Error(errorMessage: string)                  // {"error_message": ...}

  /** What the handler reads and writes: the source object and the CSV written to `destination`. */
  datatype Export = Export(source: string, destination: string, rows: seq<Row>)

  datatype Invocation = Invocation(envelope: Envelope, written: Option<Export>)

  function SourceUri(bucket: string, key: string): string {
    "s3://" + bucket + "/" + key
  }

  /** `get_employees_anniversary(payload, context)` when reading and writing succeed. */
  function Handle(payload: map<string, string>, table: seq<Record>, currentYear: int): (r: Invocation)
    ensures r.envelope.Error? <==> r.written.None?
    ensures r.envelope.Done? ==>
      && r.envelope.filePath == r.written.value.destination
      && r.envelope.rowsReturned == |r.written.value.rows|
  {
    match ParsePayload(payload)
    case Failure(msg) => Invocation(Error(msg), None)
    case Success(req) =>
      var out := Select(Load(table), req.year, currentYear);
      Invocation(Done(req.destination, |out|), Some(Export(SourceUri(req.bucket, req.key), req.destination, out)))
  }

  // ---------------------------------------------------------------------------
  // Validation: order and messages.

  /** A tenure that is not an integer literal is reported as such, whatever else the payload lacks. */
  lemma NonIntegerYearRejected(payload: map<string, string>, table: seq<Record>, currentYear: int)
    requires YearsOfService in payload && PyInt.ParseInt(payload[YearsOfService]).None?
    ensures Handle(payload, table, currentYear) == Invocation(Error(InvalidYearMessage), None)
  {
  }

  /** The given tenure "abc" yields the fixed invalid-year message. */
  lemma AbcYearRejected(payload: map<string, string>, table: seq<Record>, currentYear: int)
    requires YearsOfService in payload && payload[YearsOfService] == "abc"
    ensures Handle(payload, table, currentYear).envelope == Error(InvalidYearMessage)
  {
  }

  /**
   * The fields are checked in the order years_of_service, bucket, key,
   * destination; the first one missing is the one named, and a later one is
   * reached only once every earlier check has passed.
   */
  lemma FirstMissingFieldReported(payload: map<string, string>, table: seq<Record>, currentYear: int)
    ensures YearsOfService !in payload ==>
      Handle(payload, table, currentYear).envelope == Error(MissingFieldMessage(YearsOfService))
    ensures YearsOfService in payload && PyInt.ParseInt(payload[YearsOfService]).Some? ==>
      && (Bucket !in payload ==>
            Handle(payload, table, currentYear).envelope == Error(MissingFieldMessage(Bucket)))
      && (Bucket in payload && Key !in payload ==>
            Handle(payload, table, currentYear).envelope == Error(MissingFieldMessage(Key)))
      && (Bucket in payload && Key in payload && Destination !in payload ==>
            Handle(payload, table, currentYear).envelope == Error(MissingFieldMessage(Destination)))
  {
  }

  /** The handler succeeds exactly on valid payloads; on success nothing else decides the outcome. */
  lemma SuccessIffValid(payload: map<string, string>, table: seq<Record>, currentYear: int)
    ensures Handle(payload, table, currentYear).envelope.Done? <==> ValidPayload(payload)
  {
  }

  // ---------------------------------------------------------------------------
  // The filter.

  lemma SelectUnfold(f: seq<Row>, year: int, currentYear: int)
    requires |f| > 0
    ensures Select(f, year, currentYear) ==
      (if Tenure(f[0].record, currentYear) == year then [f[0]] else []) + Select(f[1..], year, currentYear)
  {
    assert Mask(f, year, currentYear)[1..] == Mask(f[1..], year, currentYear);
  }

  /** Filtering a concatenation filters each part. */
  lemma {:induction false} SelectAppend(a: seq<Row>, b: seq<Row>, year: int, currentYear: int)
    ensures Select(a + b, year, currentYear) == Select(a, year, currentYear) + Select(b, year, currentYear)
  {
    if |a| == 0 {
      assert a + b == b;
    } else {
      SelectUnfold(a + b, year, currentYear);
      SelectUnfold(a, year, currentYear);
      assert (a + b)[1..] == a[1..] + b;
      SelectAppend(a[1..], b, year, currentYear);
    }
  }

  /** Filtering the filter's own output with the same year and current year changes nothing. */
  lemma {:induction false} SelectIdempotent(f: seq<Row>, year: int, currentYear: int)
    ensures Select(Select(f, year, currentYear), year, currentYear) == Select(f, year, currentYear)
  {
    if |f| > 0 {
      var rest := Select(f[1..], year, currentYear);
      SelectUnfold(f, year, currentYear);
      SelectIdempotent(f[1..], year, currentYear);
      if Tenure(f[0].record, currentYear) == year {
        SelectUnfold([f[0]] + rest, year, currentYear);
        assert ([f[0]] + rest)[1..] == rest;
      } else {
        assert Select(f, year, currentYear) == rest;
      }
    }
  }

  /** Strictly increasing index labels: the frame is in its original row order. */
  predicate Increasing(f: seq<Row>) {
    forall j, k :: 0 <= j < k < |f| ==> f[j].index < f[k].index
  }

  /** Putting a row before rows with larger labels keeps the frame in order. */
  lemma IncreasingCons(x: Row, s: seq<Row>)
    requires Increasing(s)
    requires forall r :: r in s ==> x.index < r.index
    ensures Increasing([x] + s)
  {
    var out := [x] + s;
    forall j, k | 0 <= j < k < |out| ensures out[j].index < out[k].index {
      assert out[k] == s[k - 1];
      if j == 0 {
        assert s[k - 1] in s;
      } else {
        assert out[j] == s[j - 1];
      }
    }
  }

  /** In an ordered frame, every row of the tail has a larger label than the head. */
  lemma HeadBelowTail(f: seq<Row>)
    requires |f| > 0 && Increasing(f)
    ensures Increasing(f[1..])
    ensures forall r :: r in f[1..] ==> f[0].index < r.index
  {
    forall r | r in f[1..] ensures f[0].index < r.index {
      var k :| 0 <= k < |f| - 1 && f[1..][k] == r;
      assert f[k + 1] == r;
    }
  }

  lemma {:induction false} SelectKeepsOrder(f: seq<Row>, year: int, currentYear: int)
    requires Increasing(f)
    ensures Increasing(Select(f, year, currentYear))
  {
    if |f| > 0 {
      var rest := Select(f[1..], year, currentYear);
      SelectUnfold(f, year, currentYear);
      HeadBelowTail(f);
      SelectKeepsOrder(f[1..], year, currentYear);
      if Tenure(f[0].record, currentYear) == year {
        IncreasingCons(f[0], rest);
      } else {
        assert Select(f, year, currentYear) == rest;
      }
    }
  }

  /**
   * The rows the handler writes are exactly the matching source rows, each
   * with all columns unchanged and under its original index label, in source
   * order.
   */
  lemma SelectLoadExact(table: seq<Record>, year: int, currentYear: int)
    ensures var out := Select(Load(table), year, currentYear);
      && (forall j :: 0 <= j < |out| ==>
            && out[j].index < |table|
            && out[j].record == table[out[j].index]
            && Tenure(out[j].record, currentYear) == year)
      && (forall j, k :: 0 <= j < k < |out| ==> out[j].index < out[k].index)
      && (forall i :: 0 <= i < |table| && Tenure(table[i], currentYear) == year ==>
            exists j :: 0 <= j < |out| && out[j] == Row(i, table[i]))
  {
    var f := Load(table);
    var out := Select(f, year, currentYear);
    SelectKeepsOrder(f, year, currentYear);
    forall j | 0 <= j < |out|
      ensures out[j].index < |table| && out[j].record == table[out[j].index]
    {
      assert out[j] in out;
      var i :| 0 <= i < |f| && f[i] == out[j];
    }
    forall i | 0 <= i < |table| && Tenure(table[i], currentYear) == year
      ensures exists j :: 0 <= j < |out| && out[j] == Row(i, table[i])
    {
      assert f[i] in f;
      assert Row(i, table[i]) in out;
    }
  }

  /** The number of source rows whose tenure equals `year`. */
  function MatchingCount(table: seq<Record>, year: int, currentYear: int): nat {
    |set i | 0 <= i < |table| && Tenure(table[i], currentYear) == year|
  }

  /** Appending one record to the table adds one kept row exactly when that record matches. */
  lemma SelectLoadSnoc(init: seq<Record>, x: Record, year: int, currentYear: int)
    ensures |Select(Load(init + [x]), year, currentYear)| ==
      |Select(Load(init), year, currentYear)| + (if Tenure(x, currentYear) == year then 1 else 0)
  {
    var n := |init|;
    assert Load(init + [x]) == Load(init) + [Row(n, x)];
    SelectAppend(Load(init), [Row(n, x)], year, currentYear);
    SelectUnfold([Row(n, x)], year, currentYear);
    assert [Row(n, x)][1..] == [];
  }

  /** Appending one record to the table adds one to the count exactly when that record matches. */
  lemma MatchingCountSnoc(init: seq<Record>, x: Record, year: int, currentYear: int)
    ensures MatchingCount(init + [x], year, currentYear) ==
      MatchingCount(init, year, currentYear) + (if Tenure(x, currentYear) == year then 1 else 0)
  {
    var table := init + [x];
    var n := |init|;
    var s := set i | 0 <= i < |table| && Tenure(table[i], currentYear) == year;
    var s' := set i | 0 <= i < n && Tenure(init[i], currentYear) == year;
    if Tenure(x, currentYear) == year {
      assert s == s' + {n};
    } else {
      assert s == s';
    }
  }

  lemma {:induction false} SelectCount(table: seq<Record>, year: int, currentYear: int)
    ensures |Select(Load(table), year, currentYear)| == MatchingCount(table, year, currentYear)
  {
    if |table| > 0 {
      var n := |table| - 1;
      assert table == table[..n] + [table[n]];
      SelectLoadSnoc(table[..n], table[n], year, currentYear);
      MatchingCountSnoc(table[..n], table[n], year, currentYear);
      SelectCount(table[..n], year, currentYear);
    }
  }

  /** Two frames with the same labels and the same start years filter to the same labels. */
  predicate SameYears(f1: seq<Row>, f2: seq<Row>) {
    && |f1| == |f2|
    && forall i :: 0 <= i < |f1| ==>
         f1[i].index == f2[i].index && f1[i].record.startDate.year == f2[i].record.startDate.year
  }

  lemma SameYearsAppend(a1: seq<Row>, b1: seq<Row>, a2: seq<Row>, b2: seq<Row>)
    requires SameYears(a1, a2) && SameYears(b1, b2)
    ensures SameYears(a1 + b1, a2 + b2)
  {
    forall i | 0 <= i < |a1| + |b1|
      ensures (a1 + b1)[i].index == (a2 + b2)[i].index
      ensures (a1 + b1)[i].record.startDate.year == (a2 + b2)[i].record.startDate.year
    {
      if i >= |a1| {
        assert (a1 + b1)[i] == b1[i - |a1|] && (a2 + b2)[i] == b2[i - |a1|];
      }
    }
  }

  lemma {:induction false} SelectIgnoresMonthDay(f1: seq<Row>, f2: seq<Row>, year: int, currentYear: int)
    requires SameYears(f1, f2)
    ensures SameYears(Select(f1, year, currentYear), Select(f2, year, currentYear))
  {
    if |f1| > 0 {
      SelectUnfold(f1, year, currentYear);
      SelectUnfold(f2, year, currentYear);
      assert SameYears(f1[1..], f2[1..]) by {
        forall i | 0 <= i < |f1| - 1
          ensures f1[1..][i].index == f2[1..][i].index
          ensures f1[1..][i].record.startDate.year == f2[1..][i].record.startDate.year
        {
          assert f1[1..][i] == f1[i + 1] && f2[1..][i] == f2[i + 1];
        }
      }
      SelectIgnoresMonthDay(f1[1..], f2[1..], year, currentYear);
      var h1 := if Tenure(f1[0].record, currentYear) == year then [f1[0]] else [];
      var h2 := if Tenure(f2[0].record, currentYear) == year then [f2[0]] else [];
      assert SameYears(h1, h2);
      SameYearsAppend(h1, Select(f1[1..], year, currentYear), h2, Select(f2[1..], year, currentYear));
    }
  }

  // ---------------------------------------------------------------------------
  // The success envelope.

  /**
   * On a valid payload the handler reports "done" with the payload's destination
   * and the number of matching source rows (zero included), and writes exactly
   * the matching rows there.
   */
  lemma ValidPayloadSucceeds(payload: map<string, string>, table: seq<Record>, currentYear: int)
    requires ValidPayload(payload)
    ensures var year := PyInt.ParseInt(payload[YearsOfService]).value;
      && Handle(payload, table, currentYear).envelope ==
           Done(payload[Destination], MatchingCount(table, year, currentYear))
      && Handle(payload, table, currentYear).written ==
           Some(Export(SourceUri(payload[Bucket], payload[Key]), payload[Destination],
                       Select(Load(table), year, currentYear)))
  {
    SelectCount(table, PyInt.ParseInt(payload[YearsOfService]).value, currentYear);
  }

  /** Tables whose rows agree in start year get the same envelope: month and day are never consulted. */
  lemma HandleIgnoresMonthDay(payload: map<string, string>, t1: seq<Record>, t2: seq<Record>, currentYear: int)
    requires |t1| == |t2|
    requires forall i :: 0 <= i < |t1| ==> t1[i].startDate.year == t2[i].startDate.year
    ensures Handle(payload, t1, currentYear).envelope == Handle(payload, t2, currentYear).envelope
  {
    if ValidPayload(payload) {
      var year := PyInt.ParseInt(payload[YearsOfService]).value;
      SelectIgnoresMonthDay(Load(t1), Load(t2), year, currentYear);
    }
  }

  /** Re-running the filter on what was written, with the same inputs, writes the same rows again. */
  lemma ExportIsFixedPoint(payload: map<string, string>, table: seq<Record>, currentYear: int)
    requires ValidPayload(payload)
    ensures var rows := Handle(payload, table, currentYear).written.value.rows;
      Select(rows, PyInt.ParseInt(payload[YearsOfService]).value, currentYear) == rows
  {
    SelectIdempotent(Load(table), PyInt.ParseInt(payload[YearsOfService]).value, currentYear);
  }

  /** A start date of 31 December counts as a full year of tenure on 1 January of the next year. */
  lemma YearBoundaryCountsAsFullYear(name: string, year: int, department: string, role: string)
    ensures Tenure(Record(name, Date(year, 12, 31), department, role), year + 1) == 1
    ensures Tenure(Record(name, Date(year, 1, 1), department, role), year + 1) == 1
  {
  }
}
