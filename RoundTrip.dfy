/** What the handler can return on a table the generator produced. */
module RoundTrip {
  import PyInt
  import opened Anniversary
  import opened DataGenerator

  /** Every generated row has a tenure between currentYear - 2021 and currentYear - 1990. */
  lemma GeneratedTenureBounds(d: Draws, currentYear: int)
    requires DrawnFor(d, |d.names|)
    ensures forall r :: r in BuildTable(d) ==>
      currentYear - LastYear <= Tenure(r, currentYear) <= currentYear - FirstYear
  {
  }

  /** A tenure outside that range matches no generated row, and the handler still reports success. */
  lemma TenureOutsideWindowMatchesNothing(payload: map<string, string>, d: Draws, currentYear: int)
    requires DrawnFor(d, |d.names|)
    requires ValidPayload(payload)
    requires var year := PyInt.ParseInt(payload[YearsOfService]).value;
      year < currentYear - LastYear || year > currentYear - FirstYear
    ensures Handle(payload, BuildTable(d), currentYear).envelope == Done(payload[Destination], 0)
  {
    var t := BuildTable(d);
    var year := PyInt.ParseInt(payload[YearsOfService]).value;
    ValidPayloadSucceeds(payload, t, currentYear);
    assert (set i | 0 <= i < |t| && Tenure(t[i], currentYear) == year) == {};
  }

  /**
   * If some row was drawn with the earliest start year, asking for
   * currentYear - 1990 years returns at least one row.
   */
  lemma EarliestYearIsFound(payload: map<string, string>, d: Draws, currentYear: int, k: nat)
    requires DrawnFor(d, |d.names|)
    requires k < |d.dates| && d.dates[k].year == FirstYear
    requires ValidPayload(payload)
    requires PyInt.ParseInt(payload[YearsOfService]).value == currentYear - FirstYear
    ensures Handle(payload, BuildTable(d), currentYear).envelope.rowsReturned >= 1
  {
    var t := BuildTable(d);
    var year := currentYear - FirstYear;
    ValidPayloadSucceeds(payload, t, currentYear);
    var matching := set i | 0 <= i < |t| && Tenure(t[i], currentYear) == year;
    assert k in matching;
    assert |matching| >= |{k}| by {
      assert {k} <= matching;
    }
  }
}
