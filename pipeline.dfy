/**
 * `process_data` end to end: normalise the uploaded rows, fill the gaps of
 * every place, combine real and sentinel rows, pivot them, and report the
 * share of expected daily readings that were absent. The lemmas state what
 * the combined rows and the percentage guarantee.
 */
module Pipeline {
  import opened Wrappers
  import opened Calendar
  import opened Rows
  import opened Normaliser
  import opened GapFill
  import opened Merge
  import opened Report

  /** The four values `process_data` returns. */
  datatype Output = Output(combined: seq<Row>, missing: seq<Row>, pivot: Matrix, percent: real)

  /** A real row has key (p, d) exactly when d is among the dates of place p. */
  lemma KeyInData(data: seq<Row>, p: string, d: Date)
    ensures FirstWithKey(data, (p, d)) < |data| <==> d in PlaceDates(data, p)
  {
    var i := FirstWithKey(data, (p, d));
    if i < |data| {
      assert data[i] in data;
    }
    if d in PlaceDates(data, p) {
      var r :| r in data && r.place == p && r.date == d;
      var j :| 0 <= j < |data| && data[j] == r;
    }
  }

  /** Every place of the data is among its unique places, and there is one if there is a row. */
  lemma PlacesOfData(data: seq<Row>)
    ensures Seeded(data, UniquePlaces(data))
    ensures forall r :: r in data ==> r.place in UniquePlaces(data)
    ensures |data| > 0 <==> |UniquePlaces(data)| > 0
  {
    var ps := UniquePlaces(data);
    forall r | r in data ensures r.place in ps {
      var j :| 0 <= j < |data| && data[j] == r;
      assert FirstRow(data, r.place) <= j;
    }
    if |data| > 0 {
      assert data[0] in data;
    }
  }

  /** No sentinel row has the key of a real row. */
  lemma GapRowsAbsentFromData(data: seq<Row>, y: int)
    ensures Seeded(data, UniquePlaces(data))
    ensures forall r :: r in GapRows(data, UniquePlaces(data), y) ==> FirstWithKey(data, KeyOf(r)) == |data|
  {
    var ps := UniquePlaces(data);
    PlacesOfData(data);
    forall r | r in GapRows(data, ps, y) ensures FirstWithKey(data, KeyOf(r)) == |data| {
      GapRowsMembers(data, ps, y, r);
      KeyInData(data, r.place, r.date);
    }
  }

  /**
   * The combined rows have no repeated (Place, Date) key and are strictly
   * ordered by it. They are the first real row of every key plus one sentinel
   * row per place and per day of the year that place has no row for: a real
   * row is always kept over a sentinel one. Every place has a row for every
   * day of the target year.
   */
  lemma CombinedRows(data: seq<Row>, y: int)
    ensures Seeded(data, UniquePlaces(data))
    ensures var places := UniquePlaces(data);
            var combined := Combine(data, GapRows(data, places, y));
            && UniqueKeys(combined)
            && StrictlySorted(combined)
            && (forall r :: r in combined <==> IsFirstOccurrence(data, r) || IsGapRow(data, places, y, r))
            && (forall r :: r in combined && FirstWithKey(data, KeyOf(r)) < |data| ==>
                  r == data[FirstWithKey(data, KeyOf(r))])
            && (forall p, d :: p in places && InYear(d, y) ==> (p, d) in KeySet(combined))
  {
    var places := UniquePlaces(data);
    GapRowsAbsentFromData(data, y);
    var missing := GapRows(data, places, y);
    GapRowsExact(data, places, y);
    CombineSpec(data, missing);
    var combined := Combine(data, missing);
    forall p, d | p in places && InYear(d, y) ensures (p, d) in KeySet(combined) {
      KeyInData(data, p, d);
      var i := FirstWithKey(data, (p, d));
      if i < |data| {
        assert data[i] in combined;
      } else {
        var first := data[FirstRow(data, p)];
        var gap := Row(p, d, Sentinel, first.lng, first.lat);
        assert IsGapRow(data, places, y, gap);
        assert gap in combined;
      }
    }
  }

  /**
   * Over a non-empty upload the percentage lies in [0, 100]; it is 0 exactly
   * when every place has a row for every day of the year and 100 exactly when
   * no place has a row in that year.
   */
  lemma MissingShare(data: seq<Row>, y: int)
    requires |data| > 0
    ensures Seeded(data, UniquePlaces(data))
    ensures var places := UniquePlaces(data);
            var total, expected := |GapRows(data, places, y)|, |places| * DaysInYear(y);
            && 0 < expected
            && total <= expected
            && 0.0 <= MissingPercent(total, expected) <= 100.0
            && (MissingPercent(total, expected) == 0.0 <==> forall p :: p in places ==> Complete(data, p, y))
            && (MissingPercent(total, expected) == 100.0 <==> forall p :: p in places ==> Empty(data, p, y))
  {
    PlacesOfData(data);
    var places := UniquePlaces(data);
    GapRowsCount(data, places, y);
    var total, expected := |GapRows(data, places, y)|, |places| * DaysInYear(y);
    assert expected > 0 by {
      assert |places| >= 1 && DaysInYear(y) >= 365;
    }
    PercentBounds(total, expected);
  }

  /** Every row of the combined data holds a date pandas can represent. */
  lemma CombinedDatesValid(data: seq<Row>, y: int)
    requires forall r :: r in data ==> ValidDate(r.date)
    requires YearInRange(y)
    ensures Seeded(data, UniquePlaces(data))
    ensures forall r :: r in Combine(data, GapRows(data, UniquePlaces(data), y)) ==> ValidDate(r.date)
  {
    var places := UniquePlaces(data);
    CombinedRows(data, y);
    YearInRangeIffRepresentable(y);
    YearDatesExact(y);
    forall r | r in Combine(data, GapRows(data, places, y)) ensures ValidDate(r.date) {
      if !IsFirstOccurrence(data, r) {
        assert r.date in YearDates(y);
      } else {
        assert data[FirstWithKey(data, KeyOf(r))] in data;
      }
    }
  }

  /** What a successful run guarantees about its combined rows and its percentage. */
  lemma SuccessGuarantees(data: seq<Row>, y: int)
    requires |data| > 0 && YearInRange(y)
    requires forall r :: r in data ==> ValidDate(r.date)
    ensures Seeded(data, UniquePlaces(data))
    ensures var places := UniquePlaces(data);
            var missing := GapRows(data, places, y);
            var combined := Combine(data, missing);
            && UniqueKeys(combined) && StrictlySorted(combined)
            && (forall r :: r in combined ==> ValidDate(r.date))
            && 0 < |places| * DaysInYear(y)
            && 0.0 <= MissingPercent(|missing|, |places| * DaysInYear(y)) <= 100.0
  {
    CombinedRows(data, y);
    CombinedDatesValid(data, y);
    MissingShare(data, y);
  }

  /**
   * `process_data` on the rows of an upload and the year from its file name.
   * It fails on the first row whose date is invalid, then, when there is a
   * place, on a target year whose calendar pandas cannot build, and then on
   * an empty upload, which raises at the date conversion before it could
   * divide by zero places.
   */
  method ProcessData(raws: seq<RawRow>, year: int) returns (r: Result<Output, Error>)
    ensures Normalise(raws, year).Err? ==> r == Err(Normalise(raws, year).error)
    ensures Normalise(raws, year).Ok? && |raws| > 0 && !YearInRange(year) ==> r == Err(YearOutOfRange(year))
    ensures Normalise(raws, year).Ok? && |raws| == 0 ==> r == Err(NoPlaces)
    ensures r.Ok? <==> Normalise(raws, year).Ok? && |raws| > 0 && YearInRange(year)
    ensures r.Ok? ==>
      var data := Normalise(raws, year).value;
      var places := UniquePlaces(data);
      && Seeded(data, places)
      && r.value.missing == GapRows(data, places, year)
      && r.value.combined == Combine(data, r.value.missing)
      && r.value.pivot == Pivot(r.value.combined)
      && r.value.percent == MissingPercent(|r.value.missing|, |places| * DaysInYear(year))
    ensures r.Ok? ==> UniqueKeys(r.value.combined) && StrictlySorted(r.value.combined)
    ensures r.Ok? ==> forall row :: row in r.value.combined ==> ValidDate(row.date)
    ensures r.Ok? ==> 0.0 <= r.value.percent <= 100.0
  {
    var normalised := Normalise(raws, year);
    if normalised.Err? {
      return Err(normalised.error);
    }
    var data := normalised.value;
    var gaps := FillGaps(data, year);
    PlacesOfData(data);
    if gaps.Err? {
      return Err(gaps.error);
    }
    var places, missing, total := gaps.value.places, gaps.value.missing, gaps.value.total;
    var combined := Combine(data, missing);
    var pivot := Pivot(combined);
    var expected := |places| * DaysInYear(year);
    if expected == 0 {
      return Err(NoPlaces);
    }
    SuccessGuarantees(data, year);
    return Ok(Output(combined, missing, pivot, MissingPercent(total, expected)));
  }
}
