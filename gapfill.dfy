/**
 * The gap filling of `process_data`: for every place, in the order it first
 * appears, the days of the target year that place has no row for, and one
 * sentinel row per such day carrying the longitude and latitude of the
 * place's first row; the loop also counts those days.
 */
module GapFill {
  import opened Wrappers
  import opened Calendar
  import opened Rows

  /** Index of the first row of place `p` (`iloc[0]`), or `|data|` when `p` has none. */
  function FirstRow(data: seq<Row>, p: string): (k: nat)
    ensures k <= |data|
    ensures k < |data| ==> data[k].place == p
    ensures forall j :: 0 <= j < k ==> data[j].place != p
  {
    if |data| == 0 then 0
    else
      var n := |data| - 1;
      var k := FirstRow(data[..n], p);
      if k < n then k else if data[n].place == p then n else |data|
  }

  /** Every place of `ps` has a first row to copy Lng and Lat from. */
  predicate Seeded(data: seq<Row>, ps: seq<string>) {
    forall p :: p in ps ==> FirstRow(data, p) < |data|
  }

  /** `data['Place'].unique()`: each place once, in order of first appearance. */
  function UniquePlaces(data: seq<Row>): (ps: seq<string>)
    ensures forall p :: p in ps <==> FirstRow(data, p) < |data|
    ensures forall i, j :: 0 <= i < j < |ps| ==> FirstRow(data, ps[i]) < FirstRow(data, ps[j])
    ensures forall i, j :: 0 <= i < j < |ps| ==> ps[i] != ps[j]
  {
    if |data| == 0 then []
    else
      var n := |data| - 1;
      var ps := UniquePlaces(data[..n]);
      if data[n].place in ps then ps else ps + [data[n].place]
  }

  predicate InYear(d: Date, y: int) {
    d.year == y && IsCalendarDate(d)
  }

  /** The dates of the rows of place `p` (`place_data['Date']`). */
  function PlaceDates(data: seq<Row>, p: string): set<Date> {
    set r | r in data && r.place == p :: r.date
  }

  /** Place `p` has a row for every day of year `y`. */
  ghost predicate Complete(data: seq<Row>, p: string, y: int) {
    forall d :: InYear(d, y) ==> d in PlaceDates(data, p)
  }

  /** Place `p` has a row for no day of year `y`. */
  ghost predicate Empty(data: seq<Row>, p: string, y: int) {
    forall d :: InYear(d, y) ==> d !in PlaceDates(data, p)
  }

  /** The dates of `ds` that are not in `present`, in their order in `ds`. */
  function Absent(ds: seq<Date>, present: set<Date>): (r: seq<Date>)
    ensures |r| <= |ds|
  {
    if |ds| == 0 then []
    else (if ds[0] in present then [] else [ds[0]]) + Absent(ds[1..], present)
  }

  /** The set difference keeps exactly the dates of `ds` that are not present. */
  lemma {:induction false} AbsentMembers(ds: seq<Date>, present: set<Date>)
    ensures forall d :: d in Absent(ds, present) <==> d in ds && d !in present
  {
    if |ds| > 0 {
      AbsentMembers(ds[1..], present);
      assert forall d :: d in ds <==> d == ds[0] || d in ds[1..];
    }
  }

  lemma {:induction false} AbsentAscending(ds: seq<Date>, present: set<Date>)
    requires forall i, j :: 0 <= i < j < |ds| ==> DateLess(ds[i], ds[j])
    ensures forall i, j :: 0 <= i < j < |Absent(ds, present)| ==>
      DateLess(Absent(ds, present)[i], Absent(ds, present)[j])
  {
    if |ds| > 0 {
      AbsentAscending(ds[1..], present);
      AbsentMembers(ds[1..], present);
      var rest := Absent(ds[1..], present);
      forall k | 0 <= k < |rest| ensures DateLess(ds[0], rest[k]) {
        assert rest[k] in ds[1..];
      }
    }
  }

  lemma {:induction false} AbsentFull(ds: seq<Date>, present: set<Date>)
    ensures |Absent(ds, present)| == |ds| <==> forall d :: d in ds ==> d !in present
  {
    if |ds| > 0 {
      AbsentFull(ds[1..], present);
      assert forall d :: d in ds <==> d == ds[0] || d in ds[1..];
    }
  }

  /** `full_range.difference(place_data['Date'])`, in ascending order. */
  function MissingDates(data: seq<Row>, p: string, y: int): seq<Date> {
    Absent(YearDates(y), PlaceDates(data, p))
  }

  /**
   * The missing dates of a place are the days of the year it has no row for:
   * with its present days they cover the year without overlap.
   */
  lemma MissingDatesMembers(data: seq<Row>, p: string, y: int)
    ensures forall d :: d in MissingDates(data, p, y) <==> InYear(d, y) && d !in PlaceDates(data, p)
  {
    YearDatesExact(y);
    AbsentMembers(YearDates(y), PlaceDates(data, p));
  }

  /** The missing dates ascend, so none is listed twice. */
  lemma MissingDatesAscending(data: seq<Row>, p: string, y: int)
    ensures forall i, j :: 0 <= i < j < |MissingDates(data, p, y)| ==>
      DateLess(MissingDates(data, p, y)[i], MissingDates(data, p, y)[j])
  {
    YearDatesAscending(y);
    AbsentAscending(YearDates(y), PlaceDates(data, p));
  }

  /**
   * There are at most as many missing dates as the year has days: none
   * exactly when the place is complete, all exactly when it has no row in
   * that year.
   */
  lemma MissingDatesCount(data: seq<Row>, p: string, y: int)
    ensures |MissingDates(data, p, y)| <= DaysInYear(y)
    ensures |MissingDates(data, p, y)| == 0 <==> Complete(data, p, y)
    ensures |MissingDates(data, p, y)| == DaysInYear(y) <==> Empty(data, p, y)
  {
    YearDatesExact(y);
    YearDatesLength(y);
    AbsentFull(YearDates(y), PlaceDates(data, p));
    AbsentMembers(YearDates(y), PlaceDates(data, p));
    var m := MissingDates(data, p, y);
    if |m| != 0 {
      assert m[0] in m;
    }
  }

  /** One sentinel row per date, for place `p`, at the coordinates of row `first`. */
  function SentinelRows(p: string, dates: seq<Date>, first: Row): (rows: seq<Row>)
    ensures |rows| == |dates|
  {
    seq(|dates|, i requires 0 <= i < |dates| => Row(p, dates[i], Sentinel, first.lng, first.lat))
  }

  /** The `missing_rows` of place `p`. */
  function MissingRows(data: seq<Row>, p: string, y: int): seq<Row>
    requires FirstRow(data, p) < |data|
  {
    SentinelRows(p, MissingDates(data, p, y), data[FirstRow(data, p)])
  }

  /** What `missing_data` holds after the places `ps` have been visited. */
  function GapRows(data: seq<Row>, ps: seq<string>, y: int): seq<Row>
    requires Seeded(data, ps)
  {
    if |ps| == 0 then []
    else GapRows(data, ps[..|ps| - 1], y) + MissingRows(data, ps[|ps| - 1], y)
  }

  /** A sentinel row of the gap filling, described without reference to the loop. */
  predicate IsGapRow(data: seq<Row>, ps: seq<string>, y: int, r: Row)
    requires Seeded(data, ps)
  {
    && r.place in ps
    && InYear(r.date, y)
    && r.date !in PlaceDates(data, r.place)
    && r.rf == Sentinel
    && r.lng == data[FirstRow(data, r.place)].lng
    && r.lat == data[FirstRow(data, r.place)].lat
  }

  lemma {:induction false} GapRowsMembers(data: seq<Row>, ps: seq<string>, y: int, r: Row)
    requires Seeded(data, ps)
    ensures r in GapRows(data, ps, y) <==> IsGapRow(data, ps, y, r)
  {
    if |ps| > 0 {
      var n := |ps| - 1;
      var prefix, p := ps[..n], ps[n];
      assert ps == prefix + [p];
      GapRowsMembers(data, prefix, y, r);
      MissingDatesMembers(data, p, y);
      var own := MissingRows(data, p, y);
      var dates := MissingDates(data, p, y);
      if r.place == p && r.date in dates && r.rf == Sentinel
         && r.lng == data[FirstRow(data, p)].lng && r.lat == data[FirstRow(data, p)].lat {
        var k :| 0 <= k < |dates| && dates[k] == r.date;
        assert own[k] == r;
      }
      assert r in own <==> (r.place == p && r.date in dates && r.rf == Sentinel
        && r.lng == data[FirstRow(data, p)].lng && r.lat == data[FirstRow(data, p)].lat);
    }
  }

  /**
   * The sentinel rows are exactly one row per place of `ps` and per day of the
   * year that place has no row for, each with RF -99.9 and the coordinates of
   * the place's first row.
   */
  lemma GapRowsExact(data: seq<Row>, ps: seq<string>, y: int)
    requires Seeded(data, ps)
    requires forall i, j :: 0 <= i < j < |ps| ==> ps[i] != ps[j]
    ensures forall r :: r in GapRows(data, ps, y) <==> IsGapRow(data, ps, y, r)
    ensures UniqueKeys(GapRows(data, ps, y))
  {
    forall r ensures r in GapRows(data, ps, y) <==> IsGapRow(data, ps, y, r) {
      GapRowsMembers(data, ps, y, r);
    }
    GapRowsUnique(data, ps, y);
  }

  lemma SentinelRowsUnique(p: string, dates: seq<Date>, first: Row)
    requires forall i, j :: 0 <= i < j < |dates| ==> DateLess(dates[i], dates[j])
    ensures UniqueKeys(SentinelRows(p, dates, first))
  {
    var own := SentinelRows(p, dates, first);
    forall i, j | 0 <= i < j < |own| ensures KeyOf(own[i]) != KeyOf(own[j]) {
      assert DateLess(dates[i], dates[j]);
    }
  }

  lemma {:induction false} GapRowsUnique(data: seq<Row>, ps: seq<string>, y: int)
    requires Seeded(data, ps)
    requires forall i, j :: 0 <= i < j < |ps| ==> ps[i] != ps[j]
    ensures UniqueKeys(GapRows(data, ps, y))
  {
    if |ps| > 0 {
      var n := |ps| - 1;
      var prefix, p := ps[..n], ps[n];
      assert Seeded(data, prefix) by {
        forall q | q in prefix ensures q in ps { }
      }
      GapRowsUnique(data, prefix, y);
      MissingDatesAscending(data, p, y);
      SentinelRowsUnique(p, MissingDates(data, p, y), data[FirstRow(data, p)]);
      var before, own := GapRows(data, prefix, y), MissingRows(data, p, y);
      forall i, j | 0 <= i < |before| && 0 <= j < |own| ensures KeyOf(before[i]) != KeyOf(own[j]) {
        GapRowsMembers(data, prefix, y, before[i]);
        assert before[i].place in prefix;
      }
      UniqueKeysAppend(before, own);
    }
  }

  /** Every prefix of a seeded place list is seeded. */
  lemma SeededPrefix(data: seq<Row>, ps: seq<string>, k: nat)
    requires Seeded(data, ps) && k <= |ps|
    ensures Seeded(data, ps[..k])
  {
    forall q | q in ps[..k] ensures q in ps { }
  }

  /** Visiting the place after a prefix appends that place's sentinel rows. */
  lemma GapRowsSnoc(data: seq<Row>, ps: seq<string>, i: nat, y: int)
    requires Seeded(data, ps) && i < |ps|
    ensures Seeded(data, ps[..i]) && Seeded(data, ps[..i + 1])
    ensures GapRows(data, ps[..i + 1], y) == GapRows(data, ps[..i], y) + MissingRows(data, ps[i], y)
  {
    SeededPrefix(data, ps, i);
    SeededPrefix(data, ps, i + 1);
    assert ps[..i + 1][..i] == ps[..i];
  }

  /** Visiting one more place adds exactly its missing dates to the count. */
  lemma GapRowsStep(data: seq<Row>, ps: seq<string>, y: int)
    requires Seeded(data, ps) && |ps| > 0
    ensures Seeded(data, ps[..|ps| - 1])
    ensures |GapRows(data, ps, y)| ==
      |GapRows(data, ps[..|ps| - 1], y)| + |MissingDates(data, ps[|ps| - 1], y)|
    ensures forall q :: q in ps <==> q in ps[..|ps| - 1] || q == ps[|ps| - 1]
  {
    var n := |ps| - 1;
    assert ps == ps[..n] + [ps[n]];
    forall q | q in ps[..n] ensures q in ps { }
  }

  lemma {:induction false} GapRowsBound(data: seq<Row>, ps: seq<string>, y: int)
    requires Seeded(data, ps)
    ensures |GapRows(data, ps, y)| <= |ps| * DaysInYear(y)
  {
    if |ps| > 0 {
      var n := |ps| - 1;
      GapRowsStep(data, ps, y);
      GapRowsBound(data, ps[..n], y);
      MissingDatesCount(data, ps[n], y);
      var days := DaysInYear(y);
      assert n * days + days == |ps| * days by {
        assert n * days + days == (n + 1) * days;
      }
    }
  }

  lemma {:induction false} GapRowsNone(data: seq<Row>, ps: seq<string>, y: int)
    requires Seeded(data, ps)
    ensures |GapRows(data, ps, y)| == 0 <==> forall q :: q in ps ==> |MissingDates(data, q, y)| == 0
  {
    if |ps| > 0 {
      var n := |ps| - 1;
      GapRowsStep(data, ps, y);
      GapRowsNone(data, ps[..n], y);
    }
  }

  lemma {:induction false} GapRowsAll(data: seq<Row>, ps: seq<string>, y: int)
    requires Seeded(data, ps)
    ensures |GapRows(data, ps, y)| == |ps| * DaysInYear(y) <==>
      forall q :: q in ps ==> |MissingDates(data, q, y)| == DaysInYear(y)
  {
    if |ps| > 0 {
      var n := |ps| - 1;
      var prefix, p := ps[..n], ps[n];
      GapRowsStep(data, ps, y);
      GapRowsAll(data, prefix, y);
      GapRowsBound(data, prefix, y);
      MissingDatesCount(data, p, y);
      var days := DaysInYear(y);
      var before, own := |GapRows(data, prefix, y)|, |MissingDates(data, p, y)|;
      assert n * days + days == |ps| * days by {
        assert n * days + days == (n + 1) * days;
      }
      if before + own == |ps| * days {
        assert before == n * days && own == days;
      }
    }
  }

  /**
   * The number of sentinel rows after visiting `ps` is at most the number of
   * places times the days of the year; it is zero exactly when every place is
   * complete, and the maximum exactly when no place has a row in that year.
   */
  lemma GapRowsCount(data: seq<Row>, ps: seq<string>, y: int)
    requires Seeded(data, ps)
    ensures |GapRows(data, ps, y)| <= |ps| * DaysInYear(y)
    ensures |GapRows(data, ps, y)| == 0 <==> forall p :: p in ps ==> Complete(data, p, y)
    ensures |GapRows(data, ps, y)| == |ps| * DaysInYear(y) <==> forall p :: p in ps ==> Empty(data, p, y)
  {
    GapRowsBound(data, ps, y);
    GapRowsNone(data, ps, y);
    GapRowsAll(data, ps, y);
    forall q | q in ps
      ensures |MissingDates(data, q, y)| == 0 <==> Complete(data, q, y)
      ensures |MissingDates(data, q, y)| == DaysInYear(y) <==> Empty(data, q, y)
    {
      MissingDatesCount(data, q, y);
    }
  }

  /** What the loop leaves behind: the places, the sentinel rows and their count. */
  datatype Gaps = Gaps(places: seq<string>, missing: seq<Row>, total: nat)

  /**
   * Lines 37-48 of `process_data`: visit each place, add its missing days to
   * the count and its sentinel rows to `missing_data`. `pd.date_range` raises
   * on the first visit when the target year is outside the Timestamp range.
   */
  method FillGaps(data: seq<Row>, year: int) returns (r: Result<Gaps, Error>)
    ensures r.Err? <==> |UniquePlaces(data)| > 0 && !YearInRange(year)
    ensures r.Err? ==> r.error == YearOutOfRange(year)
    ensures r.Ok? ==> r.value.places == UniquePlaces(data) && Seeded(data, r.value.places)
    ensures r.Ok? ==> r.value.missing == GapRows(data, r.value.places, year)
    ensures r.Ok? ==> r.value.total == |r.value.missing|
  {
    var places := UniquePlaces(data);
    assert Seeded(data, places);
    var missing: seq<Row> := [];
    var total: nat := 0;
    for i := 0 to |places|
      invariant Seeded(data, places[..i])
      invariant missing == GapRows(data, places[..i], year)
      invariant total == |missing|
      invariant i > 0 ==> YearInRange(year)
    {
      if !YearInRange(year) {
        return Err(YearOutOfRange(year));
      }
      GapRowsSnoc(data, places, i, year);
      var place := places[i];
      var missingDates := MissingDates(data, place, year);
      total := total + |missingDates|;
      missing := missing + SentinelRows(place, missingDates, data[FirstRow(data, place)]);
    }
    assert places[..|places|] == places;
    return Ok(Gaps(places, missing, total));
  }
}
