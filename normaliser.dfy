/**
 * The preprocessing of `process_data`: empty Year, Mth and Day cells are
 * filled with the target year, 1 and 1, and the three columns are replaced by
 * the date they name; a triple that is not a day `pd.to_datetime` accepts
 * stops the whole upload.
 */
module Normaliser {
  import opened Wrappers
  import opened Calendar
  import opened Rows

  /** The date a raw row names once its empty cells take their defaults. */
  function ResolvedDate(raw: RawRow, year: int): Date {
    Date(raw.year.GetOr(year), raw.month.GetOr(1), raw.day.GetOr(1))
  }

  /**
   * All rows, each with its date, or the first row whose date is invalid.
   * The output keeps the input's order and every other column.
   */
  function Normalise(raws: seq<RawRow>, year: int): (r: Result<seq<Row>, Error>)
    ensures r.Ok? <==> forall i :: 0 <= i < |raws| ==> ValidDate(ResolvedDate(raws[i], year))
    ensures r.Ok? ==> |r.value| == |raws|
    ensures r.Ok? ==> forall i :: 0 <= i < |raws| ==>
      && r.value[i].place == raws[i].place
      && r.value[i].rf == raws[i].rf
      && r.value[i].lng == raws[i].lng
      && r.value[i].lat == raws[i].lat
      && r.value[i].date.year == (if raws[i].year.Some? then raws[i].year.value else year)
      && r.value[i].date.month == (if raws[i].month.Some? then raws[i].month.value else 1)
      && r.value[i].date.day == (if raws[i].day.Some? then raws[i].day.value else 1)
      && ValidDate(r.value[i].date)
    ensures r.Err? ==> r.error.InvalidDate? && r.error.row < |raws|
    ensures r.Err? ==> !ValidDate(ResolvedDate(raws[r.error.row], year))
    ensures r.Err? ==> forall i :: 0 <= i < r.error.row ==> ValidDate(ResolvedDate(raws[i], year))
  {
    if |raws| == 0 then Ok([])
    else
      var n := |raws| - 1;
      var raw := raws[n];
      match Normalise(raws[..n], year)
      case Err(e) => Err(e)
      case Ok(rows) =>
        var date := ResolvedDate(raw, year);
        if ValidDate(date) then Ok(rows + [Row(raw.place, date, raw.rf, raw.lng, raw.lat)])
        else Err(InvalidDate(n))
  }
}
