/**
 * The missing-data percentage of `process_data`:
 * `total_missing_days / (len(places) * days_in_year) * 100`, computed here
 * as an exact rational from the two counts.
 */
module Report {

  function MissingPercent(missing: nat, expected: nat): real
    requires expected > 0
  {
    (missing as real) / (expected as real) * 100.0
  }

  /**
   * With no more missing days than expected ones the percentage lies in
   * [0, 100]; it is 0 exactly when nothing is missing and 100 exactly when
   * everything is.
   */
  lemma PercentBounds(missing: nat, expected: nat)
    requires 0 < expected && missing <= expected
    ensures 0.0 <= MissingPercent(missing, expected) <= 100.0
    ensures MissingPercent(missing, expected) == 0.0 <==> missing == 0
    ensures MissingPercent(missing, expected) == 100.0 <==> missing == expected
  {
    var m, e := missing as real, expected as real;
    var q := m / e;
    assert MissingPercent(missing, expected) == q * 100.0;
    assert q * e == m;
    assert q * e - e == (q - 1.0) * e;
  }
}
