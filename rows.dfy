/**
 * The records the pipeline moves around: a spreadsheet row as read, a row
 * after its Year, Mth and Day have become a date, the (Place, Date) key the
 * rows are deduplicated and sorted by, and the pipeline's error outcomes.
 */
module Rows {
  import opened Wrappers
  import opened Calendar

  /** The RF value of a row synthesised for a day without an observation. */
  const Sentinel: real := -99.9

  /** One spreadsheet row; an empty Year, Mth or Day cell is `None`. */
  datatype RawRow = RawRow(place: string, year: Option<int>, month: Option<int>, day: Option<int>,
                           rf: real, lng: real, lat: real)

  /** One row after normalisation: Year, Mth and Day replaced by a Date. */
  datatype Row = Row(place: string, date: Date, rf: real, lng: real, lat: real)

  datatype Error =
    | InvalidDate(row: nat)   // `pd.to_datetime` raises on this row's Year-Mth-Day
    | YearOutOfRange(year: int)  // `pd.date_range` raises on the target year
    | NoPlaces                // an empty upload: line 33 raises, and line 59 would divide by zero places

  type Key = (string, Date)

  function KeyOf(r: Row): Key {
    (r.place, r.date)
  }

  function KeySet(s: seq<Row>): set<Key> {
    set r | r in s :: KeyOf(r)
  }

  /** No two rows share a (Place, Date) key. */
  predicate UniqueKeys(s: seq<Row>) {
    forall i, j :: 0 <= i < j < |s| ==> KeyOf(s[i]) != KeyOf(s[j])
  }

  lemma UniqueKeysAppend(a: seq<Row>, b: seq<Row>)
    requires UniqueKeys(a) && UniqueKeys(b)
    requires forall i, j :: 0 <= i < |a| && 0 <= j < |b| ==> KeyOf(a[i]) != KeyOf(b[j])
    ensures UniqueKeys(a + b)
  {
    var s := a + b;
    forall i, j | 0 <= i < j < |s| ensures KeyOf(s[i]) != KeyOf(s[j]) {
      if j < |a| {
        assert s[i] == a[i] && s[j] == a[j];
      } else if i < |a| {
        assert s[i] == a[i] && s[j] == b[j - |a|];
      } else {
        assert s[i] == b[i - |a|] && s[j] == b[j - |a|];
      }
    }
  }

  /** Python's ordering of strings: lexicographic by code point, a prefix first. */
  predicate StrLess(a: string, b: string) {
    if |a| == 0 then |b| > 0
    else if |b| == 0 then false
    else a[0] < b[0] || (a[0] == b[0] && StrLess(a[1..], b[1..]))
  }

  /** The order of `sort_values(by=['Place', 'Date'])`. */
  predicate KeyLess(a: Key, b: Key) {
    StrLess(a.0, b.0) || (a.0 == b.0 && DateLess(a.1, b.1))
  }

  predicate KeyLeq(a: Key, b: Key) {
    a == b || KeyLess(a, b)
  }

  lemma {:induction false} StrLessIrreflexive(a: string)
    ensures !StrLess(a, a)
  {
    if |a| > 0 {
      StrLessIrreflexive(a[1..]);
    }
  }

  lemma {:induction false} StrLessTransitive(a: string, b: string, c: string)
    requires StrLess(a, b) && StrLess(b, c)
    ensures StrLess(a, c)
  {
    if |a| > 0 && a[0] == b[0] && b[0] == c[0] {
      StrLessTransitive(a[1..], b[1..], c[1..]);
    }
  }

  lemma {:induction false} StrLessTotal(a: string, b: string)
    ensures StrLess(a, b) || a == b || StrLess(b, a)
  {
    if |a| > 0 && |b| > 0 && a[0] == b[0] {
      StrLessTotal(a[1..], b[1..]);
      if a[1..] == b[1..] {
        assert a == [a[0]] + a[1..] && b == [b[0]] + b[1..];
      }
    }
  }

  lemma {:induction false} StrLessAsymmetric(a: string, b: string)
    requires StrLess(a, b)
    ensures !StrLess(b, a)
  {
    if StrLess(b, a) {
      StrLessTransitive(a, b, a);
      StrLessIrreflexive(a);
    }
  }

  /** The (Place, Date) order is a strict total order. */
  lemma KeyOrder(a: Key, b: Key, c: Key)
    ensures !KeyLess(a, a)
    ensures KeyLess(a, b) || a == b || KeyLess(b, a)
    ensures KeyLess(a, b) ==> !KeyLess(b, a)
    ensures KeyLess(a, b) && KeyLess(b, c) ==> KeyLess(a, c)
  {
    StrLessIrreflexive(a.0);
    StrLessTotal(a.0, b.0);
    if StrLess(a.0, b.0) {
      StrLessAsymmetric(a.0, b.0);
    }
    if KeyLess(a, b) && KeyLess(b, c) && StrLess(a.0, b.0) && StrLess(b.0, c.0) {
      StrLessTransitive(a.0, b.0, c.0);
    }
  }

  lemma KeyLeqTransitive(a: Key, b: Key, c: Key)
    requires KeyLeq(a, b) && KeyLeq(b, c)
    ensures KeyLeq(a, c)
  {
    KeyOrder(a, b, c);
  }

  lemma KeyLeqTotal(a: Key, b: Key)
    ensures KeyLeq(a, b) || KeyLeq(b, a)
  {
    KeyOrder(a, b, a);
  }
}
