/**
 * Combining real and sentinel rows: `pd.concat([data, missing_data])`,
 * `drop_duplicates(subset=['Place', 'Date'])` (which keeps the first row of
 * each key), `sort_values(by=['Place', 'Date'])`, and the shape of the
 * `pivot_table` over the result.
 */
module Merge {
  import opened Calendar
  import opened Rows

  /** Index of the first row of `s` with key `k`, or `|s|` when no row has it. */
  function FirstWithKey(s: seq<Row>, k: Key): (i: nat)
    ensures i <= |s|
    ensures i < |s| ==> KeyOf(s[i]) == k
    ensures forall j :: 0 <= j < i ==> KeyOf(s[j]) != k
  {
    if |s| == 0 then 0
    else
      var n := |s| - 1;
      var i := FirstWithKey(s[..n], k);
      if i < n then i else if KeyOf(s[n]) == k then n else |s|
  }

  /** Row `r` is the first row of `s` with its (Place, Date) key. */
  predicate IsFirstOccurrence(s: seq<Row>, r: Row) {
    FirstWithKey(s, KeyOf(r)) < |s| && s[FirstWithKey(s, KeyOf(r))] == r
  }

  /** `drop_duplicates(subset=['Place', 'Date'])`: a row survives unless an earlier row has its key. */
  function Dedup(s: seq<Row>): seq<Row> {
    if |s| == 0 then []
    else
      var n := |s| - 1;
      if FirstWithKey(s[..n], KeyOf(s[n])) < n then Dedup(s[..n]) else Dedup(s[..n]) + [s[n]]
  }

  /**
   * Deduplication keeps exactly the first row of every key: what it returns
   * has no repeated key and still has every key of its input.
   */
  lemma {:induction false} DedupKeepsFirst(s: seq<Row>)
    ensures forall r :: r in Dedup(s) <==> IsFirstOccurrence(s, r)
    ensures UniqueKeys(Dedup(s))
  {
    if |s| > 0 {
      var n := |s| - 1;
      var pre, x := s[..n], s[n];
      DedupKeepsFirst(pre);
      var kept := Dedup(pre);
      forall r ensures IsFirstOccurrence(s, r) <==> IsFirstOccurrence(pre, r) || (r == x && FirstWithKey(pre, KeyOf(x)) == n) {
        var i := FirstWithKey(pre, KeyOf(r));
        if i < n {
          assert s[i] == pre[i];
        }
      }
      if FirstWithKey(pre, KeyOf(x)) == n {
        forall j | 0 <= j < |kept| ensures KeyOf(kept[j]) != KeyOf(x) {
          assert kept[j] in kept;
        }
        assert Dedup(s) == kept + [x];
      }
    }
  }

  /** On rows whose keys are already unique, deduplication changes nothing. */
  lemma {:induction false} DedupIdempotent(s: seq<Row>)
    requires UniqueKeys(s)
    ensures Dedup(s) == s
  {
    if |s| > 0 {
      var n := |s| - 1;
      assert s[..n] + [s[n]] == s;
      DedupIdempotent(s[..n]);
      assert FirstWithKey(s[..n], KeyOf(s[n])) == n;
    }
  }

  lemma UniqueFirstOccurrence(s: seq<Row>, r: Row)
    requires UniqueKeys(s)
    ensures r in s <==> IsFirstOccurrence(s, r)
  {
    if r in s {
      var j :| 0 <= j < |s| && s[j] == r;
      assert FirstWithKey(s, KeyOf(r)) == j;
    }
  }

  lemma {:induction false} FirstWithKeyAppend(a: seq<Row>, b: seq<Row>, k: Key)
    ensures FirstWithKey(a + b, k) ==
      if FirstWithKey(a, k) < |a| then FirstWithKey(a, k) else |a| + FirstWithKey(b, k)
  {
    if |b| > 0 {
      var n := |b| - 1;
      assert (a + b)[..|a + b| - 1] == a + b[..n];
      FirstWithKeyAppend(a, b[..n], k);
    } else {
      assert a + b == a;
    }
  }

  /** Ascending by (Place, Date), ties allowed. */
  predicate Sorted(s: seq<Row>) {
    forall i, j :: 0 <= i < j < |s| ==> KeyLeq(KeyOf(s[i]), KeyOf(s[j]))
  }

  /** Ascending by (Place, Date) with no tie. */
  predicate StrictlySorted(s: seq<Row>) {
    forall i, j :: 0 <= i < j < |s| ==> KeyLess(KeyOf(s[i]), KeyOf(s[j]))
  }

  lemma SortedCons(h: Row, t: seq<Row>)
    requires Sorted(t)
    requires forall e :: e in t ==> KeyLeq(KeyOf(h), KeyOf(e))
    ensures Sorted([h] + t)
  {
    var s := [h] + t;
    forall i, j | 0 <= i < j < |s| ensures KeyLeq(KeyOf(s[i]), KeyOf(s[j])) {
      if i == 0 {
        assert s[j] in t;
      } else {
        assert s[i] == t[i - 1] && s[j] == t[j - 1];
      }
    }
  }

  lemma StrictlySortedCons(h: Row, t: seq<Row>)
    requires StrictlySorted(t)
    requires forall e :: e in t ==> KeyLess(KeyOf(h), KeyOf(e))
    ensures StrictlySorted([h] + t)
  {
    var s := [h] + t;
    forall i, j | 0 <= i < j < |s| ensures KeyLess(KeyOf(s[i]), KeyOf(s[j])) {
      if i == 0 {
        assert s[j] in t;
      } else {
        assert s[i] == t[i - 1] && s[j] == t[j - 1];
      }
    }
  }

  /** Insert `x` into ascending `s` before the first row not below it. */
  function Insert(x: Row, s: seq<Row>): (r: seq<Row>)
    requires Sorted(s)
    ensures Sorted(r)
    ensures multiset(r) == multiset(s) + multiset{x}
  {
    if |s| == 0 then [x]
    else if KeyLeq(KeyOf(x), KeyOf(s[0])) then
      assert forall e :: e in s ==> KeyLeq(KeyOf(x), KeyOf(e)) by {
        forall e | e in s ensures KeyLeq(KeyOf(x), KeyOf(e)) {
          var j :| 0 <= j < |s| && s[j] == e;
          if j > 0 {
            KeyLeqTransitive(KeyOf(x), KeyOf(s[0]), KeyOf(e));
          }
        }
      }
      SortedCons(x, s);
      [x] + s
    else
      assert s == [s[0]] + s[1..];
      var rest := Insert(x, s[1..]);
      assert forall e :: e in rest ==> KeyLeq(KeyOf(s[0]), KeyOf(e)) by {
        KeyLeqTotal(KeyOf(x), KeyOf(s[0]));
        forall e | e in rest ensures KeyLeq(KeyOf(s[0]), KeyOf(e)) {
          assert e in multiset(rest);
          if e != x {
            assert e in s[1..];
          }
        }
      }
      SortedCons(s[0], rest);
      [s[0]] + rest
  }

  /** `sort_values(by=['Place', 'Date'])`, as insertion sort. */
  function Sort(s: seq<Row>): (r: seq<Row>)
    ensures Sorted(r)
    ensures multiset(r) == multiset(s)
  {
    if |s| == 0 then []
    else
      assert s == [s[0]] + s[1..];
      Insert(s[0], Sort(s[1..]))
  }

  lemma {:induction false} InsertStrict(x: Row, s: seq<Row>)
    requires Sorted(s) && StrictlySorted(s)
    requires forall e :: e in s ==> KeyOf(e) != KeyOf(x)
    ensures StrictlySorted(Insert(x, s))
  {
    if |s| > 0 {
      KeyOrder(KeyOf(x), KeyOf(s[0]), KeyOf(x));
      if KeyLeq(KeyOf(x), KeyOf(s[0])) {
        forall e | e in s ensures KeyLess(KeyOf(x), KeyOf(e)) {
          var j :| 0 <= j < |s| && s[j] == e;
          if j > 0 {
            KeyOrder(KeyOf(x), KeyOf(s[0]), KeyOf(e));
          }
        }
        StrictlySortedCons(x, s);
      } else {
        var rest := Insert(x, s[1..]);
        InsertStrict(x, s[1..]);
        forall e | e in rest ensures KeyLess(KeyOf(s[0]), KeyOf(e)) {
          assert e in multiset(rest);
          if e != x {
            assert e in s[1..];
          }
        }
        StrictlySortedCons(s[0], rest);
      }
    }
  }

  /** Sorting rows with distinct keys orders them strictly by (Place, Date). */
  lemma {:induction false} SortStrict(s: seq<Row>)
    requires UniqueKeys(s)
    ensures StrictlySorted(Sort(s))
    ensures UniqueKeys(Sort(s))
  {
    if |s| > 0 {
      assert s == [s[0]] + s[1..];
      SortStrict(s[1..]);
      var rest := Sort(s[1..]);
      forall e | e in rest ensures KeyOf(e) != KeyOf(s[0]) {
        assert e in multiset(rest);
        var j :| 0 <= j < |s[1..]| && s[1..][j] == e;
        assert s[j + 1] == e;
      }
      InsertStrict(s[0], rest);
    }
    var r := Sort(s);
    forall i, j | 0 <= i < j < |r| ensures KeyOf(r[i]) != KeyOf(r[j]) {
      KeyOrder(KeyOf(r[i]), KeyOf(r[j]), KeyOf(r[i]));
    }
  }

  /** Two strictly ordered arrangements of the same non-empty multiset start with the same row. */
  lemma SameHead(a: seq<Row>, b: seq<Row>)
    requires StrictlySorted(a) && StrictlySorted(b)
    requires multiset(a) == multiset(b) && |a| > 0
    ensures |b| > 0 && a[0] == b[0]
  {
    assert a[0] in multiset(b);
    assert b[0] in multiset(a);
    if a[0] != b[0] {
      var i :| 0 <= i < |a| && a[i] == b[0];
      var j :| 0 <= j < |b| && b[j] == a[0];
      KeyOrder(KeyOf(a[0]), KeyOf(b[0]), KeyOf(a[0]));
      assert false;
    }
  }

  /** Removing the same head from both sides keeps the multisets equal. */
  lemma SameTail(a: seq<Row>, b: seq<Row>)
    requires |a| > 0 && |b| > 0 && a[0] == b[0] && multiset(a) == multiset(b)
    ensures multiset(a[1..]) == multiset(b[1..])
  {
    assert a == [a[0]] + a[1..] && b == [b[0]] + b[1..];
    assert multiset(a[1..]) == multiset(a) - multiset{a[0]};
    assert multiset(b[1..]) == multiset(b) - multiset{b[0]};
  }

  /**
   * Strict (Place, Date) order fixes the arrangement of a collection of rows:
   * whatever algorithm `sort_values` uses, its output on rows with distinct
   * keys is the one `Sort` gives.
   */
  lemma {:induction false} StrictlySortedDetermined(a: seq<Row>, b: seq<Row>)
    requires StrictlySorted(a) && StrictlySorted(b)
    requires multiset(a) == multiset(b)
    ensures a == b
  {
    if |a| == 0 {
      assert |multiset(b)| == 0;
    } else {
      SameHead(a, b);
      SameTail(a, b);
      StrictlySortedDetermined(a[1..], b[1..]);
      assert a == [a[0]] + a[1..] && b == [b[0]] + b[1..];
    }
  }

  /** The combined rows: real rows first, deduplicated, then sorted. */
  function Combine(data: seq<Row>, missing: seq<Row>): seq<Row> {
    Sort(Dedup(data + missing))
  }

  /**
   * When no sentinel row shares a key with a real row and the sentinel keys
   * are distinct, the combined rows are the first real row of every key plus
   * every sentinel row, strictly ordered by (Place, Date), with no repeated
   * key: a real row is never replaced by a sentinel one.
   */
  lemma CombineSpec(data: seq<Row>, missing: seq<Row>)
    requires UniqueKeys(missing)
    requires forall r :: r in missing ==> FirstWithKey(data, KeyOf(r)) == |data|
    ensures forall r :: r in Combine(data, missing) <==> IsFirstOccurrence(data, r) || r in missing
    ensures StrictlySorted(Combine(data, missing))
    ensures UniqueKeys(Combine(data, missing))
  {
    DedupKeepsFirst(data + missing);
    SortStrict(Dedup(data + missing));
    forall r ensures r in Combine(data, missing) <==> IsFirstOccurrence(data, r) || r in missing {
      CombineMember(data, missing, r);
    }
  }

  lemma CombineMember(data: seq<Row>, missing: seq<Row>, r: Row)
    requires UniqueKeys(missing)
    requires forall r :: r in missing ==> FirstWithKey(data, KeyOf(r)) == |data|
    ensures r in Combine(data, missing) <==> IsFirstOccurrence(data, r) || r in missing
  {
    CombineKeepsFirst(data + missing, r);
    FirstOccurrenceAppend(data, missing, r);
  }

  lemma CombineKeepsFirst(all: seq<Row>, r: Row)
    ensures r in Sort(Dedup(all)) <==> IsFirstOccurrence(all, r)
  {
    var kept := Dedup(all);
    assert r in Sort(kept) <==> r in kept by {
      assert r in Sort(kept) <==> r in multiset(Sort(kept));
      assert r in kept <==> r in multiset(kept);
    }
    DedupKeepsFirst(all);
  }

  lemma FirstOccurrenceAppend(data: seq<Row>, missing: seq<Row>, r: Row)
    requires UniqueKeys(missing)
    requires forall r :: r in missing ==> FirstWithKey(data, KeyOf(r)) == |data|
    ensures IsFirstOccurrence(data + missing, r) <==> IsFirstOccurrence(data, r) || r in missing
  {
    UniqueFirstOccurrence(missing, r);
    FirstWithKeyAppend(data, missing, KeyOf(r));
    FirstOccurrenceSplit(data, missing, r);
  }

  /** The first occurrence in `a + b` lies in `a` when `a` has the key, and otherwise in `b`. */
  lemma FirstOccurrenceSplit(a: seq<Row>, b: seq<Row>, r: Row)
    requires r in b ==> FirstWithKey(a, KeyOf(r)) == |a|
    requires r in b <==> IsFirstOccurrence(b, r)
    requires FirstWithKey(a + b, KeyOf(r)) ==
      if FirstWithKey(a, KeyOf(r)) < |a| then FirstWithKey(a, KeyOf(r)) else |a| + FirstWithKey(b, KeyOf(r))
    ensures IsFirstOccurrence(a + b, r) <==> IsFirstOccurrence(a, r) || r in b
  {
    var all := a + b;
    var k := KeyOf(r);
    var i := FirstWithKey(a, k);
    if i < |a| {
      assert all[i] == a[i];
      assert r !in b;
    } else {
      var j := FirstWithKey(b, k);
      assert !IsFirstOccurrence(a, r);
      if j < |b| {
        assert all[|a| + j] == b[j];
      }
    }
  }

  /** The `pivot_table` over (Date, Place), keyed here by (Place, Date). */
  datatype Matrix = Matrix(dates: set<Date>, places: set<string>, cells: map<Key, real>)

  /**
   * The RF of every key, for rows with distinct keys as after deduplication.
   * On duplicate keys pandas would average the values; this map keeps one.
   */
  function Cells(s: seq<Row>): map<Key, real> {
    if |s| == 0 then map[]
    else Cells(s[..|s| - 1])[KeyOf(s[|s| - 1]) := s[|s| - 1].rf]
  }

  function Pivot(s: seq<Row>): Matrix {
    Matrix(set r | r in s :: r.date, set r | r in s :: r.place, Cells(s))
  }

  lemma {:induction false} CellsKeys(s: seq<Row>)
    ensures Cells(s).Keys == KeySet(s)
  {
    if |s| > 0 {
      var n := |s| - 1;
      assert s == s[..n] + [s[n]];
      CellsKeys(s[..n]);
      assert KeySet(s) == KeySet(s[..n]) + {KeyOf(s[n])};
    }
  }

  lemma {:induction false} CellsValues(s: seq<Row>)
    requires UniqueKeys(s)
    ensures forall r :: r in s ==> KeyOf(r) in Cells(s) && Cells(s)[KeyOf(r)] == r.rf
  {
    if |s| > 0 {
      var n := |s| - 1;
      var pre := s[..n];
      assert s == pre + [s[n]];
      CellsValues(pre);
      forall r | r in s ensures KeyOf(r) in Cells(s) && Cells(s)[KeyOf(r)] == r.rf {
        if r != s[n] {
          var j :| 0 <= j < n && pre[j] == r;
          assert KeyOf(s[j]) != KeyOf(s[n]);
        }
      }
    }
  }

  /**
   * The matrix has a cell for exactly the (Place, Date) keys of the rows, each
   * under a row label and a column label of the matrix; when the keys are
   * distinct each cell holds the RF of the one row with its key (the mean of a
   * single value).
   */
  lemma PivotCells(s: seq<Row>)
    ensures Pivot(s).cells.Keys == KeySet(s)
    ensures forall k :: k in Pivot(s).cells ==> k.0 in Pivot(s).places && k.1 in Pivot(s).dates
    ensures UniqueKeys(s) ==> forall r :: r in s ==> Pivot(s).cells[KeyOf(r)] == r.rf
  {
    CellsKeys(s);
    if UniqueKeys(s) {
      CellsValues(s);
    }
    forall k | k in Pivot(s).cells ensures k.0 in Pivot(s).places && k.1 in Pivot(s).dates {
      var r :| r in s && KeyOf(r) == k;
    }
  }
}
