/**
 * The time-weighted uptime/downtime aggregator (`analisar_por_rack`, main.py
 * lines 19-50).
 *
 * A table has a time column (column 0) and up to four value columns, one per
 * rack. Rows without a timestamp are dropped; the rest are sorted by time and
 * rows repeating a timestamp are dropped; each retained row then stands for
 * the minutes since the previous retained row (the first row for one minute).
 * Per value column, a parsed reading strictly below -5 counts that row's
 * minutes as downtime, a reading at or above -5 as uptime, and a missing or
 * unparseable reading towards neither. Timestamps are whole seconds.
 */
module RackAnalysis {
  import opened Wrappers
  import opened PressureParser

  /** Readings strictly below this pressure mean the rack has lost vacuum. */
  const Threshold: real := -5.0

  /** Assigning a five-label index to a wider table fails (main.py line 20). */
  const MaxColumns: nat := 5

  datatype TimeCell =
    | Missing             // an empty cell: NaN, None or NaT
    | Stamp(seconds: int) // a cell the date-time conversion accepts
    | Unparseable         // a cell the date-time conversion rejects

  /** One spreadsheet row: the time cell and the cells of the value columns, in order. */
  datatype Row = Row(time: TimeCell, cells: seq<Cell>)

  /** Column labels (time column first) and rows. */
  datatype Table = Table(labels: seq<string>, rows: seq<Row>)

  /** A row whose timestamp has been converted. */
  datatype Sample = Sample(time: int, cells: seq<Cell>)

  datatype TableError =
    | TooManyColumns        // more than MaxColumns columns
    | NoTimeColumn          // no column at all
    | UnparseableTimestamp  // some present time cell cannot be converted
    | NoTimestampedRows     // no row is left once rows without a timestamp are dropped

  /** The record appended for one value column. */
  datatype ColumnResult = ColumnResult(
    rack: string,
    uptimePct: real,
    downtimePct: real,
    uptimeMinutes: real,
    downtimeMinutes: real)

  datatype State = Up | Down | NoReading

  /** A data frame is rectangular: every row has one cell per value column. */
  predicate WellFormed(t: Table) {
    forall r :: r in t.rows ==> |r.cells| + 1 == |t.labels|
  }

  // ---------------------------------------------------------------------------
  // Dropping rows without a timestamp and converting the rest (lines 21-22)

  /**
   * The rows with a converted timestamp, in their original order: a missing
   * timestamp drops the row. (A row with an unparseable timestamp makes the
   * whole table fail before this is used.)
   */
  function TimestampedSamples(rows: seq<Row>): (r: seq<Sample>)
    ensures |r| <= |rows|
    ensures forall x :: x in rows && x.time.Stamp? ==> Sample(x.time.seconds, x.cells) in r
    ensures forall y :: y in r ==> Row(Stamp(y.time), y.cells) in rows
    ensures r == [] <==> forall x :: x in rows ==> !x.time.Stamp?
  {
    if rows == [] then []
    else
      var rest := TimestampedSamples(rows[1..]);
      assert forall x :: x in rows[1..] ==> x in rows;
      if rows[0].time.Stamp? then [Sample(rows[0].time.seconds, rows[0].cells)] + rest else rest
  }

  // ---------------------------------------------------------------------------
  // Sorting and dropping duplicate timestamps (lines 28-29)

  function Times(s: seq<Sample>): set<int> {
    set x | x in s :: x.time
  }

  predicate SortedByTime(s: seq<Sample>) {
    forall i, j :: 0 <= i < j < |s| ==> s[i].time <= s[j].time
  }

  predicate StrictlyIncreasing(s: seq<Sample>) {
    forall i, j :: 0 <= i < j < |s| ==> s[i].time < s[j].time
  }

  /**
   * `n` is what sorting `s` by time and keeping the first row of each
   * timestamp can give: its timestamps strictly increase, each of its rows is
   * a row of `s`, and it has a row for every timestamp of `s`. Hence exactly
   * one row per distinct timestamp. Which of several rows sharing a timestamp
   * survives is left open, as the default sort is not stable.
   */
  ghost predicate IsNormalizationOf(n: seq<Sample>, s: seq<Sample>) {
    StrictlyIncreasing(n) &&
    (forall x :: x in n ==> x in s) &&
    Times(n) == Times(s)
  }

  /**
   * `sort_values` by the time column: the result is sorted and a permutation
   * of the input. Nothing is promised about the order of rows that share a
   * timestamp.
   */
  method SortByTime(s: seq<Sample>) returns (r: seq<Sample>)
    ensures SortedByTime(r)
    ensures multiset(r) == multiset(s)
  {
    r := [];
    var i := 0;
    while i < |s|
      invariant 0 <= i <= |s|
      invariant SortedByTime(r)
      invariant multiset(r) == multiset(s[..i])
    {
      assert s[..i + 1] == s[..i] + [s[i]];
      r := InsertByTime(r, s[i]);
      i := i + 1;
    }
    assert s[..|s|] == s;
  }

  /** Insert one row into a sorted sequence, after every row of an earlier or equal time. */
  method InsertByTime(r: seq<Sample>, x: Sample) returns (q: seq<Sample>)
    requires SortedByTime(r)
    ensures SortedByTime(q)
    ensures multiset(q) == multiset(r) + multiset{x}
  {
    var j := InsertionPoint(r, x);
    InsertKeepsSorted(r, j, x);
    InsertKeepsElements(r, j, x);
    q := r[..j] + [x] + r[j..];
  }

  /** The position after every row whose time is at most x's, in a sorted sequence. */
  method InsertionPoint(r: seq<Sample>, x: Sample) returns (j: nat)
    requires SortedByTime(r)
    ensures j <= |r|
    ensures forall k :: 0 <= k < j ==> r[k].time <= x.time
    ensures forall k :: j <= k < |r| ==> x.time < r[k].time
  {
    j := 0;
    while j < |r| && r[j].time <= x.time
      invariant 0 <= j <= |r|
      invariant forall k :: 0 <= k < j ==> r[k].time <= x.time
    {
      j := j + 1;
    }
  }

  /** Inserting a row after every earlier-or-equal time and before every later one keeps the order. */
  lemma InsertKeepsSorted(r: seq<Sample>, j: nat, x: Sample)
    requires SortedByTime(r) && j <= |r|
    requires forall k :: 0 <= k < j ==> r[k].time <= x.time
    requires j < |r| ==> x.time < r[j].time
    ensures SortedByTime(r[..j] + [x] + r[j..])
  {
    var q := r[..j] + [x] + r[j..];
    forall a, b | 0 <= a < b < |q|
      ensures q[a].time <= q[b].time
    {
      var ta := if a < j then r[a].time else if a == j then x.time else r[a - 1].time;
      var tb := if b < j then r[b].time else if b == j then x.time else r[b - 1].time;
      assert q[a].time == ta && q[b].time == tb;
      if a < j && j < b {
        assert r[a].time <= x.time;
        assert j <= b - 1;
      }
    }
  }

  /** Inserting a row adds exactly that row. */
  lemma InsertKeepsElements(r: seq<Sample>, j: nat, x: Sample)
    requires j <= |r|
    ensures multiset(r[..j] + [x] + r[j..]) == multiset(r) + multiset{x}
  {
    assert r == r[..j] + r[j..];
  }

  /**
   * `drop_duplicates(keep="first")` on the time column: a row is kept exactly
   * when no earlier row has its timestamp.
   */
  function FirstOccurrences(s: seq<Sample>): (r: seq<Sample>)
    ensures forall x :: x in r ==> x in s
    ensures Times(r) == Times(s)
    ensures forall i, j :: 0 <= i < j < |r| ==> r[i].time != r[j].time
    decreases |s|
  {
    if s == [] then []
    else
      var init, last := s[..|s| - 1], s[|s| - 1];
      var rest := FirstOccurrences(init);
      TimesSnoc(init, last);
      assert s == init + [last];
      if last.time in Times(init) then rest else rest + [last]
  }

  lemma TimesSnoc(s: seq<Sample>, x: Sample)
    ensures Times(s + [x]) == Times(s) + {x.time}
  {
    var t := s + [x];
    forall y | y in t
      ensures y in s || y == x
    {
    }
    assert forall y :: y in s ==> y in t;
  }

  /** No row before position `j` has the timestamp of row `j`. */
  predicate FirstOfItsTime(s: seq<Sample>, j: nat)
    requires j < |s|
  {
    forall j' :: 0 <= j' < j ==> s[j'].time != s[j].time
  }

  /**
   * `keep="first"`: the rows kept are exactly the rows that no earlier row
   * shares a timestamp with.
   */
  lemma FirstOccurrencesKeepsFirst(s: seq<Sample>)
    ensures forall j :: 0 <= j < |s| && FirstOfItsTime(s, j) ==> s[j] in FirstOccurrences(s)
    ensures forall x :: x in FirstOccurrences(s) ==> exists j :: 0 <= j < |s| && s[j] == x && FirstOfItsTime(s, j)
  {
    FirstRowsKept(s);
    KeptRowsFirst(s);
  }

  /** Every row that is first of its timestamp survives the deduplication. */
  lemma {:induction false} FirstRowsKept(s: seq<Sample>)
    ensures forall j :: 0 <= j < |s| && FirstOfItsTime(s, j) ==> s[j] in FirstOccurrences(s)
    decreases |s|
  {
    if s != [] {
      var init, last := s[..|s| - 1], s[|s| - 1];
      var rest := FirstOccurrences(init);
      FirstRowsKept(init);
      assert FirstOccurrences(s) == if last.time in Times(init) then rest else rest + [last];
      LastFirstOfItsTime(s);
      forall j | 0 <= j < |s| && FirstOfItsTime(s, j)
        ensures s[j] in FirstOccurrences(s)
      {
        if j < |init| {
          PrefixFirstOfItsTime(s, j);
          assert s[j] == init[j] && init[j] in rest;
        }
      }
    }
  }

  /** Every row that survives the deduplication is first of its timestamp. */
  lemma {:induction false} KeptRowsFirst(s: seq<Sample>)
    ensures forall x :: x in FirstOccurrences(s) ==> exists j :: 0 <= j < |s| && s[j] == x && FirstOfItsTime(s, j)
    decreases |s|
  {
    if s != [] {
      var init, last := s[..|s| - 1], s[|s| - 1];
      var rest := FirstOccurrences(init);
      KeptRowsFirst(init);
      assert FirstOccurrences(s) == if last.time in Times(init) then rest else rest + [last];
      forall x | x in FirstOccurrences(s)
        ensures exists j :: 0 <= j < |s| && s[j] == x && FirstOfItsTime(s, j)
      {
        if x in rest {
          var j :| 0 <= j < |init| && init[j] == x && FirstOfItsTime(init, j);
          PrefixFirstOfItsTime(s, j);
          assert s[j] == x;
        } else {
          LastFirstOfItsTime(s);
          assert s[|s| - 1] == x;
        }
      }
    }
  }

  /** Before the last row, being first of a timestamp does not depend on the last row. */
  lemma PrefixFirstOfItsTime(s: seq<Sample>, j: nat)
    requires j < |s| - 1
    ensures FirstOfItsTime(s, j) <==> FirstOfItsTime(s[..|s| - 1], j)
  {
    var init := s[..|s| - 1];
    assert forall j' :: 0 <= j' <= j ==> init[j'] == s[j'];
  }

  /** The last row is first of its timestamp exactly when no earlier row has that timestamp. */
  lemma LastFirstOfItsTime(s: seq<Sample>)
    requires s != []
    ensures FirstOfItsTime(s, |s| - 1) <==> s[|s| - 1].time !in Times(s[..|s| - 1])
  {
    var init, last := s[..|s| - 1], s[|s| - 1];
    if last.time in Times(init) {
      var y :| y in init && y.time == last.time;
      var j' :| 0 <= j' < |init| && init[j'] == y;
      assert s[j'] == y;
    } else {
      forall j' | 0 <= j' < |init|
        ensures s[j'].time != last.time
      {
        assert s[j'] == init[j'];
        assert init[j'].time in Times(init);
      }
    }
  }

  /** On sorted rows, keeping the first row per timestamp gives a normalization. */
  lemma {:induction false} FirstOccurrencesOfSorted(s: seq<Sample>)
    requires SortedByTime(s)
    ensures IsNormalizationOf(FirstOccurrences(s), s)
    decreases |s|
  {
    if s != [] {
      var init, last := s[..|s| - 1], s[|s| - 1];
      assert s == init + [last];
      FirstOccurrencesOfSorted(init);
      var rest := FirstOccurrences(init);
      forall y | y in rest
        ensures y.time <= last.time
      {
        assert y in init;
      }
    }
  }

  /** Two strictly increasing sequences with the same elements are equal. */
  lemma {:induction false} StrictlyIncreasingUnique(a: seq<Sample>, b: seq<Sample>)
    requires StrictlyIncreasing(a) && StrictlyIncreasing(b)
    requires forall x :: x in a <==> x in b
    ensures a == b
    decreases |a|
  {
    if a == [] {
      assert forall k :: 0 <= k < |b| ==> b[k] in b;
    } else {
      HeadsAgree(a, b);
      TailOnly(a, b);
      TailOnly(b, a);
      StrictlyIncreasingUnique(a[1..], b[1..]);
      assert a == [a[0]] + a[1..] && b == [b[0]] + b[1..];
    }
  }

  /** Two non-empty strictly increasing sequences with the same elements start alike. */
  lemma HeadsAgree(a: seq<Sample>, b: seq<Sample>)
    requires StrictlyIncreasing(a) && StrictlyIncreasing(b) && a != []
    requires forall x :: x in a <==> x in b
    ensures b != [] && a[0] == b[0]
  {
    assert a[0] in b;
    var j :| 0 <= j < |b| && b[j] == a[0];
    assert b[0] in a;
    var i :| 0 <= i < |a| && a[i] == b[0];
    assert a[0].time <= a[i].time && b[0].time <= b[j].time;
    assert i == 0;
  }

  /** With equal heads, what follows the head of `a` follows the head of `b`. */
  lemma TailOnly(a: seq<Sample>, b: seq<Sample>)
    requires StrictlyIncreasing(a) && a != [] && b != [] && a[0] == b[0]
    requires forall x :: x in a ==> x in b
    ensures forall x :: x in a[1..] ==> x in b[1..]
  {
    forall x | x in a[1..]
      ensures x in b[1..]
    {
      var p :| 0 <= p < |a| - 1 && a[1..][p] == x;
      assert a[p + 1] == x && a[0].time < x.time;
      assert x in b;
      var q :| 0 <= q < |b| && b[q] == x;
      assert q != 0;
      assert b[1..][q - 1] == x;
    }
  }

  /** A table whose timestamps already strictly increase has only itself as normalization. */
  lemma NormalizationOfIncreasing(n: seq<Sample>, s: seq<Sample>)
    requires StrictlyIncreasing(s) && IsNormalizationOf(n, s)
    ensures n == s
  {
    forall x | x in s
      ensures x in n
    {
      assert x.time in Times(n);
      var y :| y in n && y.time == x.time;
      var i :| 0 <= i < |s| && s[i] == x;
      var j :| 0 <= j < |s| && s[j] == y;
    }
    StrictlyIncreasingUnique(n, s);
  }

  /**
   * Repeating the sort and the deduplication on a normalized table changes
   * nothing, whatever order the sort puts equal timestamps in.
   */
  lemma NormalizeIdempotent(n: seq<Sample>, s: seq<Sample>, p: seq<Sample>)
    requires IsNormalizationOf(n, s)
    requires SortedByTime(p) && multiset(p) == multiset(n)
    ensures FirstOccurrences(p) == n
  {
    FirstOccurrencesOfSorted(p);
    var f := FirstOccurrences(p);
    assert forall x :: x in p <==> x in n by {
      forall x
        ensures x in p <==> x in n
      {
        assert x in p <==> x in multiset(p);
        assert x in n <==> x in multiset(n);
      }
    }
    assert Times(p) == Times(n);
    NormalizationOfIncreasing(f, n);
  }

  /** A normalization is a normalization of a normalization. */
  lemma NormalizationTransitive(n2: seq<Sample>, n1: seq<Sample>, s: seq<Sample>)
    requires IsNormalizationOf(n2, n1) && IsNormalizationOf(n1, s)
    ensures IsNormalizationOf(n2, s)
  {
  }

  /**
   * Duplicating a row already in the table leaves the possible outcomes of
   * the sort and deduplication unchanged.
   */
  lemma DuplicateRowChangesNothing(n: seq<Sample>, s: seq<Sample>, x: Sample)
    requires x in s
    ensures IsNormalizationOf(n, s + [x]) <==> IsNormalizationOf(n, s)
  {
    TimesSnoc(s, x);
    assert forall y :: y in s + [x] <==> y in s;
  }

  /**
   * When rows that share a timestamp are identical, the normalization is
   * unique: the survivor of a duplicate timestamp cannot matter.
   */
  lemma NormalizationUnique(a: seq<Sample>, b: seq<Sample>, s: seq<Sample>)
    requires forall x, y :: x in s && y in s && x.time == y.time ==> x == y
    requires IsNormalizationOf(a, s) && IsNormalizationOf(b, s)
    ensures a == b
  {
    forall x
      ensures x in a <==> x in b
    {
      if x in a {
        assert x.time in Times(b);
        var y :| y in b && y.time == x.time;
      }
      if x in b {
        assert x.time in Times(a);
        var y :| y in a && y.time == x.time;
      }
    }
    StrictlyIncreasingUnique(a, b);
  }

  /** Sorting any permutation of `s` and keeping first occurrences normalizes `s`. */
  lemma NormalizeStep(s: seq<Sample>, p: seq<Sample>)
    requires SortedByTime(p) && multiset(p) == multiset(s)
    ensures IsNormalizationOf(FirstOccurrences(p), s)
  {
    FirstOccurrencesOfSorted(p);
    forall x
      ensures x in p <==> x in s
    {
      assert x in p <==> x in multiset(p);
      assert x in s <==> x in multiset(s);
    }
    assert Times(p) == Times(s);
  }

  // ---------------------------------------------------------------------------
  // Durations (lines 31-32)

  /**
   * The `diff_min` column: the first row stands for one minute, every later
   * row for the minutes since the row before it.
   */
  function Durations(n: seq<Sample>): (d: seq<real>)
    ensures |d| == |n|
    ensures |n| > 0 ==> d[0] == 1.0
    ensures forall i :: 0 < i < |n| ==> d[i] == GapMinutes(n[i - 1], n[i])
  {
    seq(|n|, i requires 0 <= i < |n| => if i == 0 then 1.0 else GapMinutes(n[i - 1], n[i]))
  }

  /** Minutes from one row's timestamp to the next one's. */
  function GapMinutes(a: Sample, b: Sample): (g: real)
    ensures a.time as real + 60.0 * g == b.time as real
  {
    (b.time - a.time) as real / 60.0
  }

  function Sum(d: seq<real>): real {
    if d == [] then 0.0 else Sum(d[..|d| - 1]) + d[|d| - 1]
  }

  /** After deduplication every row covers a positive stretch of time. */
  lemma DurationsPositive(n: seq<Sample>)
    requires StrictlyIncreasing(n)
    ensures forall i :: 0 <= i < |n| ==> Durations(n)[i] > 0.0
  {
    forall i | 0 < i < |n|
      ensures Durations(n)[i] > 0.0
    {
      assert n[i - 1].time < n[i].time;
    }
  }

  /**
   * The durations add up to the span from the first to the last timestamp,
   * plus the first row's conventional minute.
   */
  lemma {:induction false} DurationsTelescope(n: seq<Sample>)
    requires |n| > 0
    ensures Sum(Durations(n)) == 1.0 + (n[|n| - 1].time - n[0].time) as real / 60.0
    decreases |n|
  {
    var d := Durations(n);
    if |n| > 1 {
      var init := n[..|n| - 1];
      DurationsTelescope(init);
      var di := Durations(init);
      forall i | 0 <= i < |di|
        ensures di[i] == d[i]
      {
      }
      assert di == d[..|d| - 1];
      assert Sum(d) == Sum(di) + d[|d| - 1];
    }
  }

  // ---------------------------------------------------------------------------
  // Classification and sums (lines 35-41)

  /** `< -5` is downtime, `>= -5` is uptime; no value satisfies neither comparison. */
  function Classify(v: Option<real>): (r: State)
    ensures r == NoReading <==> v.None?
    ensures r == Down <==> v.Some? && v.value < Threshold
    ensures r == Up <==> v.Some? && v.value >= Threshold
  {
    match v
    case None => NoReading
    case Some(x) => if x < Threshold then Down else Up
  }

  /** The parsed value column (line 35). */
  function ParseColumn(n: seq<Sample>, k: nat): (v: seq<Option<real>>)
    requires CellsCover(n, k + 1)
    ensures |v| == |n|
    ensures forall i :: 0 <= i < |n| ==> v[i] == ParsePressure(n[i].cells[k])
  {
    seq(|n|, i requires 0 <= i < |n| => ParsePressure(n[i].cells[k]))
  }

  /** Every sample has at least `width` value cells. */
  ghost predicate CellsCover(n: seq<Sample>, width: nat) {
    forall x :: x in n ==> |x.cells| >= width
  }

  /** The summed `diff_min` of the rows whose reading is in state `st`. */
  function SumWhere(d: seq<real>, v: seq<Option<real>>, st: State): (r: real)
    requires |d| == |v|
    ensures (forall i :: 0 <= i < |v| ==> Classify(v[i]) != st) ==> r == 0.0
  {
    if d == [] then 0.0
    else SumWhere(d[..|d| - 1], v[..|v| - 1], st) + (if Classify(v[|v| - 1]) == st then d[|d| - 1] else 0.0)
  }

  /** Every row's minutes go to exactly one of uptime, downtime and no reading. */
  lemma {:induction false} StatesPartitionTime(d: seq<real>, v: seq<Option<real>>)
    requires |d| == |v|
    ensures SumWhere(d, v, Up) + SumWhere(d, v, Down) + SumWhere(d, v, NoReading) == Sum(d)
    decreases |d|
  {
    if d != [] {
      StatesPartitionTime(d[..|d| - 1], v[..|v| - 1]);
    }
  }

  /** With positive durations, a state has time exactly when some row is in it. */
  lemma {:induction false} SumWherePositive(d: seq<real>, v: seq<Option<real>>, st: State)
    requires |d| == |v|
    requires forall i :: 0 <= i < |d| ==> d[i] > 0.0
    ensures SumWhere(d, v, st) >= 0.0
    ensures SumWhere(d, v, st) > 0.0 <==> exists i :: 0 <= i < |v| && Classify(v[i]) == st
    decreases |d|
  {
    if d != [] {
      var d', v' := d[..|d| - 1], v[..|v| - 1];
      SumWherePositive(d', v', st);
      if exists i :: 0 <= i < |v'| && Classify(v'[i]) == st {
        var i :| 0 <= i < |v'| && Classify(v'[i]) == st;
        assert v[i] == v'[i];
      }
      if exists i :: 0 <= i < |v| && Classify(v[i]) == st {
        var i :| 0 <= i < |v| && Classify(v[i]) == st;
        if i < |v'| {
          assert v'[i] == v[i];
        }
      }
    }
  }

  /** `100 * part / total if total else 0`. */
  function Percent(part: real, total: real): (p: real)
    ensures total != 0.0 ==> p * total == 100.0 * part
    ensures total == 0.0 ==> p == 0.0
  {
    if total != 0.0 then 100.0 * part / total else 0.0
  }

  /**
   * Two non-negative parts: with a positive total their percentages add up
   * to 100, with a zero total both are 0; each lies between 0 and 100.
   */
  lemma PercentagesSum(up: real, down: real)
    requires up >= 0.0 && down >= 0.0
    ensures down + up > 0.0 ==> Percent(up, down + up) + Percent(down, down + up) == 100.0
    ensures down + up == 0.0 ==> Percent(up, down + up) == 0.0 && Percent(down, down + up) == 0.0
    ensures 0.0 <= Percent(up, down + up) <= 100.0 && 0.0 <= Percent(down, down + up) <= 100.0
  {
    var total := down + up;
    if total > 0.0 {
      DivideSum(up, down, total);
      DivideSelf(total);
      ScaleDivide(100.0, up, total);
      ScaleDivide(100.0, down, total);
      RatioAtMostOne(up, total);
      RatioAtMostOne(down, total);
    }
  }

  lemma DivideSum(x: real, z: real, y: real)
    requires y > 0.0
    ensures x / y + z / y == (x + z) / y
  {
  }

  lemma DivideSelf(y: real)
    requires y > 0.0
    ensures y / y == 1.0
  {
  }

  lemma ScaleDivide(c: real, x: real, y: real)
    requires y > 0.0
    ensures c * x / y == c * (x / y)
  {
  }

  lemma RatioAtMostOne(x: real, y: real)
    requires 0.0 <= x <= y && y > 0.0
    ensures 0.0 <= x / y <= 1.0
  {
  }

  /** The record for value column `k` (label `rack`) of the normalized rows `n` (lines 39-48). */
  function ColumnResultOf(rack: string, n: seq<Sample>, k: nat): ColumnResult
    requires CellsCover(n, k + 1)
  {
    var d := Durations(n);
    var v := ParseColumn(n, k);
    ColumnRecord(rack, SumWhere(d, v, Up), SumWhere(d, v, Down))
  }

  /** The record of a column from its uptime and downtime minutes (lines 41-48). */
  function ColumnRecord(rack: string, uptime: real, downtime: real): ColumnResult {
    var total := downtime + uptime;
    ColumnResult(rack, Percent(uptime, total), Percent(downtime, total), uptime, downtime)
  }

  /** One record per value column, in column order, without the time column. */
  function ColumnResults(labels: seq<string>, n: seq<Sample>): (r: seq<ColumnResult>)
    requires |labels| >= 1 && CellsCover(n, |labels| - 1)
    ensures |r| == |labels| - 1
  {
    if |labels| == 1 then []
    else ColumnResults(labels[..|labels| - 1], n) + [ColumnResultOf(labels[|labels| - 1], n, |labels| - 2)]
  }

  /** The records carry the column labels, in column order (line 44). */
  lemma {:induction false} ColumnResultsRacks(labels: seq<string>, n: seq<Sample>)
    requires |labels| >= 1 && CellsCover(n, |labels| - 1)
    ensures forall k :: 0 <= k < |labels| - 1 ==> ColumnResults(labels, n)[k].rack == labels[k + 1]
    decreases |labels|
  {
    if |labels| > 1 {
      var init := labels[..|labels| - 1];
      var rest := ColumnResults(init, n);
      var last := ColumnResultOf(labels[|labels| - 1], n, |labels| - 2);
      ColumnResultsRacks(init, n);
      ColumnResultRack(labels[|labels| - 1], n, |labels| - 2);
      assert ColumnResults(labels, n) == rest + [last];
      RacksOfSnoc(rest, last, labels);
    }
  }

  /** Appending a record labelled with the last column keeps every label in place. */
  lemma RacksOfSnoc(rest: seq<ColumnResult>, last: ColumnResult, labels: seq<string>)
    requires |labels| >= 2 && |rest| == |labels| - 2
    requires forall k :: 0 <= k < |rest| ==> rest[k].rack == labels[..|labels| - 1][k + 1]
    requires last.rack == labels[|labels| - 1]
    ensures forall k :: 0 <= k < |labels| - 1 ==> (rest + [last])[k].rack == labels[k + 1]
  {
    forall k | 0 <= k < |labels| - 1
      ensures (rest + [last])[k].rack == labels[k + 1]
    {
      if k < |rest| {
        assert labels[..|labels| - 1][k + 1] == labels[k + 1];
      }
    }
  }

  /** A column's record is labelled with that column's name. */
  lemma ColumnResultRack(rack: string, n: seq<Sample>, k: nat)
    requires CellsCover(n, k + 1)
    ensures ColumnResultOf(rack, n, k).rack == rack
  {
  }

  /** The record's fields in terms of the two sums. */
  lemma ColumnResultShape(rack: string, n: seq<Sample>, k: nat)
    requires CellsCover(n, k + 1)
    ensures var up := SumWhere(Durations(n), ParseColumn(n, k), Up);
      var down := SumWhere(Durations(n), ParseColumn(n, k), Down);
      ColumnResultOf(rack, n, k) == ColumnRecord(rack, up, down)
  {
  }

  /**
   * The minutes of a column: both counts are non-negative, and together with
   * the minutes of rows without a reading they make up all of the time.
   */
  lemma ColumnMinutesConserved(rack: string, n: seq<Sample>, k: nat)
    requires StrictlyIncreasing(n) && CellsCover(n, k + 1)
    ensures ColumnResultOf(rack, n, k).rack == rack
    ensures ColumnResultOf(rack, n, k).uptimeMinutes >= 0.0
    ensures ColumnResultOf(rack, n, k).downtimeMinutes >= 0.0
    ensures ColumnResultOf(rack, n, k).uptimeMinutes + ColumnResultOf(rack, n, k).downtimeMinutes
              + SumWhere(Durations(n), ParseColumn(n, k), NoReading) == Sum(Durations(n))
  {
    var d := Durations(n);
    var v := ParseColumn(n, k);
    DurationsPositive(n);
    StatesPartitionTime(d, v);
    SumWherePositive(d, v, Up);
    SumWherePositive(d, v, Down);
  }

  /** A column has counted time exactly when at least one of its readings parses. */
  lemma ColumnTimeIffReading(rack: string, n: seq<Sample>, k: nat)
    requires StrictlyIncreasing(n) && CellsCover(n, k + 1)
    ensures (ColumnResultOf(rack, n, k).uptimeMinutes + ColumnResultOf(rack, n, k).downtimeMinutes > 0.0)
        <==> (exists i :: 0 <= i < |n| && ParsePressure(n[i].cells[k]).Some?)
  {
    var d := Durations(n);
    var v := ParseColumn(n, k);
    DurationsPositive(n);
    ColumnResultShape(rack, n, k);
    RecordMinutes(rack, SumWhere(d, v, Up), SumWhere(d, v, Down));
    CountedTimeIffReading(d, v);
    ColumnReadings(n, k);
  }

  lemma ColumnReadings(n: seq<Sample>, k: nat)
    requires CellsCover(n, k + 1)
    ensures (exists i :: 0 <= i < |n| && ParseColumn(n, k)[i].Some?)
        <==> (exists i :: 0 <= i < |n| && ParsePressure(n[i].cells[k]).Some?)
  {
    var v := ParseColumn(n, k);
    assert forall i :: 0 <= i < |n| ==> v[i] == ParsePressure(n[i].cells[k]);
  }

  lemma RecordMinutes(rack: string, up: real, down: real)
    ensures ColumnRecord(rack, up, down).uptimeMinutes == up
    ensures ColumnRecord(rack, up, down).downtimeMinutes == down
  {
  }

  /** Uptime and downtime together are positive exactly when some reading parsed. */
  lemma CountedTimeIffReading(d: seq<real>, v: seq<Option<real>>)
    requires |d| == |v|
    requires forall i :: 0 <= i < |d| ==> d[i] > 0.0
    ensures SumWhere(d, v, Up) + SumWhere(d, v, Down) > 0.0 <==> exists i :: 0 <= i < |v| && v[i].Some?
  {
    SumWherePositive(d, v, Up);
    SumWherePositive(d, v, Down);
    forall i | 0 <= i < |v|
      ensures v[i].Some? <==> (Classify(v[i]) == Up || Classify(v[i]) == Down)
    {
    }
  }

  /**
   * The percentages of a column add up to 100 when it has counted time and
   * are both 0 when it has none; each lies between 0 and 100.
   */
  lemma ColumnPercentages(rack: string, n: seq<Sample>, k: nat)
    requires StrictlyIncreasing(n) && CellsCover(n, k + 1)
    ensures var r := ColumnResultOf(rack, n, k);
      && (r.uptimeMinutes + r.downtimeMinutes > 0.0 ==> r.uptimePct + r.downtimePct == 100.0)
      && (r.uptimeMinutes + r.downtimeMinutes == 0.0 ==> r.uptimePct == 0.0 && r.downtimePct == 0.0)
      && 0.0 <= r.uptimePct <= 100.0 && 0.0 <= r.downtimePct <= 100.0
  {
    var d := Durations(n);
    var v := ParseColumn(n, k);
    DurationsPositive(n);
    SumWherePositive(d, v, Up);
    SumWherePositive(d, v, Down);
    RecordPercentages(rack, SumWhere(d, v, Up), SumWhere(d, v, Down));
  }

  lemma RecordPercentages(rack: string, up: real, down: real)
    requires up >= 0.0 && down >= 0.0
    ensures var r := ColumnRecord(rack, up, down);
      && (r.uptimeMinutes + r.downtimeMinutes > 0.0 ==> r.uptimePct + r.downtimePct == 100.0)
      && (r.uptimeMinutes + r.downtimeMinutes == 0.0 ==> r.uptimePct == 0.0 && r.downtimePct == 0.0)
      && 0.0 <= r.uptimePct <= 100.0 && 0.0 <= r.downtimePct <= 100.0
  {
    PercentagesSum(up, down);
  }

  /**
   * What every record appended at line 43 satisfies: both minute counts are
   * non-negative; with counted time the two percentages add up to 100, and
   * without it both are 0; each percentage lies between 0 and 100.
   */
  predicate RecordLaws(r: ColumnResult) {
    && r.uptimeMinutes >= 0.0 && r.downtimeMinutes >= 0.0
    && (r.uptimeMinutes + r.downtimeMinutes > 0.0 ==> r.uptimePct + r.downtimePct == 100.0)
    && (r.uptimeMinutes + r.downtimeMinutes == 0.0 ==> r.uptimePct == 0.0 && r.downtimePct == 0.0)
    && 0.0 <= r.uptimePct <= 100.0 && 0.0 <= r.downtimePct <= 100.0
  }

  /** Every column's record over a normalized frame satisfies the record laws. */
  lemma ColumnRecordLaws(rack: string, n: seq<Sample>, k: nat)
    requires StrictlyIncreasing(n) && CellsCover(n, k + 1)
    ensures RecordLaws(ColumnResultOf(rack, n, k))
  {
    ColumnMinutesConserved(rack, n, k);
    ColumnPercentages(rack, n, k);
  }

  /** Record `k` of the list is the record of value column `k`, labelled `labels[k + 1]`. */
  lemma {:induction false} ColumnResultsAt(labels: seq<string>, n: seq<Sample>, k: nat)
    requires |labels| >= 1 && CellsCover(n, |labels| - 1) && k < |labels| - 1
    ensures ColumnResults(labels, n)[k] == ColumnResultOf(labels[k + 1], n, k)
    decreases |labels|
  {
    var init := labels[..|labels| - 1];
    var rest := ColumnResults(init, n);
    assert ColumnResults(labels, n) == rest + [ColumnResultOf(labels[|labels| - 1], n, |labels| - 2)];
    if k < |labels| - 2 {
      ColumnResultsAt(init, n, k);
      assert init[k + 1] == labels[k + 1];
    }
  }

  /** The whole list, record by record. */
  lemma ColumnResultsElements(labels: seq<string>, n: seq<Sample>)
    requires |labels| >= 1 && CellsCover(n, |labels| - 1)
    ensures forall k :: 0 <= k < |labels| - 1 ==> ColumnResults(labels, n)[k] == ColumnResultOf(labels[k + 1], n, k)
  {
    forall k | 0 <= k < |labels| - 1
      ensures ColumnResults(labels, n)[k] == ColumnResultOf(labels[k + 1], n, k)
    {
      ColumnResultsAt(labels, n, k);
    }
  }

  /** Over a normalized frame, every record of the list satisfies the record laws. */
  lemma ColumnResultsLaws(labels: seq<string>, n: seq<Sample>)
    requires StrictlyIncreasing(n) && |labels| >= 1 && CellsCover(n, |labels| - 1)
    ensures forall k :: 0 <= k < |labels| - 1 ==> RecordLaws(ColumnResults(labels, n)[k])
  {
    forall k | 0 <= k < |labels| - 1
      ensures RecordLaws(ColumnResults(labels, n)[k])
    {
      ColumnResultsAt(labels, n, k);
      ColumnRecordLaws(labels[k + 1], n, k);
    }
  }

  /** The threshold boundary: exactly -5 is uptime, anything below it downtime, no value neither. */
  lemma ThresholdBoundary(x: real)
    ensures Classify(Some(x)) == Down <==> x < -5.0
    ensures Classify(Some(x)) == Up <==> x >= -5.0
    ensures Classify(Some(-5.0)) == Up && Classify(Some(-5.0001)) == Down
    ensures Classify(None) == NoReading
  {
  }

  /** A single retained row counts for one minute, all of it in the state of its reading. */
  lemma SingleRowCountsOneMinute(rack: string, x: Sample, k: nat)
    requires k < |x.cells|
    ensures var r := ColumnResultOf(rack, [x], k);
      r.uptimeMinutes == (if Classify(ParsePressure(x.cells[k])) == Up then 1.0 else 0.0) &&
      r.downtimeMinutes == (if Classify(ParsePressure(x.cells[k])) == Down then 1.0 else 0.0)
  {
    var d := Durations([x]);
    var v := ParseColumn([x], k);
    ColumnResultShape(rack, [x], k);
    assert d[..0] == [] && v[..0] == [];
    assert d[0] == 1.0 && v[0] == ParsePressure(x.cells[k]);
    assert SumWhere(d, v, Up) == if Classify(v[0]) == Up then 1.0 else 0.0;
    assert SumWhere(d, v, Down) == if Classify(v[0]) == Down then 1.0 else 0.0;
  }

  /**
   * A row appended after `n` brings the gap since `n`'s last row, and that gap
   * is counted in the state of the appended row's own reading (lines 31 and
   * 39-40 pair each row's `diff_min` with that row's value).
   */
  lemma GapGoesToCurrentRow(n: seq<Sample>, x: Sample, k: nat, st: State)
    requires n != [] && CellsCover(n + [x], k + 1)
    ensures CellsCover(n, k + 1) && k < |x.cells|
    ensures SumWhere(Durations(n + [x]), ParseColumn(n + [x], k), st) ==
      SumWhere(Durations(n), ParseColumn(n, k), st) +
      (if Classify(ParsePressure(x.cells[k])) == st then GapMinutes(n[|n| - 1], x) else 0.0)
  {
    assert x in n + [x];
    assert forall y :: y in n ==> y in n + [x];
    DurationsSnoc(n, x);
    ParseColumnSnoc(n, x, k);
    SumWhereSnoc(Durations(n), ParseColumn(n, k), GapMinutes(n[|n| - 1], x), ParsePressure(x.cells[k]), st);
  }

  /** Appending a row appends its gap since the previous row to the durations. */
  lemma DurationsSnoc(n: seq<Sample>, x: Sample)
    requires n != []
    ensures Durations(n + [x]) == Durations(n) + [GapMinutes(n[|n| - 1], x)]
  {
    var m := n + [x];
    var d, dn := Durations(m), Durations(n);
    forall i | 0 < i < |n|
      ensures d[i] == dn[i]
    {
      assert m[i] == n[i] && m[i - 1] == n[i - 1];
    }
    assert m[|n| - 1] == n[|n| - 1] && m[|n|] == x;
  }

  /** Appending a row appends its converted reading to the column. */
  lemma ParseColumnSnoc(n: seq<Sample>, x: Sample, k: nat)
    requires CellsCover(n + [x], k + 1)
    ensures CellsCover(n, k + 1) && k < |x.cells|
    ensures ParseColumn(n + [x], k) == ParseColumn(n, k) + [ParsePressure(x.cells[k])]
  {
    var m := n + [x];
    assert x in m;
    assert forall y :: y in n ==> y in m;
    var v, vn := ParseColumn(m, k), ParseColumn(n, k);
    forall i | 0 <= i < |n|
      ensures v[i] == vn[i]
    {
      assert m[i] == n[i];
    }
    assert m[|n|] == x;
  }

  lemma SumWhereSnoc(d: seq<real>, v: seq<Option<real>>, x: real, y: Option<real>, st: State)
    requires |d| == |v|
    ensures SumWhere(d + [x], v + [y], st) == SumWhere(d, v, st) + (if Classify(y) == st then x else 0.0)
  {
    assert (d + [x])[..|d|] == d && (v + [y])[..|v|] == v;
  }

  // ---------------------------------------------------------------------------
  // The whole table (lines 19-50)

  /**
   * `analisar_por_rack`. A table with more than five columns, with no column,
   * with a time cell that cannot be converted, or with no row left once rows
   * without a timestamp are dropped is rejected with that error. Otherwise
   * the result has one record per value column, in column order, computed
   * from one normalization of the timestamped rows (sorted, one row per
   * timestamp), the same for every column.
   */
  method AnalyzeByRack(t: Table) returns (res: Result<seq<ColumnResult>, TableError>)
    requires WellFormed(t)
    ensures res == Err(TooManyColumns) <==> |t.labels| > MaxColumns
    ensures res == Err(NoTimeColumn) <==> |t.labels| == 0
    ensures res == Err(UnparseableTimestamp) <==>
      1 <= |t.labels| <= MaxColumns && exists x :: x in t.rows && x.time.Unparseable?
    ensures res == Err(NoTimestampedRows) <==>
      1 <= |t.labels| <= MaxColumns && forall x :: x in t.rows ==> x.time.Missing?
    ensures res.Ok? <==>
      1 <= |t.labels| <= MaxColumns && (forall x :: x in t.rows ==> !x.time.Unparseable?) &&
      exists x :: x in t.rows && x.time.Stamp?
    ensures res.Ok? ==> |res.value| == |t.labels| - 1
    ensures res.Ok? && |t.labels| > 1 ==>
      exists n :: IsNormalizationOf(n, TimestampedSamples(t.rows)) && CellsCover(n, |t.labels| - 1) &&
        res.value == ColumnResults(t.labels, n)
    ensures res.Ok? ==> forall k :: 0 <= k < |res.value| ==>
      res.value[k].rack == t.labels[k + 1] && RecordLaws(res.value[k])
  {
    if |t.labels| > MaxColumns {
      return Err(TooManyColumns);
    }
    if |t.labels| == 0 {
      return Err(NoTimeColumn);
    }
    if exists x :: x in t.rows && x.time.Unparseable? {
      return Err(UnparseableTimestamp);
    }
    var frame := TimestampedSamples(t.rows);
    if frame == [] {
      return Err(NoTimestampedRows);
    }
    var n, diffMin := NormalizeFrame(frame, |t.labels| - 1);
    var results := RecordColumns(t.labels, n, diffMin);
    if |t.labels| > 1 {
      ColumnResultsRacks(t.labels, n);
      ColumnResultsLaws(t.labels, n);
    }
    res := Ok(results);
  }

  /**
   * Lines 27-32: once per value column, sort by time, drop the later rows of
   * a repeated timestamp and recompute `diff_min`. With no value column the
   * frame is left as it is and no `diff_min` exists.
   */
  method NormalizeFrame(frame: seq<Sample>, columns: nat) returns (n: seq<Sample>, diffMin: seq<real>)
    requires CellsCover(frame, columns)
    ensures columns == 0 ==> n == frame && diffMin == []
    ensures columns > 0 ==> IsNormalizationOf(n, frame) && diffMin == Durations(n)
    ensures CellsCover(n, columns)
  {
    n, diffMin := frame, [];
    var col := 0;
    while col < columns
      invariant 0 <= col <= columns
      invariant col == 0 ==> n == frame && diffMin == []
      invariant col > 0 ==> IsNormalizationOf(n, frame) && diffMin == Durations(n)
      invariant CellsCover(n, columns)
    {
      var sorted := SortByTime(n);
      var deduped := FirstOccurrences(sorted);
      if col == 0 {
        NormalizeStep(n, sorted);
      } else {
        NormalizeIdempotent(n, frame, sorted);
        assert deduped == n;
      }
      n := deduped;
      diffMin := Durations(n);
      col := col + 1;
    }
  }

  /** Lines 35-48 for one column: convert it, sum its minutes per state and build its record. */
  method ColumnRecordFor(rack: string, n: seq<Sample>, diffMin: seq<real>, k: nat) returns (record: ColumnResult)
    requires CellsCover(n, k + 1) && diffMin == Durations(n)
    ensures record == ColumnResultOf(rack, n, k)
  {
    var parsed := ParseColumn(n, k);
    var downtime := SumWhere(diffMin, parsed, Down);
    var uptime := SumWhere(diffMin, parsed, Up);
    ColumnResultShape(rack, n, k);
    record := ColumnRecord(rack, uptime, downtime);
  }

  /** The records of the first `col + 1` labels extend those of the first `col` by column `col`'s. */
  lemma ColumnResultsStep(labels: seq<string>, n: seq<Sample>, col: nat)
    requires 1 <= col < |labels| && CellsCover(n, |labels| - 1)
    ensures ColumnResults(labels[..col + 1], n) == ColumnResults(labels[..col], n) + [ColumnResultOf(labels[col], n, col - 1)]
  {
    assert labels[..col + 1][..col] == labels[..col];
  }

  /** Lines 34-49: one record per value column, from the normalized rows and their `diff_min`. */
  method RecordColumns(labels: seq<string>, n: seq<Sample>, diffMin: seq<real>) returns (results: seq<ColumnResult>)
    requires |labels| >= 1 && CellsCover(n, |labels| - 1)
    requires |labels| > 1 ==> diffMin == Durations(n)
    ensures results == ColumnResults(labels, n)
  {
    results := [];
    var col := 1;
    while col < |labels|
      invariant 1 <= col <= |labels|
      invariant results == ColumnResults(labels[..col], n)
    {
      var record := ColumnRecordFor(labels[col], n, diffMin, col - 1);
      ColumnResultsStep(labels, n, col);
      results := results + [record];
      col := col + 1;
    }
    assert labels[..col] == labels;
  }
}
