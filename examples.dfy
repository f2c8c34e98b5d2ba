/**
 * The worked example of the aggregator, at the level of one normalized
 * series, of a raw table, and of a caller of AnalyzeByRack.
 */
module RackExamples {
  import opened Wrappers
  import opened PressureParser
  import opened RackAnalysis

  /**
   * The worked example: readings -10, -2, -10 at t0, t0 + 1 min and t0 + 6 min.
   * The five minutes between the last two rows go to the last row's reading,
   * so downtime is 1 + 5 = 6 minutes and uptime 1 minute.
   */
  lemma WorkedExample(t0: int)
    ensures ColumnResultOf("Rack 1", ExampleSeries(t0), 0) == ColumnResult("Rack 1", 100.0 / 7.0, 600.0 / 7.0, 1.0, 6.0)
  {
    var n := ExampleSeries(t0);
    ExampleSums(t0);
    ColumnResultShape("Rack 1", n, 0);
    assert Percent(1.0, 6.0 + 1.0) == 100.0 / 7.0;
    assert Percent(6.0, 6.0 + 1.0) == 600.0 / 7.0;
  }

  lemma ExampleSums(t0: int)
    ensures SumWhere(Durations(ExampleSeries(t0)), ParseColumn(ExampleSeries(t0), 0), Up) == 1.0
    ensures SumWhere(Durations(ExampleSeries(t0)), ParseColumn(ExampleSeries(t0), 0), Down) == 6.0
  {
    ExampleDurations(t0);
    ExampleReadings(t0);
    ExampleSumsOfValues();
  }

  lemma ExampleDurations(t0: int)
    ensures Durations(ExampleSeries(t0)) == [1.0, 1.0, 5.0]
  {
  }

  lemma ExampleReadings(t0: int)
    ensures ParseColumn(ExampleSeries(t0), 0) == [Some(-10.0), Some(-2.0), Some(-10.0)]
  {
    assert IntText(-2) == "-2";
    ParseTextOfIntText(-2);
  }

  lemma ExampleSumsOfValues()
    ensures SumWhere([1.0, 1.0, 5.0], [Some(-10.0), Some(-2.0), Some(-10.0)], Up) == 1.0
    ensures SumWhere([1.0, 1.0, 5.0], [Some(-10.0), Some(-2.0), Some(-10.0)], Down) == 6.0
  {
    SumWhereOfThree(1.0, 1.0, 5.0, Some(-10.0), Some(-2.0), Some(-10.0), Up);
    SumWhereOfThree(1.0, 1.0, 5.0, Some(-10.0), Some(-2.0), Some(-10.0), Down);
  }

  lemma SumWhereOfThree(a: real, b: real, c: real, x: Option<real>, y: Option<real>, z: Option<real>, st: State)
    ensures SumWhere([a, b, c], [x, y, z], st) ==
      (if Classify(x) == st then a else 0.0) + (if Classify(y) == st then b else 0.0) + (if Classify(z) == st then c else 0.0)
  {
    var pa := if Classify(x) == st then a else 0.0;
    var pb := if Classify(y) == st then b else 0.0;
    var pc := if Classify(z) == st then c else 0.0;
    assert SumWhere([a], [x], st) == pa by {
      SumWhereSnoc([], [], a, x, st);
      assert [] + [a] == [a] && [] + [x] == [x];
    }
    assert SumWhere([a, b], [x, y], st) == pa + pb by {
      SumWhereSnoc([a], [x], b, y, st);
      assert [a] + [b] == [a, b] && [x] + [y] == [x, y];
    }
    assert SumWhere([a, b, c], [x, y, z], st) == pa + pb + pc by {
      SumWhereSnoc([a, b], [x, y], c, z, st);
      assert [a, b] + [c] == [a, b, c] && [x, y] + [z] == [x, y, z];
    }
  }

  function ExampleSeries(t0: int): seq<Sample> {
    [Sample(t0, [Number(-10.0)]), Sample(t0 + 60, [Text("-2")]), Sample(t0 + 360, [Number(-10.0)])]
  }

  /**
   * The same readings as a raw table: out of order, with a repeated row and a
   * row without a timestamp. Every outcome the pipeline allows gives the
   * worked example's record.
   */
  function ExampleTable(t0: int): Table {
    Table(["Tempo", "Rack 1"], [
      Row(Stamp(t0 + 360), [Number(-10.0)]),
      Row(Missing, [Text("offline")]),
      Row(Stamp(t0), [Number(-10.0)]),
      Row(Stamp(t0 + 60), [Text("-2")]),
      Row(Stamp(t0), [Number(-10.0)])])
  }

  lemma WorkedExampleTable(t0: int, m: seq<Sample>)
    requires IsNormalizationOf(m, TimestampedSamples(ExampleTable(t0).rows))
    ensures CellsCover(m, 1)
    ensures ColumnResults(ExampleTable(t0).labels, m) == [ColumnResult("Rack 1", 100.0 / 7.0, 600.0 / 7.0, 1.0, 6.0)]
  {
    ExampleTableOnlyNormalization(t0, m);
    ExampleCellsCover(t0);
    SingleColumnResults("Tempo", "Rack 1", m);
    WorkedExample(t0);
  }

  lemma ExampleTableOnlyNormalization(t0: int, m: seq<Sample>)
    requires IsNormalizationOf(m, TimestampedSamples(ExampleTable(t0).rows))
    ensures m == ExampleSeries(t0)
  {
    ExampleTableNormalization(t0);
    NormalizationUnique(m, ExampleSeries(t0), TimestampedSamples(ExampleTable(t0).rows));
  }

  lemma ExampleCellsCover(t0: int)
    ensures CellsCover(ExampleSeries(t0), 1)
  {
    var n := ExampleSeries(t0);
    assert forall x :: x in n ==> x == n[0] || x == n[1] || x == n[2];
  }

  lemma SingleColumnResults(time: string, rack: string, n: seq<Sample>)
    requires CellsCover(n, 1)
    ensures ColumnResults([time, rack], n) == [ColumnResultOf(rack, n, 0)]
  {
  }

  /** The example table normalizes to the example series, and to nothing else. */
  lemma ExampleTableNormalization(t0: int)
    ensures IsNormalizationOf(ExampleSeries(t0), TimestampedSamples(ExampleTable(t0).rows))
    ensures var s := TimestampedSamples(ExampleTable(t0).rows);
      forall x, y :: x in s && y in s && x.time == y.time ==> x == y
  {
    var n := ExampleSeries(t0);
    ExampleTableSamples(t0);
    ShuffledThreeNormalizes(n[0], n[1], n[2]);
  }

  /** Three rows in increasing time order, listed as r, p, q, p. */
  lemma ShuffledThreeNormalizes(p: Sample, q: Sample, r: Sample)
    requires p.time < q.time < r.time
    ensures IsNormalizationOf([p, q, r], [r, p, q, p])
    ensures var s := [r, p, q, p];
      forall x, y :: x in s && y in s && x.time == y.time ==> x == y
  {
    var n, s := [p, q, r], [r, p, q, p];
    assert forall x :: x in s <==> x == p || x == q || x == r;
    assert forall x :: x in n <==> x == p || x == q || x == r;
    assert Times(s) == {p.time, q.time, r.time};
    assert Times(n) == {p.time, q.time, r.time};
  }

  /** The rows that keep their timestamp, in table order: the repeated row stays. */
  lemma ExampleTableSamples(t0: int)
    ensures var n := ExampleSeries(t0);
      TimestampedSamples(ExampleTable(t0).rows) == [n[2], n[0], n[1], n[0]]
  {
    var n := ExampleSeries(t0);
    var a := Row(Stamp(t0 + 360), [Number(-10.0)]);
    var b := Row(Missing, [Text("offline")]);
    var c := Row(Stamp(t0), [Number(-10.0)]);
    var d := Row(Stamp(t0 + 60), [Text("-2")]);
    SamplesCons(c, []);
    assert TimestampedSamples([c] + []) == [n[0]];
    SamplesCons(d, [c] + []);
    assert TimestampedSamples([d] + ([c] + [])) == [n[1], n[0]];
    SamplesCons(c, [d] + ([c] + []));
    assert TimestampedSamples([c] + ([d] + ([c] + []))) == [n[0], n[1], n[0]];
    SamplesCons(b, [c] + ([d] + ([c] + [])));
    assert TimestampedSamples([b] + ([c] + ([d] + ([c] + [])))) == [n[0], n[1], n[0]];
    SamplesCons(a, [b] + ([c] + ([d] + ([c] + []))));
    var rows := [a] + ([b] + ([c] + ([d] + ([c] + []))));
    assert TimestampedSamples(rows) == [n[2]] + [n[0], n[1], n[0]];
    PrependFour(n[2], n[0], n[1], n[0]);
    NestedFive(a, b, c, d, c);
  }

  /** Sequence-literal facts kept apart so the example's proof stays small. */
  lemma PrependFour<T>(w: T, x: T, y: T, z: T)
    ensures [w] + [x, y, z] == [w, x, y, z]
  {
  }

  lemma NestedFive<T>(a: T, b: T, c: T, d: T, e: T)
    ensures [a] + ([b] + ([c] + ([d] + ([e] + [])))) == [a, b, c, d, e]
  {
  }

  lemma SamplesCons(x: Row, rest: seq<Row>)
    ensures TimestampedSamples([x] + rest) ==
      (if x.time.Stamp? then [Sample(x.time.seconds, x.cells)] else []) + TimestampedSamples(rest)
  {
    assert ([x] + rest)[1..] == rest;
  }

  /**
   * Of two rows sharing a timestamp, the earlier one survives whatever the
   * readings: with -10 first and -2 second, only the downtime reading counts.
   */
  lemma EarlierDuplicateWins(a: Sample, b: Sample)
    requires a.time == b.time
    ensures FirstOccurrences([a, b]) == [a]
  {
    assert [a][..0] == [];
    assert Times([]) == {};
    assert FirstOccurrences([a]) == [a];
    assert [a, b][..1] == [a];
    assert a in [a];
    assert b.time in Times([a]);
  }

  lemma EarlierDuplicateWinsExample(t0: int)
    ensures FirstOccurrences([Sample(t0, [Number(-10.0)]), Sample(t0, [Text("-2")])]) == [Sample(t0, [Number(-10.0)])]
  {
    EarlierDuplicateWins(Sample(t0, [Number(-10.0)]), Sample(t0, [Text("-2")]));
  }

  /** A caller's view: the method's contract alone fixes the worked example's outcome. */
  method WorkedExampleTrace(t0: int) {
    var t := ExampleTable(t0);
    var res := AnalyzeByRack(t);
    assert t.rows[0] in t.rows && t.rows[0].time.Stamp?;
    assert forall x :: x in t.rows ==> !x.time.Unparseable?;
    ghost var n :| IsNormalizationOf(n, TimestampedSamples(t.rows)) && CellsCover(n, 1) && res.value == ColumnResults(t.labels, n);
    WorkedExampleTable(t0, n);
    assert res == Ok([ColumnResult("Rack 1", 100.0 / 7.0, 600.0 / 7.0, 1.0, 6.0)]);
    var wide := AnalyzeByRack(Table(["Tempo", "A", "B", "C", "D", "E"], []));
    assert wide == Err(TooManyColumns);
  }
}
