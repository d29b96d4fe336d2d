/** The top level of the timing-log viewer (dataview.py, lines 24-125): read the
    log line by line, keep the records of the timing lines, stop when there are
    none, and otherwise compute the per-component totals and the per-layer
    breakdown. Reading the file is replaced by the sequence of its lines, each
    with its line terminator, as iteration over a text file yields them. */
module Pipeline {
  import opened Wrappers
  import opened LogLine
  import opened Aggregate

  /** The parse of every line of the log, line by line. */
  function Parses(lines: seq<string>): (ps: seq<Option<Record>>)
    ensures |ps| == |lines|
    ensures forall i :: 0 <= i < |lines| ==> ps[i] == ParseLine(lines[i])
  {
    seq(|lines|, i requires 0 <= i < |lines| => ParseLine(lines[i]))
  }

  /** `parsed_data` as the loop leaves it: the records of the accepted lines, in order. */
  function Collect(ps: seq<Option<Record>>): (rs: seq<Record>)
    ensures |rs| <= |ps|
  {
    if ps == [] then []
    else
      var last := ps[|ps| - 1];
      Collect(ps[..|ps| - 1]) + (if last.Some? then [last.value] else [])
  }

  /** The records of the accepted lines of the log. */
  function ParsedRecords(lines: seq<string>): seq<Record> {
    Collect(Parses(lines))
  }

  /** Collecting a log split in two parts yields the records of both parts, in order. */
  lemma {:induction false} CollectAppend(a: seq<Option<Record>>, b: seq<Option<Record>>)
    ensures Collect(a + b) == Collect(a) + Collect(b)
    decreases |b|
  {
    if b == [] {
      assert a + b == a;
    } else {
      var init := b[..|b| - 1];
      assert (a + b)[..|a + b| - 1] == a + init;
      assert (a + b)[|a + b| - 1] == b[|b| - 1];
      CollectAppend(a, init);
    }
  }

  /** Each line contributes its own record, independently of the lines around it. */
  lemma CollectAt(ps: seq<Option<Record>>, i: nat)
    requires i < |ps|
    ensures Collect(ps) == Collect(ps[..i]) + (if ps[i].Some? then [ps[i].value] else []) + Collect(ps[i + 1..])
  {
    var pre := ps[..i + 1];
    assert pre[..i] == ps[..i] && pre[i] == ps[i];
    assert ps == pre + ps[i + 1..];
    CollectAppend(pre, ps[i + 1..]);
  }

  /** No record at all exactly when every line is rejected. */
  lemma {:induction false} CollectEmpty(ps: seq<Option<Record>>)
    ensures Collect(ps) == [] <==> forall i :: 0 <= i < |ps| ==> ps[i].None?
    decreases |ps|
  {
    if ps != [] {
      var init := ps[..|ps| - 1];
      CollectEmpty(init);
      assert forall i :: 0 <= i < |init| ==> init[i] == ps[i];
    }
  }

  /** Every record comes from an accepted line, and every accepted line's record is kept. */
  lemma {:induction false} CollectOrigin(ps: seq<Option<Record>>)
    ensures forall k :: 0 <= k < |Collect(ps)| ==> Some(Collect(ps)[k]) in ps
    ensures forall i :: 0 <= i < |ps| && ps[i].Some? ==> ps[i].value in Collect(ps)
    decreases |ps|
  {
    if ps != [] {
      var init := ps[..|ps| - 1];
      var last := ps[|ps| - 1];
      CollectOrigin(init);
      assert ps == init + [last];
      var rs := Collect(ps);
      forall k | 0 <= k < |rs| ensures Some(rs[k]) in ps {
        if k < |Collect(init)| {
          assert rs[k] == Collect(init)[k];
        }
      }
      forall i | 0 <= i < |ps| && ps[i].Some? ensures ps[i].value in rs {
        if i < |init| {
          assert ps[i] == init[i];
        }
      }
    }
  }

  /** The records are exactly those of the accepted lines: each comes from some
      line of the log, and no accepted line is dropped. */
  lemma ParsedRecordsOrigin(lines: seq<string>)
    ensures forall k :: 0 <= k < |ParsedRecords(lines)| ==>
              exists i :: 0 <= i < |lines| && ParseLine(lines[i]) == Some(ParsedRecords(lines)[k])
    ensures forall i :: 0 <= i < |lines| && ParseLine(lines[i]).Some? ==>
              ParseLine(lines[i]).value in ParsedRecords(lines)
  {
    var ps := Parses(lines);
    CollectOrigin(ps);
    forall k | 0 <= k < |Collect(ps)|
      ensures exists i :: 0 <= i < |lines| && ParseLine(lines[i]) == Some(Collect(ps)[k])
    {
      var i :| 0 <= i < |ps| && ps[i] == Some(Collect(ps)[k]);
      assert ParseLine(lines[i]) == ps[i];
    }
    assert ParsedRecords(lines) == Collect(ps);
    forall i | 0 <= i < |lines| && ParseLine(lines[i]).Some?
      ensures ParseLine(lines[i]).value in Collect(ps)
    {
      assert ps[i] == ParseLine(lines[i]);
    }
  }

  /** The reading loop (lines 24-27 and 79): append each accepted line's record. */
  method ParseLog(lines: seq<string>) returns (parsedData: seq<Record>)
    ensures parsedData == ParsedRecords(lines)
  {
    ghost var ps := Parses(lines);
    parsedData := [];
    var i := 0;
    while i < |lines|
      invariant 0 <= i <= |lines|
      invariant parsedData == Collect(ps[..i])
    {
      var line := lines[i];
      assert ps[..i + 1][..i] == ps[..i];
      assert ps[..i + 1][i] == ps[i] == ParseLine(line);
      match ParseLine(line) {
        case None =>
        case Some(r) =>
          parsedData := parsedData + [r];
      }
      i := i + 1;
    }
    assert ps[..i] == ps;
  }

  /** How a run ends: the "no timing data" exit (line 96), or the two results. */
  datatype Outcome =
    | NoTimingData
    | Analysis(totals: seq<(string, real)>, breakdown: Table)

  /** The script from the reading loop to the displayed table. */
  method Run(lines: seq<string>) returns (o: Outcome)
    ensures o.NoTimingData? <==> forall i :: 0 <= i < |lines| ==> ParseLine(lines[i]).None?
    ensures o.Analysis? ==> o.totals == AggregatedTime(ParsedRecords(lines))
    ensures o.Analysis? ==> o.breakdown == LayerBreakdown(ParsedRecords(lines))
  {
    var parsedData := ParseLog(lines);
    CollectEmpty(Parses(lines));
    if parsedData == [] {
      return NoTimingData;
    }
    var aggregatedTime := AggregatedTime(parsedData);
    var pivot := LayerBreakdown(parsedData);
    return Analysis(aggregatedTime, pivot);
  }
}
