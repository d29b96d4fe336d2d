/** Concrete behaviour of the timing-log viewer on sample lines and records. */
module Scenarios {
  import opened Wrappers
  import opened PyStr
  import opened LogLine
  import opened Aggregate

  /** The separator needs an 'I': text without one cannot contain it. */
  lemma NoSeparatorWithoutI(s: string)
    requires 'I' !in s
    ensures !Contains(s, Separator)
  {
    forall k ensures !OccursAt(s, Separator, k) {
      if 0 <= k && k + |Separator| <= |s| {
        assert s[k + 3] in s;
        assert s[k..k + |Separator|][3] == s[k + 3];
        assert s[k..k + |Separator|][3] != Separator[3];
      }
    }
  }

  /** A prefix without an 'I' cannot hold the separator, even overlapping the one after it. */
  lemma NoSeparatorInPrefix(prefix: string)
    requires 'I' !in prefix
    ensures NoSeparatorBefore(prefix)
  {
    var s := prefix + Separator;
    forall k | 0 <= k < |prefix| ensures !OccursAt(s, Separator, k) {
      if k + |Separator| <= |s| {
        assert s[k + 3] != 'I' by {
          if k + 3 < |prefix| {
            assert s[k + 3] == prefix[k + 3];
            assert prefix[k + 3] in prefix;
          } else {
            assert s[k + 3] == Separator[k + 3 - |prefix|];
          }
        }
        assert s[k..k + |Separator|][3] == s[k + 3];
        assert s[k..k + |Separator|][3] != Separator[3];
      }
    }
  }

  /** The loose pattern starts with '[': it finds nothing in text without one. */
  lemma {:induction false} NoBracketNoLooseMatch(s: string)
    requires '[' !in s
    ensures !LooseSearch(s)
    decreases |s|
  {
    if |s| >= 7 {
      assert s[..7][0] == s[0];
    }
    if s != [] {
      assert forall k :: 0 <= k < |s[1..]| ==> s[1..][k] == s[k + 1];
      NoBracketNoLooseMatch(s[1..]);
    }
  }

  /** A line without '[' holds no `[Layer N]` tag, so it is skipped whatever else it says. */
  lemma LineWithoutTagSkipped(line: string)
    requires '[' !in line
    ensures ParseLine(line) == None
  {
    NoBracketNoLooseMatch(line);
  }

  /** The sample timing line `2024-01-01 - INFO - [Layer 3] out_proj time: 1.234 ms`,
      read with its newline, yields layer 3, component "out_proj" and 1.234 ms. */
  lemma SampleTimingLine()
    ensures ParseLine("2024-01-01 - INFO - [Layer 3] out_proj time: 1.234 ms\n") == Some(Record(3, "out_proj", 1.234))
  {
    SampleLineText();
    NoSeparatorInPrefix("2024-01-01");
    SampleMessageSafe();
    ParseWellFormedLine("2024-01-01", "3", "out_proj time", "1", "234", "\n");
    SampleName();
    SampleNumbers();
  }

  /** The sample line is the one written out in full. */
  lemma SampleLineText()
    ensures "2024-01-01" + Separator + TimingMessage("3", "out_proj time", "1", "234") + "\n"
            == "2024-01-01 - INFO - [Layer 3] out_proj time: 1.234 ms\n"
  {
    SampleMessage();
    SampleHead();
    SampleJoin();
  }

  // The two literal equations below are kept apart so that each proof of a
  // long literal stays within the solver's resource limit.

  lemma SampleHead()
    ensures "2024-01-01" + Separator == "2024-01-01 - INFO - "
  {
  }

  lemma SampleJoin()
    ensures "2024-01-01 - INFO - " + "[Layer 3] out_proj time: 1.234 ms" + "\n"
            == "2024-01-01 - INFO - [Layer 3] out_proj time: 1.234 ms\n"
  {
  }

  lemma SampleMessage()
    ensures TimingMessage("3", "out_proj time", "1", "234") == "[Layer 3] out_proj time: 1.234 ms"
  {
    assert LayerOpen + "3" + "] " == "[Layer 3] ";
    assert TimeText("1", "234") == "1.234 ms";
  }

  lemma SampleMessageSafe()
    ensures !Contains(TimingMessage("3", "out_proj time", "1", "234") + "\n", Separator)
    ensures WellFormed("3", "out_proj time", "1", "234") && AllSpace("\n")
  {
    var m := TimingMessage("3", "out_proj time", "1", "234");
    assert 'I' !in LayerOpen && 'I' !in "out_proj time" && 'I' !in TimeText("1", "234");
    assert 'I' !in m + "\n";
    NoSeparatorWithoutI(m + "\n");
    assert AllDigits("234");
  }

  /** `component_mapping.get` on the stripped raw name. */
  lemma SampleName()
    ensures Normalise(Strip("out_proj time")) == "out_proj"
  {
    StripAround("", "out_proj time", "");
    assert "" + "out_proj time" + "" == "out_proj time";
  }

  /** `int("3")` is 3 and `float("1.234")` is 1.234. */
  lemma SampleNumbers()
    ensures DigitsValue("3") == 3
    ensures DecimalValue("1", "234") == 1.234
  {
    assert "1"[..0] == [];
    assert "234"[..2] == "23" && "23"[..1] == "2" && "2"[..0] == [];
  }

  /** The same layer and component timed twice: the breakdown shows the mean,
      the totals the sum. */
  lemma MeanInBreakdownSumInTotals()
    ensures var rs := [Record(0, "RMSNorm", 1.0), Record(0, "RMSNorm", 3.0)];
      && Cell(rs, 0, "RMSNorm") == 2.0
      && AggregatedTime(rs) == [("RMSNorm", 4.0)]
  {
    var rs := [Record(0, "RMSNorm", 1.0), Record(0, "RMSNorm", 3.0)];
    assert rs[..1] == [Record(0, "RMSNorm", 1.0)];
    assert rs[..1][..0] == [];
    assert CountCell(rs, 0, "RMSNorm") == 2;
    assert SumCell(rs, 0, "RMSNorm") == 4.0;
    assert Components(rs) == ["RMSNorm"];
    assert SumFor(rs, "RMSNorm") == 4.0;
  }
}
