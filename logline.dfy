/** The per-line extractor of the timing-log viewer (dataview.py, lines 21-79):
    a line of the inference log becomes an optional record of
    (layer, component, time in milliseconds). Every failed step skips the line. */
module LogLine {
  import opened Wrappers
  import opened PyStr

  /** The substring every candidate line must contain (line 29). */
  const InfoMarker := "- INFO -"
  /** The spaced separator the line is split on (line 32). */
  const Separator := " - INFO - "
  /** The opening of the layer tag `[Layer N]`. */
  const LayerOpen := "[Layer "

  /** One timing measurement: `time_ms` is the exact value of the decimal in the log. */
  datatype Record = Record(layer: nat, component: string, timeMs: real)

  // ---------------------------------------------------------------------
  // The loose pre-filter `\[Layer \d+\] .*?: \d+\.\d+ ms` (line 21)
  // ---------------------------------------------------------------------

  /** `: \d+\.\d+ ms` matched at the start of `s`. */
  predicate TimeTailAt(s: string) {
    && |s| >= 2 && s[..2] == ": "
    && var a := DigitRun(s[2..]);
    && a > 0 && 2 + a < |s| && s[2 + a] == '.'
    && var b := DigitRun(s[3 + a..]);
    && b > 0 && 3 + a + b + 3 <= |s| && s[3 + a + b..3 + a + b + 3] == " ms"
  }

  /** `.*?: \d+\.\d+ ms` matched at the start of `s` (`.` matches anything but a newline). */
  function LazyTail(s: string): bool {
    TimeTailAt(s) || (s != [] && s[0] != '\n' && LazyTail(s[1..]))
  }

  /** A newline-free stretch `s[..j]` followed by the time tail. */
  predicate LazyTailWitness(s: string, j: int) {
    0 <= j <= |s| && '\n' !in s[..j] && TimeTailAt(s[j..])
  }

  /** The lazy `.*?` tries every newline-free stretch before the time tail. */
  lemma LazyTailSpec(s: string)
    ensures LazyTail(s) <==> exists j :: LazyTailWitness(s, j)
  {
    if LazyTail(s) {
      LazyTailSound(s);
    }
    if exists j :: LazyTailWitness(s, j) {
      var j :| LazyTailWitness(s, j);
      LazyTailComplete(s, j);
    }
  }

  lemma {:induction false} LazyTailSound(s: string)
    requires LazyTail(s)
    ensures exists j :: LazyTailWitness(s, j)
  {
    if TimeTailAt(s) {
      LazyTailWitnessHere(s);
    } else {
      LazyTailSound(s[1..]);
      var j :| LazyTailWitness(s[1..], j);
      LazyTailWitnessShift(s, j);
    }
  }

  /** A time tail right at the start is found with nothing skipped. */
  lemma LazyTailWitnessHere(s: string)
    requires TimeTailAt(s)
    ensures LazyTailWitness(s, 0)
  {
    assert s[..0] == [] && s[0..] == s;
  }

  /** Skipping one character that is not a newline keeps a witness, one further on. */
  lemma LazyTailWitnessShift(s: string, j: int)
    requires s != [] && s[0] != '\n' && LazyTailWitness(s[1..], j)
    ensures LazyTailWitness(s, j + 1)
  {
    assert s[..j + 1] == [s[0]] + s[1..][..j];
    assert s[j + 1..] == s[1..][j..];
  }

  lemma {:induction false} LazyTailComplete(s: string, j: int)
    requires LazyTailWitness(s, j)
    ensures LazyTail(s)
    decreases j
  {
    if j > 0 {
      assert s[0] == s[..j][0];
      assert s[1..][..j - 1] == s[1..j];
      assert s[1..][j - 1..] == s[j..];
      assert '\n' !in s[1..j] by {
        assert forall k :: 0 <= k < j - 1 ==> s[1..j][k] == s[..j][k + 1];
      }
      LazyTailComplete(s[1..], j - 1);
    } else {
      assert s[0..] == s;
    }
  }

  /** The whole loose pattern matched at the start of `s`. */
  predicate LooseAt(s: string) {
    && |s| >= 7 && s[..7] == LayerOpen
    && var d := DigitRun(s[7..]);
    && d > 0 && 7 + d + 2 <= |s| && s[7 + d..7 + d + 2] == "] "
    && LazyTail(s[7 + d + 2..])
  }

  /** `log_line_pattern.search(s)`: the loose pattern matches somewhere in `s`. */
  function LooseSearch(s: string): bool {
    LooseAt(s) || (s != [] && LooseSearch(s[1..]))
  }

  /** `search` tries every start position. */
  lemma {:induction false} LooseSearchSpec(s: string)
    ensures LooseSearch(s) <==> exists i :: 0 <= i <= |s| && LooseAt(s[i..])
  {
    if LooseSearch(s) {
      if LooseAt(s) {
        assert s[0..] == s;
      } else {
        LooseSearchSpec(s[1..]);
        var i :| 0 <= i <= |s| - 1 && LooseAt(s[1..][i..]);
        assert s[1..][i..] == s[i + 1..];
      }
    }
    if exists i :: 0 <= i <= |s| && LooseAt(s[i..]) {
      var i :| 0 <= i <= |s| && LooseAt(s[i..]);
      if i > 0 {
        LooseSearchSpec(s[1..]);
        assert s[1..][i - 1..] == s[i..];
      } else {
        assert s[0..] == s;
      }
    }
  }

  // ---------------------------------------------------------------------
  // The extraction steps (lines 32-62)
  // ---------------------------------------------------------------------

  /** `i` is the first occurrence of the separator in `line` and `j` ends the
      field after it: the next occurrence at or after `i + |Separator|`, or the end. */
  predicate SecondField(line: string, i: int, j: int) {
    && OccursAt(line, Separator, i)
    && (forall k :: 0 <= k < i ==> !OccursAt(line, Separator, k))
    && i + |Separator| <= j <= |line|
    && (forall k :: i + |Separator| <= k < j ==> !OccursAt(line, Separator, k))
    && (j == |line| || OccursAt(line, Separator, j))
  }

  /** Lines 32-36: `line.split(' - INFO - ')[1].strip()`, or nothing when
      the split gives fewer than two parts. */
  function MessageOf(line: string): (r: Option<string>)
    ensures r.None? <==> !Contains(line, Separator)
    ensures r.Some? ==> exists i, j :: SecondField(line, i, j) && r.value == Strip(line[i + |Separator|..j])
  {
    var parts := Split(line, Separator);
    if |parts| < 2 then None
    else
      SplitSecondPiece(line, Separator, parts);
      SecondFieldOfSplit(line, parts);
      Some(Strip(parts[1]))
  }

  /** The second part of `split` is the field after the first separator. */
  lemma SecondFieldOfSplit(line: string, parts: seq<string>)
    requires SplitSpec(line, Separator, parts) && |parts| >= 2
    requires SecondPiece(line, Separator, |parts[0]| + |Separator|, parts[1])
    ensures var i := |parts[0]|; SecondField(line, i, i + |Separator| + |parts[1]|)
    ensures var i := |parts[0]|; line[i + |Separator|..i + |Separator| + |parts[1]|] == parts[1]
  {
  }

  /** `message` is `[Layer <ds>]` followed by `rest`. */
  predicate TaggedAs(message: string, ds: string, rest: string) {
    ds != [] && AllDigits(ds) && message == LayerOpen + ds + "]" + rest
  }

  /** Lines 39-46: `re.match(r'\[Layer (\d+)\]', message)`: the layer number
      and the text after the tag. */
  function LayerTag(message: string): (r: Option<(nat, string)>)
    ensures r.Some? ==> exists ds :: TaggedAs(message, ds, r.value.1) && r.value.0 == DigitsValue(ds)
  {
    if |message| < 7 || message[..7] != LayerOpen then None
    else
      var d := DigitRun(message[7..]);
      if d == 0 || 7 + d >= |message| || message[7 + d] != ']' then None
      else
        var ds := message[7..7 + d];
        assert ds == message[7..][..d];
        var rest := message[7 + d + 1..];
        assert message == LayerOpen + ds + "]" + rest by {
          assert message == message[..7] + message[7..7 + d] + [message[7 + d]] + rest;
        }
        Some((DigitsValue(ds), rest))
  }

  /** A message that starts with a well-formed tag always has its layer read:
      `\d+` takes every digit of the tag, so the layer is the value of all of them. */
  lemma LayerTagComplete(message: string, ds: string, rest: string)
    requires TaggedAs(message, ds, rest)
    ensures LayerTag(message) == Some((DigitsValue(ds), rest))
  {
    assert message[..7] == LayerOpen;
    assert message[7..] == ds + ("]" + rest);
    DigitRunOf(ds, "]" + rest);
    assert message[7..7 + |ds|] == ds;
    assert message[7 + |ds| + 1..] == rest;
  }

  /** Lines 49-55: split at the last colon and strip both sides; nothing when there is no colon. */
  function SplitAtLastColon(s: string): (r: Option<(string, string)>)
    ensures r.None? <==> ':' !in s
    ensures r.Some? ==> ':' !in r.value.1
    ensures r.Some? ==> exists i :: 0 <= i < |s| && s[i] == ':' && ':' !in s[i + 1..]
                                   && r.value == (Strip(s[..i]), Strip(s[i + 1..]))
  {
    match RFind(s, ':')
    case None => None
    case Some(i) =>
      var after := s[i + 1..];
      assert ':' !in after by {
        forall k | 0 <= k < |after| ensures after[k] != ':' {
          assert after[k] == s[i + 1 + k];
        }
      }
      StripKeeps(s[i + 1..], ':');
      Some((Strip(s[..i]), Strip(s[i + 1..])))
  }

  /** `t` begins with `a` digits, a point and `b` digits, and `\d+` could take no more. */
  predicate DecimalPrefix(t: string, a: int, b: int) {
    && 0 < a && 0 < b && a + 1 + b <= |t|
    && AllDigits(t[..a]) && t[a] == '.' && AllDigits(t[a + 1..a + 1 + b])
    && (a + 1 + b == |t| || !IsDigit(t[a + 1 + b]))
  }

  /** Lines 58-62: `re.match(r'(\d+\.\d+)', t)` and `float()` of what it matched. */
  function LeadingDecimal(t: string): (r: Option<real>)
    ensures r.Some? ==> r.value >= 0.0
    ensures r.Some? ==> exists a, b :: DecimalPrefix(t, a, b) && r.value == DecimalValue(t[..a], t[a + 1..a + 1 + b])
  {
    var a := DigitRun(t);
    if a == 0 || a >= |t| || t[a] != '.' then None
    else
      var b := DigitRun(t[a + 1..]);
      if b == 0 then None
      else
        assert t[a + 1..][..b] == t[a + 1..a + 1 + b];
        assert a + 1 + b < |t| ==> t[a + 1..][b] == t[a + 1 + b];
        assert DecimalPrefix(t, a, b);
        Some(DecimalValue(t[..a], t[a + 1..a + 1 + b]))
  }

  /** A time field that starts `<digits>.<digits>` followed by a non-digit is read in full. */
  lemma LeadingDecimalComplete(i: string, f: string, rest: string)
    requires i != [] && AllDigits(i) && f != [] && AllDigits(f)
    requires rest == [] || !IsDigit(rest[0])
    ensures LeadingDecimal(i + "." + f + rest) == Some(DecimalValue(i, f))
  {
    LeadingDecimalRuns(i, f, rest);
  }

  /** The digit runs of `i.f` followed by a non-digit are `i` and `f`. */
  lemma LeadingDecimalRuns(i: string, f: string, rest: string)
    requires i != [] && AllDigits(i) && f != [] && AllDigits(f)
    requires rest == [] || !IsDigit(rest[0])
    ensures var t := i + "." + f + rest;
      && DigitRun(t) == |i| && |i| < |t| && t[|i|] == '.' && t[..|i|] == i
      && DigitRun(t[|i| + 1..]) == |f| && |i| + 1 + |f| <= |t| && t[|i| + 1..|i| + 1 + |f|] == f
  {
    var t := i + "." + f + rest;
    assert DigitRun(t) == |i| by {
      assert t == i + ("." + f + rest);
      DigitRunOf(i, "." + f + rest);
    }
    assert DigitRun(t[|i| + 1..]) == |f| by {
      assert t[|i| + 1..] == f + rest;
      DigitRunOf(f, rest);
    }
    assert t[|i|] == '.';
    assert t[..|i|] == i;
    assert t[|i| + 1..|i| + 1 + |f|] == f;
  }

  // ---------------------------------------------------------------------
  // Name normalisation (lines 66-76)
  // ---------------------------------------------------------------------

  /** `component_mapping`: raw names as logged to the names used in the charts. */
  const ComponentMapping: map<string, string> := map[
    "RMSNorm time" := "RMSNorm",
    "in_proj inference time" := "in_proj",
    "Convolution sequence transformation time" := "Convolution",
    "SSM parameters time" := "SSM parameters",
    "selective_state_update" := "SSM scan",
    "out_proj time" := "out_proj"
  ]

  /** `component_mapping.get(raw, raw)`. */
  function Normalise(raw: string): (c: string)
    ensures raw in ComponentMapping ==> c == ComponentMapping[raw]
    ensures raw !in ComponentMapping ==> c == raw
    ensures c !in ComponentMapping
  {
    if raw in ComponentMapping then ComponentMapping[raw] else raw
  }

  /** No canonical name is itself a raw key, so normalising twice changes nothing. */
  lemma NormaliseIdempotent(raw: string)
    ensures Normalise(Normalise(raw)) == Normalise(raw)
  {
  }

  // ---------------------------------------------------------------------
  // The whole extractor (lines 29-79)
  // ---------------------------------------------------------------------

  /** `s` has its last colon at `i` (what `rfind(':')` returns at line 49). */
  predicate LastColonAt(s: string, i: int) {
    0 <= i < |s| && s[i] == ':' && ':' !in s[i + 1..]
  }

  /** `rec` is what lines 39-79 read from `message`: the value of the digits of
      its tag `[Layer <ds>]`, and in `rest`, the text after the tag, stripped,
      the normalised stripped name before the last colon (at `i`) and the
      leading decimal of the stripped text after it. */
  predicate ReadFrom(message: string, ds: string, rest: string, i: int, rec: Record) {
    && TaggedAs(message, ds, rest)
    && LastColonAt(Strip(rest), i)
    && rec.layer == DigitsValue(ds)
    && rec.component == Normalise(Strip(Strip(rest)[..i]))
    && LeadingDecimal(Strip(Strip(rest)[i + 1..])) == Some(rec.timeMs)
  }

  /** `r` is what lines 39-79 may make of `message`: a record read from the
      message's own tag, name and time, and nothing when the text after a tag
      has no colon, or no leading decimal after its last colon. */
  ghost predicate ReadsAs(message: string, r: Option<Record>) {
    && (r.Some? ==> exists ds, rest, i :: ReadFrom(message, ds, rest, i, r.value))
    && (forall ds, rest :: TaggedAs(message, ds, rest) && ':' !in rest ==> r.None?)
    && (forall ds, rest, i ::
          (TaggedAs(message, ds, rest) && LastColonAt(Strip(rest), i)
           && LeadingDecimal(Strip(Strip(rest)[i + 1..])).None?) ==> r.None?)
  }

  /** Whenever `message` has a tag, a last colon after it and a leading
      decimal after that colon, none of the `continue`s of lines 40-60 fires
      and `r` is a record. */
  ghost predicate AcceptsReadable(message: string, r: Option<Record>) {
    forall ds, rest, i ::
      (TaggedAs(message, ds, rest) && LastColonAt(Strip(rest), i)
       && LeadingDecimal(Strip(Strip(rest)[i + 1..])).Some?) ==> r.Some?
  }

  /** Lines 39-79 on a message: tag, last colon, leading decimal, normalised name.
      A record is read from the message's own tag, name and time; a tagged
      message with no colon after the tag, or with no leading decimal after
      the last colon, gives none; every other tagged message gives one. */
  function RecordOfMessage(message: string): (r: Option<Record>)
    ensures r.Some? ==> r.value.timeMs >= 0.0
    ensures r.Some? ==> r.value.component !in ComponentMapping
    ensures ReadsAs(message, r)
    ensures AcceptsReadable(message, r)
  {
    match LayerTag(message)
    case None =>
      NoTagNoReading(message);
      None
    case Some((layer, afterTag)) =>
      match SplitAtLastColon(Strip(afterTag))
      case None =>
        NoColonNoReading(message, layer, afterTag);
        None
      case Some((raw, timeText)) =>
        match LeadingDecimal(timeText)
        case None =>
          NoTimeNoReading(message, layer, afterTag, raw, timeText);
          None
        case Some(ms) =>
          RecordOfStages(message, layer, afterTag, raw, timeText, ms);
          Some(Record(layer, Normalise(raw), ms))
  }

  /** There is at most one last colon. */
  lemma LastColonUnique(s: string, i: int, k: int)
    requires LastColonAt(s, i) && LastColonAt(s, k)
    ensures i == k
  {
  }

  /** The split at the last colon cuts at the one last colon. */
  lemma SplitAtLastColonAt(s: string, raw: string, t: string)
    requires SplitAtLastColon(s) == Some((raw, t))
    ensures exists i :: LastColonAt(s, i)
    ensures forall i :: LastColonAt(s, i) ==> raw == Strip(s[..i]) && t == Strip(s[i + 1..])
  {
    var k :| 0 <= k < |s| && s[k] == ':' && ':' !in s[k + 1..] && (raw, t) == (Strip(s[..k]), Strip(s[k + 1..]));
    assert LastColonAt(s, k);
    forall i | LastColonAt(s, i) ensures raw == Strip(s[..i]) && t == Strip(s[i + 1..]) {
      SidesOfLastColon(s, k, i);
    }
  }

  /** Both sides of the colon are the same at any two last colons. */
  lemma SidesOfLastColon(s: string, k: int, i: int)
    requires LastColonAt(s, k) && LastColonAt(s, i)
    ensures s[..i] == s[..k] && s[i + 1..] == s[k + 1..]
  {
    LastColonUnique(s, i, k);
  }

  /** Every tag of the form `[Layer <ds>]` is found by the tag match. */
  lemma TagComplete(message: string)
    ensures forall ds, rest :: TaggedAs(message, ds, rest) ==> LayerTag(message) == Some((DigitsValue(ds), rest))
  {
    forall ds, rest | TaggedAs(message, ds, rest) ensures LayerTag(message) == Some((DigitsValue(ds), rest)) {
      LayerTagComplete(message, ds, rest);
    }
  }

  /** Every last colon is found by the split at the last colon. */
  lemma ColonComplete(s: string)
    ensures forall i :: LastColonAt(s, i) ==> SplitAtLastColon(s) == Some((Strip(s[..i]), Strip(s[i + 1..])))
  {
    forall i | LastColonAt(s, i) ensures SplitAtLastColon(s) == Some((Strip(s[..i]), Strip(s[i + 1..]))) {
      assert s[i] in s;
      var split := SplitAtLastColon(s).value;
      SplitAtLastColonAt(s, split.0, split.1);
    }
  }

  /** Without a tag the message has no reading. */
  lemma NoTagNoReading(message: string)
    requires LayerTag(message).None?
    ensures AcceptsReadable(message, None)
  {
    TagComplete(message);
  }

  /** With a tag but no colon after it the message has no reading. */
  lemma NoColonNoReading(message: string, layer: nat, afterTag: string)
    requires LayerTag(message) == Some((layer, afterTag))
    requires SplitAtLastColon(Strip(afterTag)).None?
    ensures AcceptsReadable(message, None)
  {
    TagUnique(message, layer, afterTag);
    ColonComplete(Strip(afterTag));
  }

  /** With no leading decimal after the last colon the message has no reading. */
  lemma NoTimeNoReading(message: string, layer: nat, afterTag: string, raw: string, timeText: string)
    requires LayerTag(message) == Some((layer, afterTag))
    requires SplitAtLastColon(Strip(afterTag)) == Some((raw, timeText))
    requires LeadingDecimal(timeText).None?
    ensures AcceptsReadable(message, None)
  {
    TagUnique(message, layer, afterTag);
    SplitAtLastColonAt(Strip(afterTag), raw, timeText);
  }

  /** A message has one tag: every reading of it as `[Layer <ds>]<rest>` is the one found. */
  lemma TagUnique(message: string, layer: nat, afterTag: string)
    requires LayerTag(message) == Some((layer, afterTag))
    ensures forall ds, rest :: TaggedAs(message, ds, rest) ==> rest == afterTag && DigitsValue(ds) == layer
  {
    forall ds, rest | TaggedAs(message, ds, rest) ensures rest == afterTag && DigitsValue(ds) == layer {
      LayerTagComplete(message, ds, rest);
    }
  }

  /** When all three stages succeed, the record is read from the message's own
      tag, last colon and time, and no other reading of the message fails. */
  lemma RecordOfStages(message: string, layer: nat, afterTag: string, raw: string, timeText: string, ms: real)
    requires LayerTag(message) == Some((layer, afterTag))
    requires SplitAtLastColon(Strip(afterTag)) == Some((raw, timeText))
    requires LeadingDecimal(timeText) == Some(ms)
    ensures exists ds, rest, i :: ReadFrom(message, ds, rest, i, Record(layer, Normalise(raw), ms))
    ensures forall ds, rest :: TaggedAs(message, ds, rest) ==> ':' in rest
    ensures forall ds, rest, i :: TaggedAs(message, ds, rest) && LastColonAt(Strip(rest), i)
              ==> LeadingDecimal(Strip(Strip(rest)[i + 1..])) == Some(ms)
  {
    TagUnique(message, layer, afterTag);
    SplitAtLastColonAt(Strip(afterTag), raw, timeText);
    StripKeeps(afterTag, ':');
    var ds :| TaggedAs(message, ds, afterTag) && layer == DigitsValue(ds);
    var i :| LastColonAt(Strip(afterTag), i);
    assert ReadFrom(message, ds, afterTag, i, Record(layer, Normalise(raw), ms));
  }

  /** Lines 29-79: one log line to an optional record, skipping the line at the
      first step that fails. A record is read from the message of the line,
      the stripped field after its first separator; a line whose message has
      a tag but no colon after it, or no leading decimal after the last colon,
      gives none; a line that passes the filters of line 29 and whose message
      has all three gives one. */
  function ParseLine(line: string): (r: Option<Record>)
    ensures !Contains(line, InfoMarker) || !LooseSearch(line) ==> r.None?
    ensures !Contains(line, Separator) ==> r.None?
    ensures r.Some? ==> r.value.timeMs >= 0.0
    ensures r.Some? ==> r.value.component !in ComponentMapping
    ensures r.Some? ==> exists i, j :: SecondField(line, i, j)
    ensures forall i, j :: SecondField(line, i, j) ==> ReadsAs(Strip(line[i + |Separator|..j]), r)
    ensures Contains(line, InfoMarker) && LooseSearch(line) ==>
              forall i, j :: SecondField(line, i, j) ==> AcceptsReadable(Strip(line[i + |Separator|..j]), r)
  {
    if !(Contains(line, InfoMarker) && LooseSearch(line)) then None
    else
      match MessageOf(line)
      case None =>
        NoSeparatorNoField(line);
        None
      case Some(message) =>
        var r := RecordOfMessage(message);
        RecordOfLine(line, message, r);
        r
  }

  /** The first separator and the field after it are determined by the line. */
  lemma SecondFieldUnique(line: string, i: int, j: int, i2: int, j2: int)
    requires SecondField(line, i, j) && SecondField(line, i2, j2)
    ensures i == i2 && j == j2
  {
  }

  /** The message of a line is the stripped field after every reading of its first separator. */
  lemma MessageAt(line: string, message: string, i0: int, j0: int)
    requires SecondField(line, i0, j0) && message == Strip(line[i0 + |Separator|..j0])
    ensures forall i, j :: SecondField(line, i, j) ==> Strip(line[i + |Separator|..j]) == message
  {
    forall i, j | SecondField(line, i, j) ensures Strip(line[i + |Separator|..j]) == message {
      FieldUnique(line, i0, j0, i, j);
    }
  }

  /** The field after the first separator is the same at every reading of it. */
  lemma FieldUnique(line: string, i0: int, j0: int, i: int, j: int)
    requires SecondField(line, i0, j0) && SecondField(line, i, j)
    ensures line[i + |Separator|..j] == line[i0 + |Separator|..j0]
  {
    SecondFieldUnique(line, i, j, i0, j0);
  }

  /** A line without the separator has no field after it. */
  lemma NoSeparatorNoField(line: string)
    requires MessageOf(line).None?
    ensures forall i, j :: !SecondField(line, i, j)
  {
  }

  /** What the record of a message says, restated about the line it came from. */
  lemma RecordOfLine(line: string, message: string, r: Option<Record>)
    requires exists i, j :: SecondField(line, i, j) && message == Strip(line[i + |Separator|..j])
    requires ReadsAs(message, r) && AcceptsReadable(message, r)
    ensures exists i, j :: SecondField(line, i, j)
    ensures forall i, j :: SecondField(line, i, j) ==> ReadsAs(Strip(line[i + |Separator|..j]), r)
    ensures forall i, j :: SecondField(line, i, j) ==> AcceptsReadable(Strip(line[i + |Separator|..j]), r)
  {
    var i0, j0 :| SecondField(line, i0, j0) && message == Strip(line[i0 + |Separator|..j0]);
    MessageAt(line, message, i0, j0);
  }

  // ---------------------------------------------------------------------
  // Well-formed lines are read in full
  // ---------------------------------------------------------------------

  /** The time field of a timing line: `<i>.<f> ms`. */
  function TimeText(i: string, f: string): string {
    i + "." + f + " ms"
  }

  /** The message of a timing line: `[Layer <d>] <raw>: <i>.<f> ms`. */
  function TimingMessage(d: string, raw: string, i: string, f: string): string {
    LayerOpen + d + "] " + raw + ": " + TimeText(i, f)
  }

  /** Non-empty digit strings for the layer and the two halves of the time,
      and a raw name on one line. */
  predicate WellFormed(d: string, raw: string, i: string, f: string) {
    && d != [] && AllDigits(d)
    && i != [] && AllDigits(i)
    && f != [] && AllDigits(f)
    && '\n' !in raw
  }

  /** The separator does not occur before its occurrence right after `prefix`. */
  predicate NoSeparatorBefore(prefix: string) {
    forall k :: 0 <= k < |prefix| ==> !OccursAt(prefix + Separator, Separator, k)
  }

  lemma TimeTextShape(i: string, f: string)
    requires i != [] && AllDigits(i) && f != [] && AllDigits(f)
    ensures var t := TimeText(i, f);
      && t[..|i|] == i && t[|i|] == '.' && t[|i| + 1..] == f + " ms"
      && !IsSpace(t[0]) && !IsSpace(t[|t| - 1]) && ':' !in t
  {
    var t := TimeText(i, f);
    assert t == i + ("." + (f + " ms"));
    forall k | 0 <= k < |t| ensures t[k] != ':' {
      if k < |i| {
        assert t[k] == i[k];
      } else if |i| < k < |i| + 1 + |f| {
        assert t[k] == f[k - |i| - 1];
      }
    }
  }

  lemma TimeTailOf(i: string, f: string, eol: string)
    requires i != [] && AllDigits(i) && f != [] && AllDigits(f)
    ensures TimeTailAt(": " + TimeText(i, f) + eol)
  {
    TimeTailParts(": " + TimeText(i, f) + eol, i, f, eol);
  }

  /** The pieces of `: <i>.<f> ms` that the time pattern checks one by one. */
  lemma TimeTailParts(s: string, i: string, f: string, eol: string)
    requires s == ": " + TimeText(i, f) + eol
    requires i != [] && AllDigits(i) && f != [] && AllDigits(f)
    ensures |s| >= 2 && s[..2] == ": "
    ensures DigitRun(s[2..]) == |i| && 2 + |i| < |s| && s[2 + |i|] == '.'
    ensures DigitRun(s[3 + |i|..]) == |f| && 3 + |i| + |f| + 3 <= |s|
    ensures s[3 + |i| + |f|..3 + |i| + |f| + 3] == " ms"
  {
    assert s[..2] == ": ";
    assert DigitRun(s[2..]) == |i| by {
      assert s[2..] == i + ("." + f + " ms" + eol);
      DigitRunOf(i, "." + f + " ms" + eol);
    }
    assert s[2 + |i|] == '.';
    assert DigitRun(s[3 + |i|..]) == |f| by {
      assert s[3 + |i|..] == f + (" ms" + eol);
      DigitRunOf(f, " ms" + eol);
    }
    assert s[3 + |i| + |f|..3 + |i| + |f| + 3] == " ms";
  }

  /** A tag followed by a lazily matched tail is the loose pattern. */
  lemma LooseAtTagged(s: string, d: string, t: string)
    requires s == LayerOpen + (d + ("] " + t))
    requires d != [] && AllDigits(d) && LazyTail(t)
    ensures LooseAt(s)
  {
    assert s[..7] == LayerOpen;
    assert DigitRun(s[7..]) == |d| by {
      assert s[7..] == d + ("] " + t);
      DigitRunOf(d, "] " + t);
    }
    assert s[7 + |d|..7 + |d| + 2] == "] ";
    assert LazyTail(s[7 + |d| + 2..]) by {
      assert s[7 + |d| + 2..] == t;
    }
  }

  /** Every well-formed timing message passes the loose pre-filter. */
  lemma LooseAtMessage(d: string, raw: string, i: string, f: string, eol: string)
    requires WellFormed(d, raw, i, f)
    ensures LooseAt(TimingMessage(d, raw, i, f) + eol)
  {
    var tail := ": " + TimeText(i, f) + eol;
    var t := raw + tail;
    TimeTailOf(i, f, eol);
    assert t[..|raw|] == raw && t[|raw|..] == tail;
    assert LazyTailWitness(t, |raw|);
    LazyTailComplete(t, |raw|);
    MessageShape(d, raw, i, f, eol);
    LooseAtTagged(TimingMessage(d, raw, i, f) + eol, d, t);
  }

  /** The timing message regrouped around its tag. Stated apart from its caller
      so that the caller's proof stays within the solver's resource limit. */
  lemma MessageShape(d: string, raw: string, i: string, f: string, eol: string)
    ensures TimingMessage(d, raw, i, f) + eol
            == LayerOpen + (d + ("] " + (raw + (": " + TimeText(i, f) + eol))))
  {
  }

  /** With no earlier separator and none in the body, the message is the stripped body. */
  lemma MessageOfLine(line: string, prefix: string, body: string)
    requires line == prefix + Separator + body
    requires NoSeparatorBefore(prefix) && !Contains(body, Separator)
    ensures MessageOf(line) == Some(Strip(body))
  {
    var parts := Split(line, Separator);
    var p := |prefix| + |Separator|;
    assert line[|prefix|..p] == Separator;
    assert line[..p] == prefix + Separator;
    assert |parts[0]| <= |prefix| by {
      assert OccursAt(line, Separator, |prefix|);
    }
    assert |parts[0]| >= |prefix| by {
      if |parts[0]| < |prefix| {
        OccursInPrefix(line, Separator, p, |parts[0]|);
      }
    }
    assert line[p..] == body;
    SplitSecondPiece(line, Separator, parts);
    assert p + |parts[1]| == |line| by {
      OccursShift(line, Separator, p, |parts[1]|);
    }
    assert parts[1] == body;
  }

  /** Line 46: the text after the tag, stripped, keeps the raw name's right side. */
  lemma StripAfterTag(raw: string, tail: string)
    requires tail != [] && !IsSpace(tail[0]) && !IsSpace(tail[|tail| - 1])
    ensures Strip(" " + raw + tail) == TrimStart(raw) + tail
  {
    TrimStartAppend(" " + raw, tail);
    assert (" " + raw)[1..] == raw;
    var r := TrimStart(raw) + tail;
    TrimEndOver(r, []);
    assert r + [] == r;
  }

  /** Lines 49-55: with no colon after it, a colon is the split point. */
  lemma LastColonSplit(name: string, after: string)
    requires ':' !in after
    ensures SplitAtLastColon(name + ":" + after) == Some((Strip(name), Strip(after)))
  {
    var s := name + ":" + after;
    assert s[|name|] == ':';
    assert s[|name| + 1..] == after;
    assert s[..|name|] == name;
    var q := RFind(s, ':');
    assert q.Some?;
    assert q.value >= |name|;
    assert q.value <= |name|;
  }

  /** A well-formed line passes the pre-filter of line 29. */
  lemma FilterPasses(prefix: string, msg: string, eol: string)
    requires LooseAt(msg + eol)
    ensures var line := prefix + Separator + msg + eol;
      Contains(line, InfoMarker) && LooseSearch(line)
  {
    var line := prefix + Separator + msg + eol;
    assert line[|prefix| + 1..|prefix| + 9] == InfoMarker;
    assert OccursAt(line, InfoMarker, |prefix| + 1);
    assert line[|prefix| + |Separator|..] == msg + eol;
    LooseSearchSpec(line);
  }

  /** The message of a well-formed line is the timing message. */
  lemma MessageOfWellFormed(prefix: string, msg: string, eol: string)
    requires NoSeparatorBefore(prefix) && !Contains(msg + eol, Separator)
    requires msg != [] && !IsSpace(msg[0]) && !IsSpace(msg[|msg| - 1]) && AllSpace(eol)
    ensures MessageOf(prefix + Separator + msg + eol) == Some(msg)
  {
    StripMessage(msg, eol);
    assert prefix + Separator + msg + eol == prefix + Separator + (msg + eol);
    MessageOfLine(prefix + Separator + msg + eol, prefix, msg + eol);
  }

  /** Stripping a message and its line terminator leaves the message. */
  lemma StripMessage(msg: string, eol: string)
    requires msg != [] && !IsSpace(msg[0]) && !IsSpace(msg[|msg| - 1]) && AllSpace(eol)
    ensures Strip(msg + eol) == msg
  {
    StripAround([], msg, eol);
    assert [] + msg + eol == msg + eol;
  }

  /** Lines 39-46 on a timing message: the tag gives the layer. */
  lemma TagOfMessage(d: string, raw: string, i: string, f: string)
    requires d != [] && AllDigits(d)
    ensures LayerTag(TimingMessage(d, raw, i, f)) == Some((DigitsValue(d), " " + raw + (": " + TimeText(i, f))))
  {
    var afterTag := " " + raw + (": " + TimeText(i, f));
    assert TimingMessage(d, raw, i, f) == LayerOpen + d + "]" + afterTag;
    LayerTagComplete(TimingMessage(d, raw, i, f), d, afterTag);
  }

  /** Lines 46-55 on the text after the tag: the raw name and the time field. */
  lemma ColonOfAfterTag(raw: string, t: string)
    requires t != [] && !IsSpace(t[0]) && !IsSpace(t[|t| - 1]) && ':' !in t
    ensures SplitAtLastColon(Strip(" " + raw + (": " + t))) == Some((Strip(raw), t))
  {
    StripAfterTag(raw, ": " + t);
    var name := TrimStart(raw);
    SpacedColon(name, t);
    LastColonSplit(name, " " + t);
    StripTrimStart(raw);
    SpacedStrip(t);
  }

  /** The colon of `name: t` with the space moved after it. Stated apart from
      its caller so that the caller's proof stays within the solver's resource limit. */
  lemma SpacedColon(name: string, t: string)
    requires ':' !in t
    ensures name + (": " + t) == name + ":" + (" " + t)
    ensures ':' !in " " + t
  {
  }

  lemma SpacedStrip(t: string)
    requires t != [] && !IsSpace(t[0]) && !IsSpace(t[|t| - 1])
    ensures Strip(" " + t) == t
  {
    StripAround(" ", t, []);
    assert " " + t + [] == " " + t;
  }

  /** Lines 58-62 on a time field. */
  lemma TimeOfText(i: string, f: string)
    requires i != [] && AllDigits(i) && f != [] && AllDigits(f)
    ensures LeadingDecimal(TimeText(i, f)) == Some(DecimalValue(i, f))
  {
    LeadingDecimalComplete(i, f, " ms");
  }

  lemma MessageEnds(d: string, raw: string, i: string, f: string)
    requires i != [] && AllDigits(i) && f != [] && AllDigits(f)
    ensures var msg := TimingMessage(d, raw, i, f);
      msg != [] && !IsSpace(msg[0]) && !IsSpace(msg[|msg| - 1])
  {
    TimeTextShape(i, f);
    var msg := TimingMessage(d, raw, i, f);
    assert msg[0] == '[';
    assert msg[|msg| - 1] == TimeText(i, f)[|TimeText(i, f)| - 1];
  }

  /** Every well-formed line is read in full: the record holds the layer's value,
      the normalised stripped raw name and the exact value of the time. */
  lemma ParseWellFormedLine(prefix: string, d: string, raw: string, i: string, f: string, eol: string)
    requires NoSeparatorBefore(prefix)
    requires !Contains(TimingMessage(d, raw, i, f) + eol, Separator)
    requires WellFormed(d, raw, i, f) && AllSpace(eol)
    ensures ParseLine(prefix + Separator + TimingMessage(d, raw, i, f) + eol)
            == Some(Record(DigitsValue(d), Normalise(Strip(raw)), DecimalValue(i, f)))
  {
    var msg := TimingMessage(d, raw, i, f);
    LooseAtMessage(d, raw, i, f, eol);
    FilterPasses(prefix, msg, eol);
    MessageEnds(d, raw, i, f);
    MessageOfWellFormed(prefix, msg, eol);
    RecordOfTimingMessage(d, raw, i, f);
  }

  /** Lines 39-79 on a well-formed message. */
  lemma RecordOfTimingMessage(d: string, raw: string, i: string, f: string)
    requires WellFormed(d, raw, i, f)
    ensures RecordOfMessage(TimingMessage(d, raw, i, f))
            == Some(Record(DigitsValue(d), Normalise(Strip(raw)), DecimalValue(i, f)))
  {
    TimeTextShape(i, f);
    TagOfMessage(d, raw, i, f);
    ColonOfAfterTag(raw, TimeText(i, f));
    TimeOfText(i, f);
  }
}
