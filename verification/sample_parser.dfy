/** The sample parser (`Parser::parse_from_serial_data`): every full line
    read from the serial data is trimmed, split on the value separator, and
    each field `value` or `name=value` becomes a sample of the series at the
    field's position, unless it is a time field (`time=...` or `t=...`),
    which sets the time stamp of the samples after it in the same call. */
module SampleParser {
  import opened Wrappers
  import opened Text
  import opened TimeUnits
  import LineReader
  import opened Utf8

  /** A measured value, its time stamp in seconds and its optional name. */
  datatype Sample = Sample(time: real, value: real, name: Option<string>)

  /** What one call yields: the full lines read, the new samples per field
      position (each inner sequence is that position's history, oldest
      first), and how many samples were added. */
  datatype ParseResult = ParseResult(fullLines: seq<string>, samplesVec: seq<seq<Sample>>, newSamples: nat)

  /** The separator used until the user picks another. */
  const DefaultSeparator: char := ','

  /** What a single field says: its name when it has one, whether that name
      marks a time value, and its value when the text parses. */
  datatype Field = Field(name: Option<string>, isTime: bool, value: Option<real>)

  predicate IsTimeName(n: string)
  {
    n == "time" || n == "t"
  }

  /** Value text: its numeric characters, read as a decimal. */
  function ParseValue(text: string): Option<real>
  {
    ParseNum(KeepNumeric(text))
  }

  function TrimAll(parts: seq<string>): (r: seq<string>)
    ensures |r| == |parts|
    ensures forall k :: 0 <= k < |r| ==> r[k] == Trim(parts[k])
  {
    seq(|parts|, k requires 0 <= k < |parts| => Trim(parts[k]))
  }

  /** One field: split on '=' and trim the pieces; with two pieces or more
      the first is the name and the second the value text, otherwise the
      one piece is the value text. */
  function ParseField(field: string): (f: Field)
    ensures f.name.Some? <==> '=' in field
    ensures f.isTime <==> f.name.Some? && IsTimeName(f.name.value)
    ensures f.name.Some? ==> Trim(f.name.value) == f.name.value
  {
    var parts := TrimAll(Split(field, '='));
    SplitOnceIff(field, '=');
    if |parts| > 1 then
      TrimIdempotent(Split(field, '=')[0]);
      Field(Some(parts[0]), IsTimeName(parts[0]), ParseValue(parts[1]))
    else
      Field(None, false, ParseValue(parts[0]))
  }

  /** A string splits into more than one piece exactly when it holds the
      separator. */
  lemma SplitOnceIff(s: string, sep: char)
    ensures |Split(s, sep)| > 1 <==> sep in s
  {
  }

  // ---- the accumulator the line loop threads through ----

  /** The running state of one call: the current time stamp, the samples
      per position so far, and the count of samples added. */
  datatype Acc = Acc(time: real, samplesVec: seq<seq<Sample>>, added: nat)

  /** The sample of field `i` goes to position `i` when that position
      already has samples, and to a new last position otherwise. */
  function Place(vs: seq<seq<Sample>>, i: nat, s: Sample): (r: seq<seq<Sample>>)
    ensures |r| == if i < |vs| then |vs| else |vs| + 1
  {
    if i < |vs| then vs[i := vs[i] + [s]] else vs + [[s]]
  }

  /** The sample lands at position `min(i, |vs|)`, after what that
      position held; every other position is unchanged. So the position a
      sample lands at can be below its field index, never above it. */
  lemma PlacePosition(vs: seq<seq<Sample>>, i: nat, s: Sample)
    ensures var r := Place(vs, i, s);
            var p := if i < |vs| then i else |vs|;
            && p <= i && p < |r| && |r| <= |vs| + 1
            && r[p] == (if p < |vs| then vs[p] else []) + [s]
            && forall j :: 0 <= j < |r| && j != p ==> r[j] == vs[j]
  {
  }

  /** Field `i` of a line. A field whose value does not parse is skipped;
      a time field sets the time stamp; any other field adds a sample. */
  function StepField(unit: TimeUnit, acc: Acc, i: nat, field: string): Acc
  {
    var f := ParseField(field);
    match f.value
    case None => acc
    case Some(v) =>
      if f.isTime then acc.(time := ToSecs(unit, v))
      else acc.(samplesVec := Place(acc.samplesVec, i, Sample(acc.time, v, f.name)), added := acc.added + 1)
  }

  /** The fields of a line from position `i` on. */
  function StepFields(unit: TimeUnit, acc: Acc, fields: seq<string>, i: nat): Acc
    requires i <= |fields|
    decreases |fields| - i
  {
    if i == |fields| then acc else StepFields(unit, StepField(unit, acc, i, fields[i]), fields, i + 1)
  }

  /** One full line: trimmed, skipped when empty, else split into fields. */
  function StepLine(unit: TimeUnit, sep: char, acc: Acc, line: string): Acc
  {
    var t := Trim(line);
    if |t| == 0 then acc else StepFields(unit, acc, Split(t, sep), 0)
  }

  /** All the lines, in order. */
  function StepLines(unit: TimeUnit, sep: char, acc: Acc, lines: seq<string>): Acc
    decreases |lines|
  {
    if |lines| == 0 then acc else StepLines(unit, sep, StepLine(unit, sep, acc, lines[0]), lines[1..])
  }

  /** `parse_from_serial_data`: feed the bytes to the line buffer, then parse
      the full lines with the time stamp starting at `elapsed`, the seconds
      since the connection started (a clock reading in the source). The
      buffer is drained by the bytes counted, as `LineReader.Feed` does, so
      it keeps no newline only when every complete run was valid UTF-8.
      The source's only failure is the one `read_full_lines` never
      returns. */
  function ParseFromSerialData(p: LineReader.Parser, data: seq<byte>, unit: TimeUnit, sep: char, elapsed: real)
    : (r: Result<(LineReader.Parser, ParseResult), string>)
    ensures r.Ok? ==>
              var all := p.buf + data;
              && LineReader.ReadFullLines(all).1 + |r.value.0.buf| == |all|
              && r.value.0.buf == all[LineReader.ReadFullLines(all).1..]
              && r.value.1.fullLines == LineReader.ReadFullLines(all).0
              && Total(r.value.1.samplesVec) == r.value.1.newSamples
              && NonEmpty(r.value.1.samplesVec)
    ensures r.Ok? && LineReader.RunsValidFrom(p.buf + data, 0) ==>
              forall k :: 0 <= k < |r.value.0.buf| ==> r.value.0.buf[k] != NEWLINE
  {
    var (p', lines) := LineReader.Feed(p, data);
    Ok((p', ParseLines(lines, unit, sep, elapsed)))
  }

  /** The parsing half, shared by the source's drain and the corrected one:
      the full lines become samples, counted, with no empty position. */
  function ParseLines(lines: seq<string>, unit: TimeUnit, sep: char, elapsed: real): (res: ParseResult)
    ensures res.fullLines == lines
    ensures Total(res.samplesVec) == res.newSamples && NonEmpty(res.samplesVec)
  {
    var acc := StepLines(unit, sep, Acc(elapsed, [], 0), lines);
    StepLinesAdvance(unit, sep, Acc(elapsed, [], 0), lines);
    ParseResult(lines, acc.samplesVec, acc.added)
  }

  /** `parse_from_serial_data` with the drain evidently intended: the buffer
      is drained up to the end of the last full line, so it never keeps a
      newline, and the parse agrees with the source's whenever every
      complete run is valid UTF-8. */
  function ParseFromSerialDataCorrected(p: LineReader.Parser, data: seq<byte>, unit: TimeUnit, sep: char, elapsed: real)
    : (r: Result<(LineReader.Parser, ParseResult), string>)
    ensures r.Ok?
    ensures forall k :: 0 <= k < |r.value.0.buf| ==> r.value.0.buf[k] != NEWLINE
    ensures r.value.1.fullLines == LineReader.ReadFullLines(p.buf + data).0
    ensures LineReader.RunsValidFrom(p.buf + data, 0) ==> r == ParseFromSerialData(p, data, unit, sep, elapsed)
  {
    var (p', lines) := LineReader.FeedCorrected(p, data);
    CorrectedAgreesWhenValid(p, data);
    Ok((p', ParseLines(lines, unit, sep, elapsed)))
  }

  lemma CorrectedAgreesWhenValid(p: LineReader.Parser, data: seq<byte>)
    ensures LineReader.RunsValidFrom(p.buf + data, 0) ==> LineReader.FeedCorrected(p, data) == LineReader.Feed(p, data)
  {
    if LineReader.RunsValidFrom(p.buf + data, 0) {
      LineReader.FeedCorrectedAgrees(p, data);
    }
  }

  /** Parsing never fails. */
  lemma ParseNeverFails(p: LineReader.Parser, data: seq<byte>, unit: TimeUnit, sep: char, elapsed: real)
    ensures ParseFromSerialData(p, data, unit, sep, elapsed).Ok?
  {
  }

  // ---- counting: `n_new_samples` is the number of samples in the result ----

  function Total(vs: seq<seq<Sample>>): nat
    decreases |vs|
  {
    if |vs| == 0 then 0 else Total(vs[..|vs| - 1]) + |vs[|vs| - 1]|
  }

  /** Every position holds at least one sample. */
  ghost predicate NonEmpty(vs: seq<seq<Sample>>)
  {
    forall j :: 0 <= j < |vs| ==> |vs[j]| > 0
  }

  /** `b` extends `a`: no fewer positions, and each old position's samples
      are a prefix of its new ones. */
  ghost predicate Grows(a: seq<seq<Sample>>, b: seq<seq<Sample>>)
  {
    |a| <= |b| && forall j :: 0 <= j < |a| ==> a[j] <= b[j]
  }

  /** What every step keeps: the samples only grow, the count never drops,
      and a count that matches the samples and positions that are all
      non-empty stay that way. */
  ghost predicate Advance(a: Acc, b: Acc)
  {
    && Grows(a.samplesVec, b.samplesVec)
    && a.added <= b.added
    && (a.added == Total(a.samplesVec) && NonEmpty(a.samplesVec) ==>
          b.added == Total(b.samplesVec) && NonEmpty(b.samplesVec))
  }

  lemma {:induction false} TotalAppend(vs: seq<seq<Sample>>, x: seq<Sample>)
    ensures Total(vs + [x]) == Total(vs) + |x|
  {
    assert (vs + [x])[..|vs|] == vs;
  }

  lemma {:induction false} TotalUpdate(vs: seq<seq<Sample>>, i: nat, x: seq<Sample>)
    requires i < |vs|
    ensures Total(vs[i := x]) + |vs[i]| == Total(vs) + |x|
    decreases |vs|
  {
    var n := |vs| - 1;
    if i < n {
      assert vs[i := x][..n] == vs[..n][i := x];
      TotalUpdate(vs[..n], i, x);
    } else {
      assert vs[i := x][..n] == vs[..n];
    }
  }

  /** Placing a sample adds one to the total and grows the samples. */
  lemma PlaceAdvances(vs: seq<seq<Sample>>, i: nat, s: Sample)
    ensures Total(Place(vs, i, s)) == Total(vs) + 1
    ensures Grows(vs, Place(vs, i, s))
    ensures NonEmpty(vs) ==> NonEmpty(Place(vs, i, s))
  {
    if i < |vs| {
      TotalUpdate(vs, i, vs[i] + [s]);
    } else {
      TotalAppend(vs, [s]);
    }
  }

  lemma AdvanceTrans(a: Acc, b: Acc, c: Acc)
    requires Advance(a, b) && Advance(b, c)
    ensures Advance(a, c)
  {
    forall j | 0 <= j < |a.samplesVec|
      ensures a.samplesVec[j] <= c.samplesVec[j]
    {
      assert a.samplesVec[j] <= b.samplesVec[j] <= c.samplesVec[j];
    }
  }

  lemma StepFieldAdvance(unit: TimeUnit, acc: Acc, i: nat, field: string)
    ensures Advance(acc, StepField(unit, acc, i, field))
  {
    var f := ParseField(field);
    if f.value.Some? && !f.isTime {
      PlaceAdvances(acc.samplesVec, i, Sample(acc.time, f.value.value, f.name));
    }
  }

  lemma {:induction false} StepFieldsAdvance(unit: TimeUnit, acc: Acc, fields: seq<string>, i: nat)
    requires i <= |fields|
    ensures Advance(acc, StepFields(unit, acc, fields, i))
    decreases |fields| - i
  {
    if i < |fields| {
      var next := StepField(unit, acc, i, fields[i]);
      StepFieldAdvance(unit, acc, i, fields[i]);
      StepFieldsAdvance(unit, next, fields, i + 1);
      AdvanceTrans(acc, next, StepFields(unit, next, fields, i + 1));
    }
  }

  lemma StepLineAdvance(unit: TimeUnit, sep: char, acc: Acc, line: string)
    ensures Advance(acc, StepLine(unit, sep, acc, line))
  {
    var t := Trim(line);
    if |t| > 0 {
      StepFieldsAdvance(unit, acc, Split(t, sep), 0);
    }
  }

  /** Over any lines, the count of added samples is the number of samples
      gathered, no position is empty, and earlier samples are kept. */
  lemma {:induction false} StepLinesAdvance(unit: TimeUnit, sep: char, acc: Acc, lines: seq<string>)
    ensures Advance(acc, StepLines(unit, sep, acc, lines))
    decreases |lines|
  {
    if |lines| > 0 {
      var next := StepLine(unit, sep, acc, lines[0]);
      StepLineAdvance(unit, sep, acc, lines[0]);
      StepLinesAdvance(unit, sep, next, lines[1..]);
      AdvanceTrans(acc, next, StepLines(unit, sep, next, lines[1..]));
    }
  }

  /** Parsing lines in two batches is parsing them at once, given the state
      the first batch leaves. */
  lemma {:induction false} StepLinesAppend(unit: TimeUnit, sep: char, acc: Acc, a: seq<string>, b: seq<string>)
    ensures StepLines(unit, sep, acc, a + b) == StepLines(unit, sep, StepLines(unit, sep, acc, a), b)
    decreases |a|
  {
    if |a| == 0 {
      assert a + b == b;
    } else {
      assert (a + b)[0] == a[0] && (a + b)[1..] == a[1..] + b;
      StepLinesAppend(unit, sep, StepLine(unit, sep, acc, a[0]), a[1..], b);
    }
  }

  // ---- time stamps ----

  /** Every sample carries time stamp `t`. */
  ghost predicate AllAt(vs: seq<seq<Sample>>, t: real)
  {
    forall j, k :: 0 <= j < |vs| && 0 <= k < |vs[j]| ==> vs[j][k].time == t
  }

  /** No field of the line is named `time` or `t`. */
  ghost predicate NoTimeField(sep: char, line: string)
  {
    var fields := Split(Trim(line), sep);
    forall k :: 0 <= k < |fields| ==> !ParseField(fields[k]).isTime
  }

  lemma PlaceAt(vs: seq<seq<Sample>>, i: nat, s: Sample)
    requires AllAt(vs, s.time)
    ensures AllAt(Place(vs, i, s), s.time)
  {
  }

  lemma {:induction false} StepFieldsKeepTime(unit: TimeUnit, acc: Acc, fields: seq<string>, i: nat)
    requires i <= |fields| && AllAt(acc.samplesVec, acc.time)
    requires forall k :: 0 <= k < |fields| ==> !ParseField(fields[k]).isTime
    ensures var r := StepFields(unit, acc, fields, i);
            r.time == acc.time && AllAt(r.samplesVec, acc.time)
    decreases |fields| - i
  {
    if i < |fields| {
      var f := ParseField(fields[i]);
      if f.value.Some? {
        PlaceAt(acc.samplesVec, i, Sample(acc.time, f.value.value, f.name));
      }
      StepFieldsKeepTime(unit, StepField(unit, acc, i, fields[i]), fields, i + 1);
    }
  }

  /** Without time fields, every sample gets the time stamp the call
      started with. */
  lemma {:induction false} StepLinesKeepTime(unit: TimeUnit, sep: char, acc: Acc, lines: seq<string>)
    requires AllAt(acc.samplesVec, acc.time)
    requires forall k :: 0 <= k < |lines| ==> NoTimeField(sep, lines[k])
    ensures var r := StepLines(unit, sep, acc, lines);
            r.time == acc.time && AllAt(r.samplesVec, acc.time)
    decreases |lines|
  {
    if |lines| > 0 {
      var t := Trim(lines[0]);
      assert NoTimeField(sep, lines[0]);
      if |t| > 0 {
        StepFieldsKeepTime(unit, acc, Split(t, sep), 0);
      }
      StepLinesKeepTime(unit, sep, StepLine(unit, sep, acc, lines[0]), lines[1..]);
    }
  }

  /** The samples `after` holds beyond those of `before`: what it keeps of
      `before` is unchanged, and every sample past them carries stamp `t`. */
  ghost predicate StampedAfter(before: seq<seq<Sample>>, after: seq<seq<Sample>>, t: real)
  {
    && Grows(before, after)
    && forall p, q :: 0 <= p < |after| && Held(before, p) <= q < |after[p]| ==> after[p][q].time == t
  }

  /** How many samples position `p` held. */
  function Held(vs: seq<seq<Sample>>, p: nat): nat
  {
    if p < |vs| then |vs[p]| else 0
  }

  lemma StampedAfterRefl(vs: seq<seq<Sample>>, t: real)
    ensures StampedAfter(vs, vs, t)
  {
  }

  lemma StampedAfterTrans(a: seq<seq<Sample>>, b: seq<seq<Sample>>, c: seq<seq<Sample>>, t: real)
    requires StampedAfter(a, b, t) && StampedAfter(b, c, t)
    ensures StampedAfter(a, c, t)
  {
    forall j | 0 <= j < |a|
      ensures a[j] <= c[j]
    {
      assert a[j] <= b[j] <= c[j];
    }
    forall p, q | 0 <= p < |c| && Held(a, p) <= q < |c[p]|
      ensures c[p][q].time == t
    {
      if p < |b| && q < |b[p]| {
        assert b[p] <= c[p];
        assert c[p][q] == b[p][q];
      }
    }
  }

  lemma PlaceStamped(vs: seq<seq<Sample>>, i: nat, s: Sample)
    ensures StampedAfter(vs, Place(vs, i, s), s.time)
  {
    PlaceAdvances(vs, i, s);
  }

  /** Fields without a time field keep the stamp, and every sample they add
      carries it. */
  lemma {:induction false} StepFieldsStamp(unit: TimeUnit, acc: Acc, fields: seq<string>, i: nat)
    requires i <= |fields|
    requires forall k :: i <= k < |fields| ==> !ParseField(fields[k]).isTime
    ensures var r := StepFields(unit, acc, fields, i);
            r.time == acc.time && StampedAfter(acc.samplesVec, r.samplesVec, acc.time)
    decreases |fields| - i
  {
    if i == |fields| {
      StampedAfterRefl(acc.samplesVec, acc.time);
    } else {
      var f := ParseField(fields[i]);
      var next := StepField(unit, acc, i, fields[i]);
      if f.value.Some? {
        PlaceStamped(acc.samplesVec, i, Sample(acc.time, f.value.value, f.name));
      } else {
        StampedAfterRefl(acc.samplesVec, acc.time);
      }
      StepFieldsCons(unit, acc, fields, i, next);
      StepFieldsStamp(unit, next, fields, i + 1);
      StampedAfterTrans(acc.samplesVec, next.samplesVec, StepFields(unit, next, fields, i + 1).samplesVec, acc.time);
    }
  }

  /** A time field anywhere in a line: field `j` is `time=v` or `t=v` with
      a value that parses, and no later field of the line is a time field.
      Then the stamp becomes `v` in the time unit, and every sample the rest
      of the line adds carries it. */
  lemma TimeFieldStampsRest(unit: TimeUnit, acc: Acc, fields: seq<string>, j: nat)
    requires j < |fields|
    requires ParseField(fields[j]).isTime && ParseField(fields[j]).value.Some?
    requires forall k :: j < k < |fields| ==> !ParseField(fields[k]).isTime
    ensures var t := ToSecs(unit, ParseField(fields[j]).value.value);
            var r := StepFields(unit, acc, fields, j);
            r.time == t && StampedAfter(acc.samplesVec, r.samplesVec, t)
  {
    var t := ToSecs(unit, ParseField(fields[j]).value.value);
    var next := acc.(time := t);
    StepFieldsCons(unit, acc, fields, j, next);
    StepFieldsStamp(unit, next, fields, j + 1);
  }

  /** Lines without a time field keep the stamp, and every sample they add
      carries it. */
  lemma {:induction false} StepLinesStamp(unit: TimeUnit, sep: char, acc: Acc, lines: seq<string>)
    requires forall k :: 0 <= k < |lines| ==> NoTimeField(sep, lines[k])
    ensures var r := StepLines(unit, sep, acc, lines);
            r.time == acc.time && StampedAfter(acc.samplesVec, r.samplesVec, acc.time)
    decreases |lines|
  {
    if |lines| == 0 {
      StampedAfterRefl(acc.samplesVec, acc.time);
    } else {
      var next := StepLine(unit, sep, acc, lines[0]);
      var t := Trim(lines[0]);
      assert NoTimeField(sep, lines[0]);
      if |t| > 0 {
        StepFieldsStamp(unit, acc, Split(t, sep), 0);
      } else {
        StampedAfterRefl(acc.samplesVec, acc.time);
      }
      StepLinesStamp(unit, sep, next, lines[1..]);
      StampedAfterTrans(acc.samplesVec, next.samplesVec, StepLines(unit, sep, next, lines[1..]).samplesVec, acc.time);
    }
  }

  /** The stamp a time field sets holds for the rest of the call: from a
      time field at `j` of a line's fields, through the rest of that line
      and every later line, as long as no other time field follows. */
  lemma TimeStampsRestOfCall(unit: TimeUnit, sep: char, acc: Acc, fields: seq<string>, j: nat, rest: seq<string>)
    requires j < |fields|
    requires ParseField(fields[j]).isTime && ParseField(fields[j]).value.Some?
    requires forall k :: j < k < |fields| ==> !ParseField(fields[k]).isTime
    requires forall k :: 0 <= k < |rest| ==> NoTimeField(sep, rest[k])
    ensures var t := ToSecs(unit, ParseField(fields[j]).value.value);
            var r := StepLines(unit, sep, StepFields(unit, acc, fields, j), rest);
            r.time == t && StampedAfter(acc.samplesVec, r.samplesVec, t)
  {
    var mid := StepFields(unit, acc, fields, j);
    TimeFieldStampsRest(unit, acc, fields, j);
    StepLinesStamp(unit, sep, mid, rest);
    StampedAfterTrans(acc.samplesVec, mid.samplesVec, StepLines(unit, sep, mid, rest).samplesVec, mid.time);
  }

  /** A time field stamps the samples after it: after `t=v`, the next
      sample carries `v` converted to seconds. */
  lemma TimeFieldStamps(unit: TimeUnit, acc: Acc, i: nat, v: nat, j: nat, w: nat)
    ensures var a := StepField(unit, acc, i, "t=" + NatToDigits(v));
            var b := StepField(unit, a, j, NatToDigits(w));
            && a.time == ToSecs(unit, v as real) && a.samplesVec == acc.samplesVec
            && b.added == acc.added + 1
            && Place(acc.samplesVec, j, Sample(ToSecs(unit, v as real), w as real, None)) == b.samplesVec
  {
    NamedFieldParses("t", v);
    assert "t=" + NatToDigits(v) == "t" + ['='] + NatToDigits(v);
    FieldParses(w);
  }

  /** A line that is empty once trimmed adds nothing, even though it is
      among the full lines. */
  lemma BlankLineSkipped(unit: TimeUnit, sep: char, acc: Acc, line: string)
    requires forall k :: 0 <= k < |line| ==> IsWhitespace(line[k])
    ensures StepLine(unit, sep, acc, line) == acc
  {
    TrimEmptyIff(line);
  }

  /** A field whose value text does not parse adds no sample and no count,
      and leaves the time stamp as it was, even when it is a time field. */
  lemma UnparsedFieldSkipped(unit: TimeUnit, acc: Acc, i: nat, field: string)
    requires ParseField(field).value.None?
    ensures StepField(unit, acc, i, field) == acc
  {
  }

  /** A line holding just the time field `t=v`. */
  lemma TimeLine(unit: TimeUnit, sep: char, acc: Acc, v: nat)
    requires !IsNumericChar(sep) && sep != '=' && sep != 't'
    ensures StepLine(unit, sep, acc, "t=" + NatToDigits(v)) == acc.(time := ToSecs(unit, v as real))
  {
    var line := "t=" + NatToDigits(v);
    var next := acc.(time := ToSecs(unit, v as real));
    TimeText(v, sep);
    TimeField(unit, acc, v, next);
    StepFieldsCons(unit, acc, [line], 0, next);
    assert StepFields(unit, next, [line], 1) == next;
  }

  lemma TimeText(v: nat, sep: char)
    requires !IsNumericChar(sep) && sep != '=' && sep != 't'
    ensures var line := "t=" + NatToDigits(v);
            Trim(line) == line && Split(line, sep) == [line]
  {
    var d := NatToDigits(v);
    var line := "t=" + d;
    assert line[|line| - 1] == d[|d| - 1];
    TrimKeeps(line);
    assert forall k :: 0 <= k < |d| ==> d[k] != sep;
    assert sep !in line;
    assert Split(line, sep) == [line];
  }

  lemma TimeField(unit: TimeUnit, acc: Acc, v: nat, next: Acc)
    requires next == acc.(time := ToSecs(unit, v as real))
    ensures StepField(unit, acc, 0, "t=" + NatToDigits(v)) == next
  {
    var d := NatToDigits(v);
    assert "t=" + d == "t" + ['='] + d;
    TrimKeeps("t");
    NamedFieldParses("t", v);
  }

  /** The time stamp is set once per call, not once per line: after a line
      `t=v`, the samples of the next line are stamped with `v` in seconds. */
  lemma TimeCarriesAcrossLines(unit: TimeUnit, sep: char, acc: Acc, v: nat, vs: seq<int>)
    requires |vs| >= 1 && !IsNumericChar(sep) && sep != '=' && sep != 't'
    ensures var r := StepLines(unit, sep, acc, ["t=" + NatToDigits(v), Join(Row(vs), sep)]);
            var t := ToSecs(unit, v as real);
            && r.time == t && r.added == acc.added + |vs|
            && Column(acc.samplesVec, vs, t, |vs|, r.samplesVec)
  {
    var first := "t=" + NatToDigits(v);
    var second := Join(Row(vs), sep);
    var acc1 := acc.(time := ToSecs(unit, v as real));
    TimeLine(unit, sep, acc, v);
    TwoLines(unit, sep, acc, first, second, acc1);
    RowParses(unit, sep, acc1, vs);
  }

  lemma TwoLines(unit: TimeUnit, sep: char, acc: Acc, first: string, second: string, mid: Acc)
    requires StepLine(unit, sep, acc, first) == mid
    ensures StepLines(unit, sep, acc, [first, second]) == StepLine(unit, sep, mid, second)
  {
    var lines := [first, second];
    var last := StepLine(unit, sep, mid, second);
    assert lines[0] == first && lines[1..] == [second];
    OneLine(unit, sep, mid, second);
    assert StepLines(unit, sep, acc, lines) == StepLines(unit, sep, mid, lines[1..]);
  }

  lemma OneLine(unit: TimeUnit, sep: char, acc: Acc, line: string)
    ensures StepLines(unit, sep, acc, [line]) == StepLine(unit, sep, acc, line)
  {
    assert [line][0] == line && [line][1..] == [];
  }

  // ---- an example line ----

  /** The line `time=100, square=0.2, sin=-0.4` with times in milliseconds,
      parsed from an empty start: the time field stamps both values with
      0.1 s, and they take positions 0 and 1. The value of field 1 goes to
      position 0 because no position exists yet, and the value of field 2
      goes to position 1, the new last one. */
  lemma ExampleLine(elapsed: real, line: string)
    requires line == "time=100, square=0.2, sin=-0.4"
    ensures StepLine(Ms, ',', Acc(elapsed, [], 0), line) ==
            Acc(0.1, [[Sample(0.1, 0.2, Some("square"))], [Sample(0.1, -0.4, Some("sin"))]], 2)
  {
    ExampleFields(line);
    ExampleSteps(elapsed, line, Split(line, ','));
  }

  /** The line trims to itself and splits into a time field and two named
      values. */
  lemma ExampleFields(line: string)
    requires line == "time=100, square=0.2, sin=-0.4"
    ensures var parts := Split(line, ',');
            && |Trim(line)| > 0 && Trim(line) == line && |parts| == 3
            && ParseField(parts[0]) == Field(Some("time"), true, Some(100.0))
            && ParseField(parts[1]) == Field(Some("square"), false, Some(0.2))
            && ParseField(parts[2]) == Field(Some("sin"), false, Some(-0.4))
  {
    ExampleSplit(line);
    ExampleTrim(line);
    var parts := Split(line, ',');
    ExampleTimeField(parts[0]);
    ExampleSquareField(parts[1]);
    ExampleSinField(parts[2]);
  }

  lemma ExampleSteps(elapsed: real, line: string, parts: seq<string>)
    requires |Trim(line)| > 0 && Trim(line) == line && Split(line, ',') == parts && |parts| == 3
    requires ParseField(parts[0]) == Field(Some("time"), true, Some(100.0))
    requires ParseField(parts[1]) == Field(Some("square"), false, Some(0.2))
    requires ParseField(parts[2]) == Field(Some("sin"), false, Some(-0.4))
    ensures StepLine(Ms, ',', Acc(elapsed, [], 0), line) ==
            Acc(0.1, [[Sample(0.1, 0.2, Some("square"))], [Sample(0.1, -0.4, Some("sin"))]], 2)
  {
    TimeThenTwoValues(Ms, elapsed, parts, "time", 100.0, "square", 0.2, "sin", -0.4);
    assert ToSecs(Ms, 100.0) == 0.1;
  }

  lemma ExampleSplit(line: string)
    requires line == "time=100, square=0.2, sin=-0.4"
    ensures Split(line, ',') == ["time=100", " square=0.2", " sin=-0.4"]
  {
    var parts := ["time=100", " square=0.2", " sin=-0.4"];
    JoinCons(parts[1], [parts[2]], ',');
    assert parts[1..] == [parts[1]] + [parts[2]];
    JoinCons(parts[0], parts[1..], ',');
    assert parts == [parts[0]] + parts[1..];
    assert Join(parts, ',') == line;
    JoinSplit(parts, ',');
  }

  lemma ExampleTrim(line: string)
    requires line == "time=100, square=0.2, sin=-0.4"
    ensures Trim(line) == line
  {
    TrimKeeps(line);
  }

  lemma ExampleTimeField(field: string)
    requires field == "time=100"
    ensures ParseField(field) == Field(Some("time"), true, Some(100.0))
  {
    assert NatToDigits(1) == "1";
    assert NatToDigits(10) == "10";
    assert NatToDigits(100) == "100";
    assert field == "time" + ['='] + NatToDigits(100);
    TrimKeeps("time");
    NamedFieldParses("time", 100);
  }

  lemma ExampleSquareField(field: string)
    requires field == " square=0.2"
    ensures ParseField(field) == Field(Some("square"), false, Some(0.2))
  {
    var name, d := "square", '2';
    var text := "0." + [d];
    assert field == [' '] + name + ['='] + text;
    NameParts(name);
    DecimalText(text, false, d);
    TenthsParse(d);
    NamedDecimal(field, name, text);
  }

  lemma ExampleSinField(field: string)
    requires field == " sin=-0.4"
    ensures ParseField(field) == Field(Some("sin"), false, Some(-0.4))
  {
    var name, d := "sin", '4';
    var text := "-0." + [d];
    assert field == [' '] + name + ['='] + text;
    NameParts(name);
    DecimalText(text, true, d);
    TenthsParse(d);
    NamedDecimal(field, name, text);
  }

  lemma NameParts(name: string)
    requires name == "square" || name == "sin"
    ensures Bare(name) && !IsTimeName(name)
  {
  }

  /** `0.d` and `-0.d` are bare numeric text. */
  lemma DecimalText(text: string, neg: bool, d: char)
    requires IsDigit(d) && text == (if neg then "-0." else "0.") + [d]
    ensures Bare(text) && AllNumeric(text)
  {
    assert text[|text| - 1] == d;
    assert forall k :: 0 <= k < |text| ==> text[k] != '=' && IsNumericChar(text[k]);
  }

  /** Text that is not empty, has no '=' and no whitespace at either end. */
  predicate Bare(s: string)
  {
    |s| > 0 && !IsWhitespace(s[0]) && !IsWhitespace(s[|s| - 1]) && '=' !in s
  }

  /** A space, a name, '=' and numeric text: the field is named by the name
      and valued by the text. */
  lemma NamedDecimal(field: string, name: string, text: string)
    requires field == [' '] + name + ['='] + text
    requires Bare(name) && Bare(text) && AllNumeric(text)
    ensures ParseField(field) == Field(Some(name), IsTimeName(name), ParseNum(text))
  {
    var spaced := [' '] + name;
    assert field == spaced + ['='] + text;
    SplitNamed(spaced, text);
    ParseFieldNamed(field, spaced, text);
    TrimLeadingSpace(name);
    TrimKeeps(text);
  }

  /** A time field then two named values, from an empty start: both values
      are stamped with the time field's value in seconds and take the first
      two positions. */
  lemma TimeThenTwoValues(unit: TimeUnit, elapsed: real, parts: seq<string>, tn: string, tv: real,
                          n1: string, v1: real, n2: string, v2: real)
    requires |parts| == 3
    requires ParseField(parts[0]) == Field(Some(tn), true, Some(tv))
    requires ParseField(parts[1]) == Field(Some(n1), false, Some(v1))
    requires ParseField(parts[2]) == Field(Some(n2), false, Some(v2))
    ensures var t := ToSecs(unit, tv);
            StepFields(unit, Acc(elapsed, [], 0), parts, 0) ==
            Acc(t, [[Sample(t, v1, Some(n1))], [Sample(t, v2, Some(n2))]], 2)
  {
    var t := ToSecs(unit, tv);
    var a0 := Acc(elapsed, [], 0);
    var a1 := Acc(t, [], 0);
    var a2 := Acc(t, [[Sample(t, v1, Some(n1))]], 1);
    var a3 := Acc(t, [[Sample(t, v1, Some(n1))], [Sample(t, v2, Some(n2))]], 2);
    TimeFieldStep(unit, a0, 0, parts[0], tn, tv, a1);
    ValueFieldStep(unit, a1, 1, parts[1], n1, v1, a2);
    ValueFieldStep(unit, a2, 2, parts[2], n2, v2, a3);
    ThreeFields(unit, parts, a0, a1, a2, a3);
  }

  lemma TimeFieldStep(unit: TimeUnit, acc: Acc, i: nat, field: string, name: string, v: real, next: Acc)
    requires ParseField(field) == Field(Some(name), true, Some(v))
    requires next == acc.(time := ToSecs(unit, v))
    ensures StepField(unit, acc, i, field) == next
  {
  }

  lemma ValueFieldStep(unit: TimeUnit, acc: Acc, i: nat, field: string, name: string, v: real, next: Acc)
    requires ParseField(field) == Field(Some(name), false, Some(v))
    requires next == Acc(acc.time, Place(acc.samplesVec, i, Sample(acc.time, v, Some(name))), acc.added + 1)
    ensures StepField(unit, acc, i, field) == next
  {
  }

  lemma ThreeFields(unit: TimeUnit, parts: seq<string>, a0: Acc, a1: Acc, a2: Acc, a3: Acc)
    requires |parts| == 3
    requires StepField(unit, a0, 0, parts[0]) == a1
    requires StepField(unit, a1, 1, parts[1]) == a2
    requires StepField(unit, a2, 2, parts[2]) == a3
    ensures StepFields(unit, a0, parts, 0) == a3
  {
    StepFieldsCons(unit, a0, parts, 0, a1);
    StepFieldsCons(unit, a1, parts, 1, a2);
    StepFieldsCons(unit, a2, parts, 2, a3);
    assert StepFields(unit, a3, parts, 3) == a3;
  }

  // ---- several lines in one call ----

  /** Two lines `t=t1, a=a1, b=b1` and `t=t2, a=a2, b=b2` parsed in one call
      from an empty start. Both lines have the same fields, yet the series
      are not kept apart: the time field takes field index 0 without taking
      a position, so the first line's values open positions 0 and 1, the
      second line's `a` joins position 1 behind the first line's `b`, and its
      `b` opens position 2. */
  lemma SeriesMixAcrossLines(unit: TimeUnit, sep: char, elapsed: real, l1: string, l2: string,
                             p1: seq<string>, p2: seq<string>, tn: string, na: string, nb: string,
                             t1: real, a1: real, b1: real, t2: real, a2: real, b2: real)
    requires |Trim(l1)| > 0 && Trim(l1) == l1 && Split(l1, sep) == p1 && |p1| == 3
    requires |Trim(l2)| > 0 && Trim(l2) == l2 && Split(l2, sep) == p2 && |p2| == 3
    requires ParseField(p1[0]) == Field(Some(tn), true, Some(t1))
    requires ParseField(p1[1]) == Field(Some(na), false, Some(a1))
    requires ParseField(p1[2]) == Field(Some(nb), false, Some(b1))
    requires ParseField(p2[0]) == Field(Some(tn), true, Some(t2))
    requires ParseField(p2[1]) == Field(Some(na), false, Some(a2))
    requires ParseField(p2[2]) == Field(Some(nb), false, Some(b2))
    ensures var s1, s2 := ToSecs(unit, t1), ToSecs(unit, t2);
            StepLines(unit, sep, Acc(elapsed, [], 0), [l1, l2]) ==
            Acc(s2, [[Sample(s1, a1, Some(na))],
                     [Sample(s1, b1, Some(nb)), Sample(s2, a2, Some(na))],
                     [Sample(s2, b2, Some(nb))]], 4)
  {
    var s1, s2 := ToSecs(unit, t1), ToSecs(unit, t2);
    var mid := Acc(s1, [[Sample(s1, a1, Some(na))], [Sample(s1, b1, Some(nb))]], 2);
    TimeThenTwoValues(unit, elapsed, p1, tn, t1, na, a1, nb, b1);
    TwoLines(unit, sep, Acc(elapsed, [], 0), l1, l2, mid);
    SecondLineMixes(unit, p2, mid, tn, na, nb, s1, a1, b1, t2, a2, b2);
  }

  /** The second line of `SeriesMixAcrossLines`, from the two positions the
      first one opened. */
  lemma SecondLineMixes(unit: TimeUnit, parts: seq<string>, acc: Acc, tn: string, na: string, nb: string,
                        s1: real, a1: real, b1: real, t2: real, a2: real, b2: real)
    requires |parts| == 3
    requires acc == Acc(s1, [[Sample(s1, a1, Some(na))], [Sample(s1, b1, Some(nb))]], 2)
    requires ParseField(parts[0]) == Field(Some(tn), true, Some(t2))
    requires ParseField(parts[1]) == Field(Some(na), false, Some(a2))
    requires ParseField(parts[2]) == Field(Some(nb), false, Some(b2))
    ensures var s2 := ToSecs(unit, t2);
            StepFields(unit, acc, parts, 0) ==
            Acc(s2, [[Sample(s1, a1, Some(na))],
                     [Sample(s1, b1, Some(nb)), Sample(s2, a2, Some(na))],
                     [Sample(s2, b2, Some(nb))]], 4)
  {
    var s2 := ToSecs(unit, t2);
    var c1 := acc.(time := s2);
    var c2 := Acc(s2, [[Sample(s1, a1, Some(na))], [Sample(s1, b1, Some(nb)), Sample(s2, a2, Some(na))]], 3);
    var c3 := Acc(s2, [[Sample(s1, a1, Some(na))],
                       [Sample(s1, b1, Some(nb)), Sample(s2, a2, Some(na))],
                       [Sample(s2, b2, Some(nb))]], 4);
    TimeFieldStep(unit, acc, 0, parts[0], tn, t2, c1);
    PlaceBehind(Sample(s1, a1, Some(na)), Sample(s1, b1, Some(nb)), Sample(s2, a2, Some(na)));
    PlaceNew(c2.samplesVec, Sample(s2, b2, Some(nb)));
    ValueFieldStep(unit, c1, 1, parts[1], na, a2, c2);
    ValueFieldStep(unit, c2, 2, parts[2], nb, b2, c3);
    ThreeFields(unit, parts, acc, c1, c2, c3);
  }

  lemma PlaceBehind(x: Sample, y: Sample, z: Sample)
    ensures Place([[x], [y]], 1, z) == [[x], [y, z]]
  {
    assert [[x], [y]][1] + [z] == [y, z];
  }

  lemma PlaceNew(vs: seq<seq<Sample>>, w: Sample)
    requires |vs| == 2
    ensures Place(vs, 2, w) == vs + [[w]]
  {
  }

  // ---- writing fields and lines, and parsing them back ----

  /** The text a device prints for an integer value. */
  function IntText(v: int): (s: string)
    ensures |s| > 0 && AllNumeric(s)
    ensures !IsWhitespace(s[0]) && !IsWhitespace(s[|s| - 1])
    ensures forall k :: 0 <= k < |s| ==> s[k] != '='
  {
    if v < 0 then ['-'] + NatToDigits(-v) else NatToDigits(v)
  }

  /** An unnamed integer field parses to its value. */
  lemma IntFieldParses(v: int)
    ensures ParseField(IntText(v)) == Field(None, false, Some(v as real))
  {
    ParseFieldPlain(IntText(v));
    IntValueParses(v);
  }

  lemma FieldParses(v: nat)
    ensures ParseField(NatToDigits(v)) == Field(None, false, Some(v as real))
  {
    IntFieldParses(v);
  }

  lemma IntValueParses(v: int)
    ensures ParseValue(Trim(IntText(v))) == Some(v as real)
  {
    TrimKeeps(IntText(v));
    FormatParseRoundTrip(if v < 0 then -v else v);
  }

  /** A field without '=' is all value text. */
  lemma ParseFieldPlain(field: string)
    requires '=' !in field
    ensures ParseField(field) == Field(None, false, ParseValue(Trim(field)))
  {
    assert Split(field, '=') == [field];
  }

  /** A field whose first two '='-separated pieces are `name` and `text`
      is named by the trimmed `name`, with the trimmed `text` as value text. */
  lemma ParseFieldNamed(field: string, name: string, text: string)
    requires |Split(field, '=')| >= 2 && Split(field, '=')[0] == name && Split(field, '=')[1] == text
    ensures ParseField(field) == Field(Some(Trim(name)), IsTimeName(Trim(name)), ParseValue(Trim(text)))
  {
  }

  /** Pieces after the second are ignored: `name=value=rest` parses as
      `name=value`. */
  lemma ExtraPartsIgnored(name: string, text: string, rest: string)
    requires '=' !in name && '=' !in text
    ensures ParseField(name + ['='] + text + ['='] + rest) == ParseField(name + ['='] + text)
  {
    var long := name + ['='] + text + ['='] + rest;
    assert long == name + ['='] + (text + ['='] + rest);
    SplitCons(name, text + ['='] + rest);
    SplitCons(text, rest);
    SplitNamed(name, text);
    ParseFieldNamed(long, name, text);
    ParseFieldNamed(name + ['='] + text, name, text);
  }

  lemma SplitCons(a: string, b: string)
    requires '=' !in a
    ensures Split(a + ['='] + b, '=') == [a] + Split(b, '=')
  {
    var s := a + ['='] + b;
    IndexOfAppend(a, '=', b);
    assert s[..|a|] == a && s[|a| + 1..] == b;
  }

  /** A named field `name=digits` parses to its name and value, whatever the
      name, as long as it has no '=' and no surrounding whitespace. */
  lemma NamedFieldParses(name: string, v: nat)
    requires '=' !in name && Trim(name) == name
    ensures ParseField(name + ['='] + NatToDigits(v)) ==
            Field(Some(name), IsTimeName(name), Some(v as real))
  {
    var d := NatToDigits(v);
    SplitNamed(name, d);
    ParseFieldNamed(name + ['='] + d, name, d);
    IntValueParses(v);
  }

  lemma SplitNamed(name: string, d: string)
    requires '=' !in name && '=' !in d
    ensures Split(name + ['='] + d, '=') == [name, d]
  {
    SplitCons(name, d);
    assert Split(d, '=') == [d];
  }

  /** The fields of a row of integer values. */
  function Row(vs: seq<int>): (r: seq<string>)
    ensures |r| == |vs|
    ensures forall k :: 0 <= k < |r| ==> r[k] == IntText(vs[k])
  {
    seq(|vs|, k requires 0 <= k < |vs| => IntText(vs[k]))
  }

  /** The samples a row of values yields from position `i` on: a position
      keeps what it had and gains the row's value if the row reaches it. */
  ghost predicate Column(before: seq<seq<Sample>>, vs: seq<int>, t: real, i: nat, cur: seq<seq<Sample>>)
  {
    && i <= |vs|
    && |cur| == (if |before| < i then i else |before|)
    && forall j :: 0 <= j < |cur| ==>
         cur[j] == (if j < |before| then before[j] else []) + (if j < i then [Sample(t, vs[j] as real, None)] else [])
  }

  lemma ColumnStep(before: seq<seq<Sample>>, vs: seq<int>, t: real, i: nat, cur: seq<seq<Sample>>)
    requires i < |vs| && Column(before, vs, t, i, cur)
    ensures Column(before, vs, t, i + 1, Place(cur, i, Sample(t, vs[i] as real, None)))
  {
  }

  lemma {:induction false} RowFieldsParse(unit: TimeUnit, acc: Acc, before: seq<seq<Sample>>, vs: seq<int>, i: nat)
    requires i <= |vs| && Column(before, vs, acc.time, i, acc.samplesVec)
    ensures var r := StepFields(unit, acc, Row(vs), i);
            && r.time == acc.time && r.added == acc.added + |vs| - i
            && Column(before, vs, acc.time, |vs|, r.samplesVec)
    decreases |vs| - i
  {
    var row := Row(vs);
    if i == |vs| {
      assert StepFields(unit, acc, row, i) == acc;
    } else {
      var next := Acc(acc.time, Place(acc.samplesVec, i, Sample(acc.time, vs[i] as real, None)), acc.added + 1);
      RowFieldStep(unit, acc, vs, i);
      StepFieldsCons(unit, acc, row, i, next);
      ColumnStep(before, vs, acc.time, i, acc.samplesVec);
      RowFieldsParse(unit, next, before, vs, i + 1);
    }
  }

  lemma StepFieldsCons(unit: TimeUnit, acc: Acc, fields: seq<string>, i: nat, next: Acc)
    requires i < |fields| && StepField(unit, acc, i, fields[i]) == next
    ensures StepFields(unit, acc, fields, i) == StepFields(unit, next, fields, i + 1)
  {
  }

  lemma RowFieldStep(unit: TimeUnit, acc: Acc, vs: seq<int>, i: nat)
    requires i < |vs|
    ensures StepField(unit, acc, i, Row(vs)[i]) ==
            Acc(acc.time, Place(acc.samplesVec, i, Sample(acc.time, vs[i] as real, None)), acc.added + 1)
  {
    IntFieldParses(vs[i]);
  }

  /** A line of integer values joined with a separator that is not part of
      a number parses to one sample per value: value `j` is appended to
      position `j`, or starts that position when it is new, stamped with the
      current time and without a name. */
  lemma RowParses(unit: TimeUnit, sep: char, acc: Acc, vs: seq<int>)
    requires |vs| >= 1 && !IsNumericChar(sep)
    ensures var r := StepLine(unit, sep, acc, Join(Row(vs), sep));
            && r.time == acc.time && r.added == acc.added + |vs|
            && Column(acc.samplesVec, vs, acc.time, |vs|, r.samplesVec)
  {
    var row := Row(vs);
    var line := Join(row, sep);
    forall k | 0 <= k < |row|
      ensures sep !in row[k]
    {
      assert AllNumeric(row[k]);
    }
    JoinSplit(row, sep);
    JoinEnds(row, sep);
    TrimKeeps(line);
    RowFieldsParse(unit, acc, acc.samplesVec, vs, 0);
  }
}
