/** Line reassembly: `read_full_lines` and the byte buffer the parser keeps
    between calls (`Parser::buf`, `Parser::clear`, and the append / read /
    drain steps at the start of `Parser::parse_from_serial_data`). A
    position into the input plays the part of the `Cursor` the source reads
    through. */
module LineReader {
  import opened Wrappers
  import opened Utf8
  import opened Seqs

  /** The first newline at or after `i`, or `|s|` when there is none: where
      a `read_line` call started at `i` stops. */
  function NextNewline(s: seq<byte>, i: nat): (e: nat)
    requires i <= |s|
    ensures i <= e <= |s|
    decreases |s| - i
  {
    if i == |s| || s[i] == NEWLINE then i else NextNewline(s, i + 1)
  }

  /** `NextNewline` stops at the first newline and only there. */
  lemma {:induction false} NextNewlineSpec(s: seq<byte>, i: nat)
    requires i <= |s|
    ensures forall k :: i <= k < NextNewline(s, i) ==> s[k] != NEWLINE
    ensures NextNewline(s, i) < |s| ==> s[NextNewline(s, i)] == NEWLINE
    decreases |s| - i
  {
    if i < |s| && s[i] != NEWLINE {
      NextNewlineSpec(s, i + 1);
    }
  }

  /** The newline-terminated runs from position `i` on, front to back: what
      successive `read_line` calls return before the unterminated rest. */
  function Runs(s: seq<byte>, i: nat): seq<seq<byte>>
    requires i <= |s|
    decreases |s| - i
  {
    var e := NextNewline(s, i);
    if e == |s| then [] else [s[i..e + 1]] + Runs(s, e + 1)
  }

  /** How far the complete runs from `i` on reach: just past the last
      newline, or `i` itself when there is none. */
  function ConsumedFrom(s: seq<byte>, i: nat): (c: nat)
    requires i <= |s|
    ensures i <= c <= |s|
    decreases |s| - i
  {
    var e := NextNewline(s, i);
    if e == |s| then i else ConsumedFrom(s, e + 1)
  }

  /** The runs that are valid UTF-8, decoded, and the bytes they occupy;
      invalid runs contribute neither a line nor a byte count. */
  function TakeValid(runs: seq<seq<byte>>): (r: (seq<string>, nat))
    decreases |runs|
  {
    if |runs| == 0 then ([], 0)
    else
      var rest := TakeValid(runs[1..]);
      match Decode(runs[0])
      case None => rest
      case Some(line) => ([line] + rest.0, |runs[0]| + rest.1)
  }

  /** `read_full_lines` on a cursor at position `i`: each `read_line` call
      takes the bytes up to and including the next newline. A run that is
      valid UTF-8 becomes a line and counts its bytes; an invalid run is
      skipped and not counted, though the cursor has moved past it; at the
      end of the input, or on a run without a newline, reading stops. (The
      source returns `io::Result`, but always `Ok`.) */
  function ReadFrom(s: seq<byte>, i: nat): (seq<string>, nat)
    requires i <= |s|
  {
    TakeValid(Runs(s, i))
  }

  function ReadFullLines(input: seq<byte>): (seq<string>, nat)
  {
    ReadFrom(input, 0)
  }

  function Flatten(runs: seq<seq<byte>>): seq<byte>
    decreases |runs|
  {
    if |runs| == 0 then [] else runs[0] + Flatten(runs[1..])
  }

  function Concat(lines: seq<string>): string
    decreases |lines|
  {
    if |lines| == 0 then [] else lines[0] + Concat(lines[1..])
  }

  /** The number of bytes the lines occupy as UTF-8. */
  function TotalBytes(lines: seq<string>): nat
    decreases |lines|
  {
    if |lines| == 0 then 0 else |Encode(lines[0])| + TotalBytes(lines[1..])
  }

  predicate EndsWithNewline(line: string)
  {
    |line| > 0 && line[|line| - 1] == '\n'
  }

  predicate EndsWithNewlineByte(run: seq<byte>)
  {
    |run| > 0 && run[|run| - 1] == NEWLINE
  }

  /** Every newline-terminated run from `i` on is valid UTF-8. */
  ghost predicate RunsValidFrom(s: seq<byte>, i: nat)
    requires i <= |s|
  {
    forall k :: 0 <= k < |Runs(s, i)| ==> Valid(Runs(s, i)[k])
  }

  // ---- unfolding steps, one fact each ----

  lemma RunsEnd(s: seq<byte>, i: nat)
    requires i <= |s| && NextNewline(s, i) == |s|
    ensures Runs(s, i) == [] && ConsumedFrom(s, i) == i
  {
  }

  lemma ConsumedCons(s: seq<byte>, i: nat)
    requires i <= |s| && NextNewline(s, i) < |s|
    ensures ConsumedFrom(s, i) == ConsumedFrom(s, NextNewline(s, i) + 1)
  {
  }

  lemma RunsCons(s: seq<byte>, i: nat)
    requires i <= |s| && NextNewline(s, i) < |s|
    ensures var e := NextNewline(s, i);
            && Runs(s, i) == [s[i..e + 1]] + Runs(s, e + 1)
            && ConsumedFrom(s, i) == ConsumedFrom(s, e + 1)
  {
  }

  lemma TakeValidCons(run: seq<byte>, runs: seq<seq<byte>>)
    ensures !Valid(run) ==> TakeValid([run] + runs) == TakeValid(runs)
    ensures Valid(run) ==>
              TakeValid([run] + runs) == ([Decode(run).value] + TakeValid(runs).0, |run| + TakeValid(runs).1)
  {
    assert ([run] + runs)[0] == run && ([run] + runs)[1..] == runs;
  }

  lemma FlattenCons(run: seq<byte>, runs: seq<seq<byte>>)
    ensures Flatten([run] + runs) == run + Flatten(runs)
  {
    assert ([run] + runs)[0] == run && ([run] + runs)[1..] == runs;
  }

  lemma ConsLines(line: string, rest: seq<string>)
    ensures Concat([line] + rest) == line + Concat(rest)
    ensures TotalBytes([line] + rest) == |Encode(line)| + TotalBytes(rest)
  {
    assert ([line] + rest)[0] == line && ([line] + rest)[1..] == rest;
  }

  // ---- the runs ----

  /** Every complete run is cut just after a newline and holds no other. */
  lemma {:induction false} RunsEndInNewline(s: seq<byte>, i: nat)
    requires i <= |s|
    ensures forall k :: 0 <= k < |Runs(s, i)| ==> EndsWithNewlineByte(Runs(s, i)[k])
    decreases |s| - i
  {
    var e := NextNewline(s, i);
    if e < |s| {
      NextNewlineSpec(s, i);
      RunsEndInNewline(s, e + 1);
      RunsCons(s, i);
    }
  }

  /** The complete runs tile the input from `i` up to just past its last
      newline, and what follows holds no newline. */
  lemma {:induction false} RunsTile(s: seq<byte>, i: nat)
    requires i <= |s|
    ensures Flatten(Runs(s, i)) == s[i..ConsumedFrom(s, i)]
    ensures forall k :: ConsumedFrom(s, i) <= k < |s| ==> s[k] != NEWLINE
    decreases |s| - i
  {
    var e := NextNewline(s, i);
    NextNewlineSpec(s, i);
    if e == |s| {
      RunsEnd(s, i);
    } else {
      RunsTile(s, e + 1);
      RunsCons(s, i);
      FlattenCons(s[i..e + 1], Runs(s, e + 1));
      SliceJoin(s, i, e + 1, ConsumedFrom(s, i));
    }
  }

  /** A newline found in `u` is still the first one in `u + v`. */
  lemma NextNewlineAppend(u: seq<byte>, v: seq<byte>, i: nat)
    requires i <= |u| && NextNewline(u, i) < |u|
    ensures NextNewline(u + v, i) == NextNewline(u, i)
  {
    NextNewlineSpec(u, i);
    NextNewlineSpec(u + v, i);
    assert (u + v)[NextNewline(u, i)] == u[NextNewline(u, i)];
  }

  /** The complete runs of `u + v` from `i`: those of `u`, then those from
      where the complete runs of `u` end. Appending bytes never changes the
      runs already complete. */
  lemma {:induction false} RunsAppend(u: seq<byte>, v: seq<byte>, i: nat)
    requires i <= |u|
    ensures Runs(u + v, i) == Runs(u, i) + Runs(u + v, ConsumedFrom(u, i))
    ensures ConsumedFrom(u + v, i) == ConsumedFrom(u + v, ConsumedFrom(u, i))
    decreases |u| - i
  {
    var e := NextNewline(u, i);
    if e == |u| {
      RunsEnd(u, i);
      assert [] + Runs(u + v, i) == Runs(u + v, i);
    } else {
      RunsAppend(u, v, e + 1);
      RunsAppendStep(u, v, i);
    }
  }

  lemma RunsAppendStep(u: seq<byte>, v: seq<byte>, i: nat)
    requires i <= |u| && NextNewline(u, i) < |u|
    requires var e := NextNewline(u, i);
             && Runs(u + v, e + 1) == Runs(u, e + 1) + Runs(u + v, ConsumedFrom(u, e + 1))
             && ConsumedFrom(u + v, e + 1) == ConsumedFrom(u + v, ConsumedFrom(u, e + 1))
    ensures Runs(u + v, i) == Runs(u, i) + Runs(u + v, ConsumedFrom(u, i))
    ensures ConsumedFrom(u + v, i) == ConsumedFrom(u + v, ConsumedFrom(u, i))
  {
    var e := NextNewline(u, i);
    var run := u[i..e + 1];
    NextNewlineAppend(u, v, i);
    assert (u + v)[i..e + 1] == run;
    RunsCons(u, i);
    RunsCons(u + v, i);
    ConsAssoc(run, Runs(u, e + 1), Runs(u + v, ConsumedFrom(u, e + 1)));
  }

  /** Searching a suffix: positions shift by where the suffix starts. */
  lemma NextNewlineShift(s: seq<byte>, d: nat, j: nat)
    requires d + j <= |s|
    ensures NextNewline(s, d + j) == d + NextNewline(s[d..], j)
  {
    NextNewlineSpec(s, d + j);
    NextNewlineSpec(s[d..], j);
  }

  /** Reading a suffix from `j` reads what the whole input does from `d + j`. */
  lemma {:induction false} RunsShift(s: seq<byte>, d: nat, j: nat)
    requires d + j <= |s|
    ensures Runs(s, d + j) == Runs(s[d..], j)
    ensures ConsumedFrom(s, d + j) == d + ConsumedFrom(s[d..], j)
    decreases |s| - d - j
  {
    NextNewlineShift(s, d, j);
    var e := NextNewline(s[d..], j);
    if e < |s| - d {
      RunsShift(s, d, e + 1);
      SliceOfSlice(s, d, j, e + 1);
      RunsShiftStep(s, s[d..], d, j, e);
      ConsumedShiftStep(s, s[d..], d, j, e);
    } else {
      RunsEnd(s, d + j);
      RunsEnd(s[d..], j);
    }
  }

  lemma RunsShiftStep(s: seq<byte>, t: seq<byte>, d: nat, j: nat, e: nat)
    requires j <= |t| && d + |t| == |s|
    requires e == NextNewline(t, j) < |t| && NextNewline(s, d + j) == d + e
    requires t[j..e + 1] == s[d + j..d + e + 1]
    requires Runs(s, d + e + 1) == Runs(t, e + 1)
    ensures Runs(s, d + j) == Runs(t, j)
  {
    RunsCons(s, d + j);
    RunsCons(t, j);
  }

  lemma ConsumedShiftStep(s: seq<byte>, t: seq<byte>, d: nat, j: nat, e: nat)
    requires j <= |t| && d + |t| == |s|
    requires e == NextNewline(t, j) < |t| && NextNewline(s, d + j) == d + e
    requires ConsumedFrom(s, d + e + 1) == d + ConsumedFrom(t, e + 1)
    ensures ConsumedFrom(s, d + j) == d + ConsumedFrom(t, j)
  {
    ConsumedCons(s, d + j);
    ConsumedCons(t, j);
  }

  // ---- what is read from the runs ----

  /** Every line taken from newline-terminated runs ends in a newline, and
      the bytes counted are the UTF-8 length of the lines together. */
  lemma {:induction false} TakeValidShape(runs: seq<seq<byte>>)
    requires forall k :: 0 <= k < |runs| ==> EndsWithNewlineByte(runs[k])
    ensures forall k :: 0 <= k < |TakeValid(runs).0| ==> EndsWithNewline(TakeValid(runs).0[k])
    ensures TakeValid(runs).1 == TotalBytes(TakeValid(runs).0)
    ensures TakeValid(runs).1 <= |Flatten(runs)|
    decreases |runs|
  {
    if |runs| > 0 {
      var run := runs[0];
      assert runs == [run] + runs[1..];
      TakeValidShape(runs[1..]);
      TakeValidCons(run, runs[1..]);
      FlattenCons(run, runs[1..]);
      if Valid(run) {
        DecodedRun(run);
        var rest := TakeValid(runs[1..]).0;
        ConsLines(Decode(run).value, rest);
        assert ([Decode(run).value] + rest)[1..] == rest;
      }
    }
  }

  /** A valid newline-terminated run decodes to a line that ends in a
      newline and whose encoding is the run. */
  lemma DecodedRun(run: seq<byte>)
    requires Valid(run) && EndsWithNewlineByte(run)
    ensures EndsWithNewline(Decode(run).value)
    ensures Encode(Decode(run).value) == run
  {
    EncodeDecode(run);
    NewlineByteIffChar(run);
  }

  /** When every run is valid, the lines are exactly the runs' bytes. */
  lemma {:induction false} TakeAllValid(runs: seq<seq<byte>>)
    requires forall k :: 0 <= k < |runs| ==> Valid(runs[k])
    ensures Encode(Concat(TakeValid(runs).0)) == Flatten(runs)
    ensures TakeValid(runs).1 == |Flatten(runs)|
    decreases |runs|
  {
    if |runs| > 0 {
      var run := runs[0];
      assert runs == [run] + runs[1..];
      TakeAllValid(runs[1..]);
      TakeValidCons(run, runs[1..]);
      FlattenCons(run, runs[1..]);
      var line := Decode(run).value;
      var rest := TakeValid(runs[1..]).0;
      EncodeDecode(run);
      ConsLines(line, rest);
      EncodeAppend(line, Concat(rest));
    }
  }

  lemma {:induction false} TakeValidAppend(r1: seq<seq<byte>>, r2: seq<seq<byte>>)
    ensures TakeValid(r1 + r2).0 == TakeValid(r1).0 + TakeValid(r2).0
    ensures TakeValid(r1 + r2).1 == TakeValid(r1).1 + TakeValid(r2).1
    decreases |r1|
  {
    if |r1| == 0 {
      assert r1 + r2 == r2;
    } else {
      assert (r1 + r2)[0] == r1[0] && (r1 + r2)[1..] == r1[1..] + r2;
      TakeValidAppend(r1[1..], r2);
      match Decode(r1[0])
      case None =>
      case Some(line) =>
        ConsAssoc(line, TakeValid(r1[1..]).0, TakeValid(r2).0);
    }
  }

  // ---- read_full_lines ----

  /** Every line read ends in a newline, the bytes read are the UTF-8
      length of the lines together, and they never reach past the last
      newline. */
  lemma ReadShape(s: seq<byte>, i: nat)
    requires i <= |s|
    ensures var r := ReadFrom(s, i);
            && (forall k :: 0 <= k < |r.0| ==> EndsWithNewline(r.0[k]))
            && r.1 == TotalBytes(r.0)
            && r.1 <= ConsumedFrom(s, i) - i
  {
    RunsEndInNewline(s, i);
    TakeValidShape(Runs(s, i));
    RunsTile(s, i);
  }

  /** When every complete run is valid, the lines are exactly the bytes up
      to the last newline, and the count of bytes read reaches it. */
  lemma ReadAllValid(s: seq<byte>, i: nat)
    requires i <= |s| && RunsValidFrom(s, i)
    ensures Encode(Concat(ReadFrom(s, i).0)) == s[i..ConsumedFrom(s, i)]
    ensures ReadFrom(s, i).1 == ConsumedFrom(s, i) - i
  {
    TakeAllValid(Runs(s, i));
    RunsTile(s, i);
  }

  /** Reading `u + v` from `i`: the lines `u` alone yields, then those from
      where its complete runs end. */
  lemma ReadAppend(u: seq<byte>, v: seq<byte>, i: nat)
    requires i <= |u|
    ensures var c := ConsumedFrom(u, i);
            && ReadFrom(u + v, i).0 == ReadFrom(u, i).0 + ReadFrom(u + v, c).0
            && ReadFrom(u + v, i).1 == ReadFrom(u, i).1 + ReadFrom(u + v, c).1
  {
    RunsAppend(u, v, i);
    TakeValidAppend(Runs(u, i), Runs(u + v, ConsumedFrom(u, i)));
  }

  /** Where a `read_line` call from `pos` leaves the cursor: past the next
      newline, or at the end of the input. */
  function RunEnd(s: seq<byte>, pos: nat): (end: nat)
    requires pos <= |s|
    ensures pos <= end <= |s|
  {
    var e := NextNewline(s, pos);
    if e < |s| then e + 1 else |s|
  }

  /** The outcome of one `read_line` call that read `run` from `pos` and
      left the cursor at `end`, as the loop of `read_full_lines` treats it:
      at the end of the input nothing more is read; an invalid run is passed
      over; a valid run without a newline ends the read; a valid
      newline-terminated run is the next line. */
  ghost predicate StepOutcome(s: seq<byte>, pos: nat, end: nat, run: seq<byte>)
    requires pos <= end <= |s|
  {
    && (end == pos ==> ReadFrom(s, pos) == ([], 0))
    && (!Valid(run) ==> ReadFrom(s, pos) == ReadFrom(s, end))
    && (Valid(run) && !EndsWithNewline(Decode(run).value) ==> ReadFrom(s, pos) == ([], 0))
    && (Valid(run) && EndsWithNewline(Decode(run).value) ==>
          ReadFrom(s, pos) == ([Decode(run).value] + ReadFrom(s, end).0, |run| + ReadFrom(s, end).1))
  }

  /** One `read_line` call from `pos`. */
  lemma ReadStep(s: seq<byte>, pos: nat)
    requires pos <= |s|
    ensures StepOutcome(s, pos, RunEnd(s, pos), s[pos..RunEnd(s, pos)])
  {
    var e := NextNewline(s, pos);
    if e == |s| {
      ReadStepEnd(s, pos);
    } else {
      ReadStepLine(s, pos, e);
    }
  }

  lemma ReadStepEnd(s: seq<byte>, pos: nat)
    requires pos <= |s| && NextNewline(s, pos) == |s|
    ensures StepOutcome(s, pos, |s|, s[pos..|s|])
  {
    RunsEnd(s, pos);
    NextNewlineSpec(s, pos);
    if |s| > pos && Valid(s[pos..|s|]) {
      NewlineByteIffChar(s[pos..|s|]);
    }
  }

  lemma ReadStepLine(s: seq<byte>, pos: nat, e: nat)
    requires pos <= |s| && e == NextNewline(s, pos) < |s|
    ensures StepOutcome(s, pos, e + 1, s[pos..e + 1])
  {
    ReadStepRun(s, pos);
    StepFromTake(s, pos, e + 1, s[pos..e + 1], Runs(s, e + 1));
  }

  lemma StepFromTake(s: seq<byte>, pos: nat, end: nat, run: seq<byte>, rest: seq<seq<byte>>)
    requires pos < end <= |s| && EndsWithNewlineByte(run)
    requires ReadFrom(s, pos) == TakeValid([run] + rest) && ReadFrom(s, end) == TakeValid(rest)
    ensures StepOutcome(s, pos, end, run)
  {
    TakeRun(run, rest);
  }

  lemma ReadStepRun(s: seq<byte>, pos: nat)
    requires pos <= |s| && NextNewline(s, pos) < |s|
    ensures var e := NextNewline(s, pos);
            && EndsWithNewlineByte(s[pos..e + 1])
            && ReadFrom(s, pos) == TakeValid([s[pos..e + 1]] + Runs(s, e + 1))
            && ReadFrom(s, e + 1) == TakeValid(Runs(s, e + 1))
  {
    NextNewlineSpec(s, pos);
    RunsCons(s, pos);
  }

  /** Taking from a newline-terminated run: an invalid one is passed over,
      a valid one is a line ending in a newline. */
  lemma TakeRun(run: seq<byte>, rest: seq<seq<byte>>)
    requires EndsWithNewlineByte(run)
    ensures !Valid(run) ==> TakeValid([run] + rest) == TakeValid(rest)
    ensures Valid(run) ==> EndsWithNewline(Decode(run).value)
    ensures Valid(run) ==>
              TakeValid([run] + rest) == ([Decode(run).value] + TakeValid(rest).0, |run| + TakeValid(rest).1)
  {
    TakeValidCons(run, rest);
    if Valid(run) {
      DecodedRun(run);
    }
  }

  /** The cursor loop of `read_full_lines`, step by step: `pos` is the
      cursor, each iteration is one `read_line` call. */
  method ReadFullLinesLoop(input: seq<byte>) returns (lines: seq<string>, readBytes: nat)
    ensures (lines, readBytes) == ReadFullLines(input)
  {
    lines := [];
    readBytes := 0;
    var pos := 0;
    while true
      invariant pos <= |input|
      invariant ReadFullLines(input).0 == lines + ReadFrom(input, pos).0
      invariant ReadFullLines(input).1 == readBytes + ReadFrom(input, pos).1
      decreases |input| - pos
    {
      var end := RunEnd(input, pos);
      var run := input[pos..end];
      ReadStep(input, pos);
      if |run| == 0 {
        // end of input: `read_line` returned Ok(0)
        assert lines + [] == lines;
        break;
      }
      pos := end;
      match Decode(run)
      case None =>
        // not valid UTF-8: the cursor has moved past the run
      case Some(line) =>
        if !EndsWithNewline(line) {
          // an unfinished last line
          assert lines + [] == lines;
          break;
        }
        AppendAssoc(lines, [line], ReadFrom(input, pos).0);
        lines := lines + [line];
        readBytes := readBytes + |run|;
    }
  }

  // ---- the parser's buffer ----

  /** The parser's persistent byte buffer. */
  datatype Parser = Parser(buf: seq<byte>)

  /** `Parser::clear`. */
  function Clear(p: Parser): (r: Parser)
    ensures r.buf == []
  {
    Parser([])
  }

  /** The reading half of `parse_from_serial_data`: append the chunk, read
      the full lines, drain the bytes they were counted as. The new buffer
      is what follows the counted bytes. When every complete run is valid,
      the lines and the new buffer together are exactly the old buffer
      followed by the chunk, and the buffer keeps no newline. */
  function Feed(p: Parser, chunk: seq<byte>): (r: (Parser, seq<string>))
    ensures var all := p.buf + chunk;
            && r.1 == ReadFullLines(all).0
            && |r.0.buf| + ReadFullLines(all).1 == |all|
            && r.0.buf == all[ReadFullLines(all).1..]
    ensures forall k :: 0 <= k < |r.1| ==> EndsWithNewline(r.1[k])
    ensures RunsValidFrom(p.buf + chunk, 0) ==>
              && Encode(Concat(r.1)) + r.0.buf == p.buf + chunk
              && forall k :: 0 <= k < |r.0.buf| ==> r.0.buf[k] != NEWLINE
  {
    var all := p.buf + chunk;
    var (lines, n) := ReadFullLines(all);
    ReadShape(all, 0);
    ValidFeedTiles(all);
    (Parser(all[n..]), lines)
  }

  lemma ValidFeedTiles(all: seq<byte>)
    ensures ReadFrom(all, 0).1 <= |all|
    ensures RunsValidFrom(all, 0) ==>
              && Encode(Concat(ReadFrom(all, 0).0)) + all[ReadFrom(all, 0).1..] == all
              && forall k :: 0 <= k < |all| - ReadFrom(all, 0).1 ==> all[ReadFrom(all, 0).1..][k] != NEWLINE
  {
    ReadShape(all, 0);
    if RunsValidFrom(all, 0) {
      ReadAllValid(all, 0);
      RunsTile(all, 0);
      var n := ReadFrom(all, 0).1;
      assert all == all[0..n] + all[n..];
    }
  }

  /** Feeding `a` and then `b` delivers the same lines, and leaves the same
      buffer, as feeding `a + b` at once, provided the complete runs of the
      buffer followed by `a` are valid UTF-8. */
  lemma FeedSplit(p: Parser, a: seq<byte>, b: seq<byte>)
    requires RunsValidFrom(p.buf + a, 0)
    ensures var (p1, l1) := Feed(p, a);
            var (p2, l2) := Feed(p1, b);
            var (p3, l3) := Feed(p, a + b);
            l1 + l2 == l3 && p2 == p3
  {
    var u := p.buf + a;
    var n := ReadFrom(u, 0).1;
    FeedIs(p, a);
    FeedIs(Parser(u[n..]), b);
    assert p.buf + (a + b) == u + b;
    FeedIs(p, a + b);
    SplitDrain(u, b);
  }

  /** Reading `u + b` at once, against reading `u`, draining what was
      counted, and reading the rest followed by `b`. */
  lemma SplitDrain(u: seq<byte>, b: seq<byte>)
    requires RunsValidFrom(u, 0)
    ensures ReadFrom(u, 0).1 <= |u|
    ensures var n := ReadFrom(u, 0).1;
            var v := u[n..] + b;
            && ReadFrom(v, 0).1 <= |v| && ReadFrom(u + b, 0).1 <= |u + b|
            && ReadFrom(u + b, 0).0 == ReadFrom(u, 0).0 + ReadFrom(v, 0).0
            && (u + b)[ReadFrom(u + b, 0).1..] == v[ReadFrom(v, 0).1..]
  {
    var c := ConsumedFrom(u, 0);
    ReadAllValid(u, 0);
    var v := u[c..] + b;
    ReadShape(v, 0);
    ReadShape(u + b, 0);
    SplitRead(u, b, c);
    DropTwice(u, b, c, ReadFrom(v, 0).1);
  }

  lemma FeedIs(p: Parser, chunk: seq<byte>)
    ensures var all := p.buf + chunk;
            ReadFrom(all, 0).1 <= |all| &&
            Feed(p, chunk) == (Parser(all[ReadFrom(all, 0).1..]), ReadFrom(all, 0).0)
  {
    ReadShape(p.buf + chunk, 0);
  }

  /** Reading `u + b` at once, against reading `u` and then what is left of
      it after `c`, the end of its complete runs, followed by `b`. */
  lemma SplitRead(u: seq<byte>, b: seq<byte>, c: nat)
    requires c == ConsumedFrom(u, 0)
    ensures (u + b)[c..] == u[c..] + b
    ensures ReadFrom(u + b, 0).0 == ReadFrom(u, 0).0 + ReadFrom(u[c..] + b, 0).0
    ensures ReadFrom(u + b, 0).1 == ReadFrom(u, 0).1 + ReadFrom(u[c..] + b, 0).1
    ensures ConsumedFrom(u + b, 0) == c + ConsumedFrom(u[c..] + b, 0)
  {
    ReadAppend(u, b, 0);
    RunsAppend(u, b, 0);
    RunsShift(u + b, c, 0);
    assert (u + b)[c..] == u[c..] + b;
  }

  /** The reading half of `parse_from_serial_data` as evidently intended:
      drain everything up to the last newline, so that an invalid run is
      dropped along with the valid lines around it. */
  function FeedCorrected(p: Parser, chunk: seq<byte>): (r: (Parser, seq<string>))
    ensures var all := p.buf + chunk;
            && r.1 == ReadFullLines(all).0
            && |r.0.buf| <= |all| && r.0.buf == all[|all| - |r.0.buf|..]
            && forall k :: 0 <= k < |r.0.buf| ==> r.0.buf[k] != NEWLINE
  {
    var all := p.buf + chunk;
    var c := ConsumedFrom(all, 0);
    RunsTile(all, 0);
    (Parser(all[c..]), ReadFullLines(all).0)
  }

  /** The corrected drain agrees with the source whenever every complete
      run is valid UTF-8. */
  lemma FeedCorrectedAgrees(p: Parser, chunk: seq<byte>)
    requires RunsValidFrom(p.buf + chunk, 0)
    ensures FeedCorrected(p, chunk) == Feed(p, chunk)
  {
    ReadAllValid(p.buf + chunk, 0);
  }

  /** With the corrected drain, feeding `a` and then `b` is feeding `a + b`
      at once, whatever the bytes. */
  lemma FeedCorrectedSplit(p: Parser, a: seq<byte>, b: seq<byte>)
    ensures var (p1, l1) := FeedCorrected(p, a);
            var (p2, l2) := FeedCorrected(p1, b);
            var (p3, l3) := FeedCorrected(p, a + b);
            l1 + l2 == l3 && p2 == p3
  {
    var u := p.buf + a;
    var c := ConsumedFrom(u, 0);
    FeedCorrectedIs(p, a);
    FeedCorrectedIs(Parser(u[c..]), b);
    assert p.buf + (a + b) == u + b;
    FeedCorrectedIs(p, a + b);
    SplitDrainCorrected(u, b);
  }

  /** Reading `u + b` at once, against reading `u`, draining to the end of
      its complete runs, and reading the rest followed by `b`. */
  lemma SplitDrainCorrected(u: seq<byte>, b: seq<byte>)
    ensures var c := ConsumedFrom(u, 0);
            var v := u[c..] + b;
            && ReadFrom(u + b, 0).0 == ReadFrom(u, 0).0 + ReadFrom(v, 0).0
            && (u + b)[ConsumedFrom(u + b, 0)..] == v[ConsumedFrom(v, 0)..]
  {
    var c := ConsumedFrom(u, 0);
    var v := u[c..] + b;
    SplitRead(u, b, c);
    DropTwice(u, b, c, ConsumedFrom(v, 0));
  }

  lemma FeedCorrectedIs(p: Parser, chunk: seq<byte>)
    ensures var all := p.buf + chunk;
            FeedCorrected(p, chunk) == (Parser(all[ConsumedFrom(all, 0)..]), ReadFrom(all, 0).0)
  {
  }

  lemma DropTwice<T>(u: seq<T>, b: seq<T>, c: nat, c2: nat)
    requires c <= |u| && c2 <= |u| - c + |b|
    ensures (u + b)[c + c2..] == (u[c..] + b)[c2..]
  {
  }

  /** Reading `[0xFF, 10, 97, 10]`: the first run is not UTF-8 and is
      skipped, the second is the line "a"; only its two bytes are counted,
      though the complete runs reach the end. */
  lemma ReadSample()
    ensures ReadFullLines([0xFF, 10, 97, 10]) == (["a\n"], 2)
    ensures ConsumedFrom([0xFF, 10, 97, 10], 0) == 4
    ensures ReadFullLines([97, 10]) == (["a\n"], 2)
  {
    var bad: seq<byte> := [0xFF, 10];
    var line: seq<byte> := [97, 10];
    RunsSample();
    DecodeSamples();
    TakeValidCons(bad, [line]);
    TakeValidCons(line, []);
    assert [bad] + [line] == [bad, line];
    assert [line] + [] == [line];
    assert TakeValid([]) == ([], 0);
    assert ["a\n"] + [] == ["a\n"];
    assert TakeValid([line]) == (["a\n"], 2);
  }

  /** The runs of the sample input, and of the line left behind. */
  lemma RunsSample()
    ensures Runs([0xFF, 10, 97, 10], 0) == [[0xFF, 10], [97, 10]]
    ensures ConsumedFrom([0xFF, 10, 97, 10], 0) == 4
    ensures Runs([97, 10], 0) == [[97, 10]]
  {
    var input: seq<byte> := [0xFF, 10, 97, 10];
    var line: seq<byte> := [97, 10];
    assert NextNewline(input, 0) == 1 && NextNewline(input, 2) == 3 && NextNewline(input, 4) == 4;
    RunsCons(input, 0);
    RunsCons(input, 2);
    RunsEnd(input, 4);
    assert input[0..2] == [0xFF, 10] && input[2..4] == line;
    assert NextNewline(line, 0) == 1 && NextNewline(line, 2) == 2;
    RunsCons(line, 0);
    RunsEnd(line, 2);
    assert line[0..2] == line;
  }

  /** The two runs of the sample input: an invalid one and the line "a". */
  lemma DecodeSamples()
    ensures Decode([0xFF, 10]) == None
    ensures Decode([97, 10]) == Some("a\n")
  {
    var bad: seq<byte> := [0xFF, 10];
    assert DecodeFirst(bad) == None;
    var line: seq<byte> := [97, 10];
    var nl: seq<byte> := [10];
    assert DecodeFirst(nl).value.0 == '\n';
    assert DecodeFirst(nl) == Some(('\n', 1));
    assert nl[1..] == [];
    assert Decode(nl[1..]) == Some([]);
    assert ['\n'] + [] == "\n";
    assert Decode(nl) == Some("\n");
    assert DecodeFirst(line).value.0 == 'a';
    assert DecodeFirst(line) == Some(('a', 1));
    assert line[1..] == nl;
    assert Decode(line[1..]) == Some("\n");
    assert ['a'] + "\n" == "a\n";
  }

  /** The source's drain on a concrete input: an invalid run followed by the
      line "a" leaves "a" in the buffer, so the next call delivers it again. */
  lemma InvalidRunRedelivers()
    ensures var (p1, l1) := Feed(Parser([]), [0xFF, 10, 97, 10]);
            var (p2, l2) := Feed(p1, []);
            l1 == ["a\n"] && l2 == ["a\n"]
  {
    ReadSample();
    var input: seq<byte> := [0xFF, 10, 97, 10];
    assert [] + input == input;
    assert input[2..] + [] == [97, 10];
  }

  /** The corrected drain on the same input delivers "a" once. */
  lemma CorrectedDeliversOnce()
    ensures var (p1, l1) := FeedCorrected(Parser([]), [0xFF, 10, 97, 10]);
            var (p2, l2) := FeedCorrected(p1, []);
            l1 == ["a\n"] && l2 == [] && p2.buf == []
  {
    ReadSample();
    var input: seq<byte> := [0xFF, 10, 97, 10];
    assert [] + input == input;
    assert input[4..] + [] == [];
    assert ReadFullLines([]) == ([], 0) by {
      RunsEnd([], 0);
    }
    assert ConsumedFrom([], 0) == 0;
  }
}
