/** The data path of the plotter application (`SplotApp`): the per-position
    sample histories and their appearances, the serial-monitor lines, the
    received-samples counter and the parser, with the operations that change
    them: `clear_samples`, the parser-clearing part of `reset_connection`,
    and `poll_read` once its read has completed. */
module App {
  import opened Wrappers
  import opened Text
  import opened TimeUnits
  import opened SampleParser
  import FSB = FixedSizeBuffer
  import LineReader
  import opened Utf8

  /** The build target, which chooses the buffer sizes. */
  datatype Target = Native | Wasm32

  /** `SAMPLES_BUF_SIZE`: the history kept per position. */
  function SamplesBufSize(t: Target): (n: nat)
    ensures n >= 1
  {
    match t
    case Native => 16384
    case Wasm32 => 2048
  }

  /** `MONITOR_LINES_BUF_SIZE`: the serial-monitor lines kept. */
  function MonitorLinesBufSize(t: Target): (n: nat)
    ensures n >= 1
  {
    match t
    case Native => 512
    case Wasm32 => 128
  }

  function Max(a: int, b: int): int { if a >= b then a else b }

  // ---- appearances ----

  /** A plot colour: the fixed blue of a fresh appearance, or a colour given
      by hue, saturation, value and alpha. */
  datatype Color = Blue | Hsva(hue: real, saturation: real, value: real, alpha: real)

  /** `unique_color_in_list`: the hue of entry `i` of `len` is `i / len`,
      with fixed saturation 0.8, value 0.95 and full opacity. */
  function UniqueColor(i: nat, len: nat): (c: Color)
    requires i < len
    ensures c.Hsva? && 0.0 <= c.hue < 1.0
  {
    Hsva(i as real / len as real, 0.8, 0.95, 1.0)
  }

  /** Hues follow list order, so different entries get different colours. */
  lemma UniqueColorOrdered(i: nat, j: nat, len: nat)
    requires i < j < len
    ensures UniqueColor(i, len).hue < UniqueColor(j, len).hue
    ensures UniqueColor(i, len) != UniqueColor(j, len)
  {
    var l := len as real;
    assert j as real / l - i as real / l == (j - i) as real / l;
    assert (j - i) as real / l > 0.0;
  }

  /** How a position's samples are shown: a name, visibility, a colour. */
  datatype Appearance = Appearance(name: string, visible: bool, color: Color)

  /** `SamplesAppearance::new`: visible and blue. */
  function NewAppearance(name: string): (a: Appearance)
    ensures a.name == name && a.visible && a.color == Blue
  {
    Appearance(name, true, Blue)
  }

  /** Every entry has the colour its place in the list gives it. */
  ghost predicate Colored(apps: seq<Appearance>)
  {
    forall k :: 0 <= k < |apps| ==> apps[k].color == UniqueColor(k, |apps|)
  }

  /** `recolor_samples_appearances`: every entry gets the colour of its
      place; names and visibility are kept. */
  function Recolor(apps: seq<Appearance>): (r: seq<Appearance>)
    ensures |r| == |apps| && Colored(r)
    ensures forall k :: 0 <= k < |r| ==> r[k].name == apps[k].name && r[k].visible == apps[k].visible
  {
    seq(|apps|, k requires 0 <= k < |apps| => apps[k].(color := UniqueColor(k, |apps|)))
  }

  /** After recolouring no two entries share a colour. */
  lemma RecolorDistinct(apps: seq<Appearance>)
    ensures var r := Recolor(apps);
            forall j, k :: 0 <= j < k < |r| ==> r[j].color != r[k].color
  {
    var r := Recolor(apps);
    forall j, k | 0 <= j < k < |r|
      ensures r[j].color != r[k].color
    {
      UniqueColorOrdered(j, k, |r|);
    }
  }

  /** Recolouring changes nothing in a list that is already coloured, so
      in particular it is idempotent. */
  lemma RecolorFixes(apps: seq<Appearance>)
    ensures Colored(apps) ==> Recolor(apps) == apps
    ensures Recolor(Recolor(apps)) == Recolor(apps)
  {
  }

  /** The label of a new position without a named first sample:
      "Samples " and the index, zero-padded to two digits. */
  function SeriesLabel(i: nat): string
  {
    "Samples " + Pad2(i)
  }

  /** The label reads back as its index, so different positions get
      different labels. */
  lemma SeriesLabelIndex(i: nat)
    ensures |SeriesLabel(i)| >= 10 && SeriesLabel(i)[..8] == "Samples "
    ensures ParseNum(SeriesLabel(i)[8..]) == Some(i as real)
  {
    var l := SeriesLabel(i);
    assert l[8..] == Pad2(i);
    FormatParseRoundTrip(i);
  }

  /** The name of a new position: its first sample's name, or the label. */
  function SeriesName(news: seq<Sample>, i: nat): (name: string)
    ensures |news| > 0 && news[0].name.Some? ==> name == news[0].name.value
    ensures !(|news| > 0 && news[0].name.Some?) ==> name == SeriesLabel(i)
  {
    if |news| > 0 && news[0].name.Some? then news[0].name.value else SeriesLabel(i)
  }

  // ---- the application state ----

  /** The parts of `SplotApp` the data path reads and writes. */
  datatype App = App(
    timeUnit: TimeUnit,
    separator: char,
    parser: LineReader.Parser,
    samplesVec: seq<FSB.Buffer<Sample>>,
    received: nat,
    monitor: FSB.Buffer<string>,
    appearances: seq<Appearance>)

  /** What the data path keeps true: one appearance per position, every
      history and the monitor sized for the target and within their bound,
      and the appearances coloured by place. */
  ghost predicate Wf(target: Target, app: App)
  {
    && |app.samplesVec| == |app.appearances|
    && (forall k :: 0 <= k < |app.samplesVec| ==>
          app.samplesVec[k].size == SamplesBufSize(target) && FSB.Bounded(app.samplesVec[k]))
    && app.monitor.size == MonitorLinesBufSize(target) && FSB.Bounded(app.monitor)
    && Colored(app.appearances)
  }

  /** `SplotApp::default`, data path only: seconds, ',' as separator, an
      empty parser, no samples, an empty monitor. */
  function Default(target: Target): (app: App)
    ensures Wf(target, app)
    ensures app.timeUnit == S && app.separator == ','
    ensures app.parser.buf == [] && app.samplesVec == [] && app.received == 0
    ensures app.monitor.items == [] && app.appearances == []
  {
    App(DefaultUnit, DefaultSeparator, LineReader.Parser([]), [], 0,
        FSB.New(MonitorLinesBufSize(target)), [])
  }

  /** `clear_samples`: forget every sample, appearance and monitor line and
      reset the count; settings and the parser are kept. */
  function ClearSamples(app: App): (r: App)
    ensures r.received == 0 && r.samplesVec == [] && r.appearances == []
    ensures r.monitor.items == [] && r.monitor.size == app.monitor.size
    ensures r.parser == app.parser && r.timeUnit == app.timeUnit && r.separator == app.separator
  {
    app.(received := 0, samplesVec := [], appearances := [], monitor := FSB.Clear(app.monitor))
  }

  /** `reset_connection`, data path only: clear the samples and the parser. */
  function ResetConnection(app: App): (r: App)
    ensures r.parser.buf == [] && r.received == 0 && r.samplesVec == [] && r.appearances == []
    ensures r.monitor.items == [] && r.monitor.size == app.monitor.size
    ensures r.timeUnit == app.timeUnit && r.separator == app.separator
  {
    var c := ClearSamples(app);
    c.(parser := LineReader.Clear(c.parser))
  }

  /** Clearing keeps the invariant and is idempotent; a reset brings a
      well-formed state back to the default one, but for the settings. */
  lemma ClearSpec(target: Target, app: App)
    requires Wf(target, app)
    ensures Wf(target, ClearSamples(app)) && Wf(target, ResetConnection(app))
    ensures ClearSamples(ClearSamples(app)) == ClearSamples(app)
    ensures ResetConnection(app) == Default(target).(timeUnit := app.timeUnit, separator := app.separator)
  {
  }

  // ---- poll_read ----

  /** The merge loop of `poll_read` from position `i` on: the samples of an
      existing position extend its history; a new position gets a fresh
      history extended by its samples and a new appearance, after which
      every appearance is recoloured. */
  function MergeFrom(target: Target, series: seq<FSB.Buffer<Sample>>, apps: seq<Appearance>,
                     news: seq<seq<Sample>>, i: nat): (r: (seq<FSB.Buffer<Sample>>, seq<Appearance>))
    requires i <= |news|
    decreases |news| - i
  {
    if i == |news| then (series, apps)
    else if i < |series| then
      MergeFrom(target, series[i := FSB.Extend(series[i], news[i])], apps, news, i + 1)
    else
      var created := FSB.Extend(FSB.New(SamplesBufSize(target)), news[i]);
      var apps' := Recolor(apps + [NewAppearance(SeriesName(news[i], i))]);
      MergeFrom(target, series + [created], apps', news, i + 1)
  }

  /** What position `k` holds once the merge has passed position `i`. */
  function Merged(target: Target, s0: seq<FSB.Buffer<Sample>>, news: seq<seq<Sample>>, i: nat, k: nat)
    : FSB.Buffer<Sample>
    requires i <= |news| && k < Max(|s0|, i)
  {
    if k >= i then s0[k]
    else if k < |s0| then FSB.Extend(s0[k], news[k])
    else FSB.Extend(FSB.New(SamplesBufSize(target)), news[k])
  }

  /** The name and visibility position `k` has once the merge has passed
      position `i`. */
  function Named(a0: seq<Appearance>, news: seq<seq<Sample>>, k: nat): Appearance
    requires k < |a0| || k < |news|
  {
    if k < |a0| then a0[k] else NewAppearance(SeriesName(news[k], k))
  }

  /** The state after the merge has passed position `i`, started from
      aligned `s0` and `a0`: positions up to `i` extended or created, the
      names and visibility of old appearances kept and new ones named, and
      the appearances untouched if nothing was created, else recoloured. */
  ghost predicate MergeState(target: Target, s0: seq<FSB.Buffer<Sample>>, a0: seq<Appearance>,
                             news: seq<seq<Sample>>, i: nat,
                             s: seq<FSB.Buffer<Sample>>, a: seq<Appearance>)
  {
    && |s0| == |a0|
    && SeriesState(target, s0, news, i, s)
    && AppsState(a0, news, i, a)
  }

  ghost predicate SeriesState(target: Target, s0: seq<FSB.Buffer<Sample>>, news: seq<seq<Sample>>, i: nat,
                              s: seq<FSB.Buffer<Sample>>)
  {
    && i <= |news| && |s| == Max(|s0|, i)
    && forall k :: 0 <= k < |s| ==> s[k] == Merged(target, s0, news, i, k)
  }

  ghost predicate AppsState(a0: seq<Appearance>, news: seq<seq<Sample>>, i: nat, a: seq<Appearance>)
  {
    && i <= |news| && |a| == Max(|a0|, i)
    && (forall k :: 0 <= k < |a| ==>
          a[k].name == Named(a0, news, k).name && a[k].visible == Named(a0, news, k).visible)
    && (if i <= |a0| then a == a0 else Colored(a))
  }

  /** A step at a position that already exists extends its history. */
  lemma MergeStepExisting(target: Target, s0: seq<FSB.Buffer<Sample>>, a0: seq<Appearance>,
                          news: seq<seq<Sample>>, i: nat, s: seq<FSB.Buffer<Sample>>, a: seq<Appearance>)
    requires i < |news| && i < |s| && MergeState(target, s0, a0, news, i, s, a)
    ensures MergeState(target, s0, a0, news, i + 1, s[i := FSB.Extend(s[i], news[i])], a)
  {
    assert i < |s0|;
  }

  /** A step past the last position creates one and recolours. */
  lemma MergeStepNew(target: Target, s0: seq<FSB.Buffer<Sample>>, a0: seq<Appearance>,
                     news: seq<seq<Sample>>, i: nat, s: seq<FSB.Buffer<Sample>>, a: seq<Appearance>)
    requires i < |news| && i >= |s| && MergeState(target, s0, a0, news, i, s, a)
    ensures MergeState(target, s0, a0, news, i + 1,
                       s + [FSB.Extend(FSB.New(SamplesBufSize(target)), news[i])],
                       Recolor(a + [NewAppearance(SeriesName(news[i], i))]))
  {
    SeriesStepNew(target, s0, news, i, s);
    AppsStepNew(a0, news, i, a);
  }

  lemma SeriesStepNew(target: Target, s0: seq<FSB.Buffer<Sample>>, news: seq<seq<Sample>>, i: nat,
                      s: seq<FSB.Buffer<Sample>>)
    requires i < |news| && i >= |s| && SeriesState(target, s0, news, i, s)
    ensures SeriesState(target, s0, news, i + 1, s + [FSB.Extend(FSB.New(SamplesBufSize(target)), news[i])])
  {
    assert |s| == i && i >= |s0|;
  }

  lemma AppsStepNew(a0: seq<Appearance>, news: seq<seq<Sample>>, i: nat, a: seq<Appearance>)
    requires i < |news| && i >= |a| && AppsState(a0, news, i, a)
    ensures AppsState(a0, news, i + 1, Recolor(a + [NewAppearance(SeriesName(news[i], i))]))
  {
    assert |a| == i && i >= |a0|;
  }

  lemma {:induction false} MergeFromState(target: Target, s0: seq<FSB.Buffer<Sample>>, a0: seq<Appearance>,
                                          news: seq<seq<Sample>>, i: nat,
                                          s: seq<FSB.Buffer<Sample>>, a: seq<Appearance>)
    requires MergeState(target, s0, a0, news, i, s, a)
    ensures var r := MergeFrom(target, s, a, news, i);
            MergeState(target, s0, a0, news, |news|, r.0, r.1)
    decreases |news| - i
  {
    if i < |news| {
      if i < |s| {
        var s' := s[i := FSB.Extend(s[i], news[i])];
        assert MergeFrom(target, s, a, news, i) == MergeFrom(target, s', a, news, i + 1);
        MergeStepExisting(target, s0, a0, news, i, s, a);
        MergeFromState(target, s0, a0, news, i + 1, s', a);
      } else {
        var s' := s + [FSB.Extend(FSB.New(SamplesBufSize(target)), news[i])];
        var a' := Recolor(a + [NewAppearance(SeriesName(news[i], i))]);
        assert MergeFrom(target, s, a, news, i) == MergeFrom(target, s', a', news, i + 1);
        MergeStepNew(target, s0, a0, news, i, s, a);
        MergeFromState(target, s0, a0, news, i + 1, s', a');
      }
    }
  }

  /** The whole merge, from aligned positions and appearances: every old
      position with new samples has its history extended by them, the
      others are kept, every further position is a fresh history of the
      new samples; old appearances keep their name and visibility, new
      ones are visible and named after their first sample or their index,
      and all are recoloured when any position was created. */
  lemma MergeSpec(target: Target, s0: seq<FSB.Buffer<Sample>>, a0: seq<Appearance>, news: seq<seq<Sample>>)
    requires |s0| == |a0|
    ensures var (s, a) := MergeFrom(target, s0, a0, news, 0);
            && |s| == Max(|s0|, |news|) && |a| == |s|
            && (forall k :: 0 <= k < |s0| && k < |news| ==> s[k] == FSB.Extend(s0[k], news[k]))
            && (forall k :: |news| <= k < |s0| ==> s[k] == s0[k])
            && (forall k :: |s0| <= k < |news| ==> s[k] == FSB.Extend(FSB.New(SamplesBufSize(target)), news[k]))
            && (forall k :: 0 <= k < |a0| ==> a[k].name == a0[k].name && a[k].visible == a0[k].visible)
            && (forall k :: |a0| <= k < |a| ==> a[k].name == SeriesName(news[k], k) && a[k].visible)
            && (if |news| <= |s0| then a == a0 else Colored(a))
  {
    MergeFromState(target, s0, a0, news, 0, s0, a0);
    var (s, a) := MergeFrom(target, s0, a0, news, 0);
    assert forall k :: 0 <= k < |s| ==> s[k] == Merged(target, s0, news, |news|, k);
  }

  /** The merge keeps the invariant. */
  lemma MergeKeepsWf(target: Target, app: App, news: seq<seq<Sample>>)
    requires Wf(target, app)
    ensures var (s, a) := MergeFrom(target, app.samplesVec, app.appearances, news, 0);
            Wf(target, app.(samplesVec := s, appearances := a))
  {
    var s0 := app.samplesVec;
    MergeFromState(target, s0, app.appearances, news, 0, s0, app.appearances);
    var (s, a) := MergeFrom(target, s0, app.appearances, news, 0);
    forall k | 0 <= k < |s|
      ensures s[k].size == SamplesBufSize(target) && FSB.Bounded(s[k])
    {
      assert s[k] == Merged(target, s0, news, |news|, k);
    }
  }

  /** `poll_read` once the read has completed with `read`: a failed read
      changes nothing; otherwise the bytes are parsed (the time stamp
      starting at `elapsed`), the full lines go to the monitor, and when any
      sample was added the samples are merged and counted. A parse failure
      clears the parser. */
  function PollRead(target: Target, app: App, read: Result<seq<byte>, string>, elapsed: real): (r: App)
    ensures read.Err? ==> r == app
    ensures r.timeUnit == app.timeUnit && r.separator == app.separator
    ensures r.received >= app.received
  {
    match read
    case Err(_) => app
    case Ok(data) =>
      match ParseFromSerialData(app.parser, data, app.timeUnit, app.separator, elapsed)
      case Err(_) => app.(parser := LineReader.Clear(app.parser))
      case Ok((p, res)) => Absorb(target, app, p, res)
  }

  /** The successful parse branch of `poll_read`: the full lines, if any,
      extend the monitor; when samples were added they are merged and
      counted. */
  function Absorb(target: Target, app: App, p: LineReader.Parser, res: ParseResult): (r: App)
    ensures r.timeUnit == app.timeUnit && r.separator == app.separator && r.parser == p
    ensures r.received == app.received + res.newSamples
  {
    var monitor := if |res.fullLines| > 0 then FSB.Extend(app.monitor, res.fullLines) else app.monitor;
    var app1 := app.(parser := p, monitor := monitor);
    if res.newSamples > 0 then
      var (s, a) := MergeFrom(target, app1.samplesVec, app1.appearances, res.samplesVec, 0);
      app1.(samplesVec := s, appearances := a, received := app1.received + res.newSamples)
    else app1
  }

  /** A read that completed with bytes is parsed and absorbed. */
  lemma PollReadOk(target: Target, app: App, data: seq<byte>, elapsed: real)
    ensures var pr := ParseFromSerialData(app.parser, data, app.timeUnit, app.separator, elapsed);
            && pr.Ok?
            && PollRead(target, app, Ok(data), elapsed) == Absorb(target, app, pr.value.0, pr.value.1)
  {
    ParseNeverFails(app.parser, data, app.timeUnit, app.separator, elapsed);
  }

  /** The monitor after absorbing: the newest lines of its old contents
      followed by the lines read. */
  lemma AbsorbMonitor(target: Target, app: App, p: LineReader.Parser, res: ParseResult)
    requires app.monitor.size >= 1 && |app.monitor.items| <= app.monitor.size
    ensures var all := app.monitor.items + res.fullLines;
            Absorb(target, app, p, res).monitor.items == all[|all| - FSB.Min(app.monitor.size, |all|)..]
  {
    FSB.ExtendKeepsNewest(app.monitor, res.fullLines);
    if |res.fullLines| == 0 {
      assert app.monitor.items + res.fullLines == app.monitor.items;
    }
  }

  /** What a completed read does: the parser moves on as the line buffer
      does, the monitor keeps the newest lines of its old contents followed
      by the full lines read, the count grows by the samples parsed, and
      the histories are merged as `MergeSpec` states. */
  lemma PollReadSpec(target: Target, app: App, data: seq<byte>, elapsed: real)
    requires Wf(target, app)
    ensures var r := PollRead(target, app, Ok(data), elapsed);
            var (p, lines) := LineReader.Feed(app.parser, data);
            var res := ParseFromSerialData(app.parser, data, app.timeUnit, app.separator, elapsed).value.1;
            var all := app.monitor.items + lines;
            && r.parser == p
            && r.monitor.items == all[|all| - FSB.Min(MonitorLinesBufSize(target), |all|)..]
            && r.received == app.received + res.newSamples
            && (res.newSamples == 0 ==> r.samplesVec == app.samplesVec && r.appearances == app.appearances)
            && (res.newSamples > 0 ==>
                  (r.samplesVec, r.appearances) == MergeFrom(target, app.samplesVec, app.appearances, res.samplesVec, 0))
  {
    PollReadOk(target, app, data, elapsed);
    var pr := ParseFromSerialData(app.parser, data, app.timeUnit, app.separator, elapsed).value;
    AbsorbMonitor(target, app, pr.0, pr.1);
  }

  /** Every completed read, failed or not, keeps the invariant. */
  lemma PollReadKeepsWf(target: Target, app: App, read: Result<seq<byte>, string>, elapsed: real)
    requires Wf(target, app)
    ensures Wf(target, PollRead(target, app, read, elapsed))
  {
    if read.Ok? {
      PollReadOk(target, app, read.value, elapsed);
      var pr := ParseFromSerialData(app.parser, read.value, app.timeUnit, app.separator, elapsed).value;
      AbsorbKeepsWf(target, app, pr.0, pr.1);
    }
  }

  lemma AbsorbKeepsWf(target: Target, app: App, p: LineReader.Parser, res: ParseResult)
    requires Wf(target, app)
    ensures Wf(target, Absorb(target, app, p, res))
  {
    var monitor := if |res.fullLines| > 0 then FSB.Extend(app.monitor, res.fullLines) else app.monitor;
    var app1 := app.(parser := p, monitor := monitor);
    assert Wf(target, app1);
    MergeKeepsWf(target, app1, res.samplesVec);
  }
}
