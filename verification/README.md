# splot data path, in Dafny

splot plots values that a device writes to a serial port. The device sends text lines such as
`t=1200, temp=21.5, hum=40`. Each field is either a plain value or `name=value`, and
the fields are separated by a configurable character. A field named `time` or `t` carries the time
stamp of the values after it. This project models the part of splot that turns received bytes into
plotted samples:

- **`FixedSizeBuffer`** (`fixed_size_buffer.dfy`): the bounded FIFO that stores every sample history
  and the serial-monitor lines. It has `new`, `add`, `remove`, `clear`, `first`, `last`, `len`,
  `size`, `is_empty`, the borrowing iterator and `extend`.
- **`LineReader`** (`line_reader.dfy`): `read_full_lines` and the parser's byte buffer. Bytes are
  appended, the newline-terminated lines are read, and the buffer is drained by the bytes
  counted (see Findings).
  `Utf8` (`utf8.dfy`) supplies the UTF-8 decoding that `read_line` performs, and `Seqs`
  (`seqs.dfy`) the few sequence facts that the buffer, the codec and the reader share.
- **`SampleParser`** (`sample_parser.dfy`): the rest of `Parser::parse_from_serial_data`. Each full
  line is trimmed and split into fields. Each field is split on `=` and its value text is filtered
  and parsed. Each sample is placed in the list of histories, and time fields are handled. `Text`
  (`text.dfy`) supplies `trim`, `split`, the numeric filter, number parsing and the `{:02}`
  formatting.
- **`TimeUnits`** (`time_unit.dfy`): `TimeUnit` and its conversions to and from seconds.
- **`App`** (`app.dfy`): the data-path state of `SplotApp`. It covers the defaults,
  `clear_samples`, the parser-clearing part of `reset_connection`, `SamplesAppearance::new`,
  `unique_color_in_list` (as a hue), `recolor_samples_appearances`, and `poll_read` once its read
  has completed. `poll_read` parses the data, extends the monitor, merges new samples into the
  histories, creates and names new series, recolours them and counts the samples.

Everything is a pure function over immutable values. A mutation `x.op()` becomes a function that
returns the new value. When the operation also returns something, the function returns a pair.
The bounded integers of the source are unbounded here: no count can grow large enough to wrap in a
model of one call. Time is a real number. The build target (native or `wasm32`) is a parameter
because it chooses the buffer sizes.

Where the code and its usage text (src/app/ui.rs:45-46, 64-68) disagree, the model follows the code:

- A time field sets the time stamp for every later sample **of the same call**, on later lines
  too, and not only for the rest of its own line. The stamp is a single variable that is set once
  per call and never reset per line (`SampleParser.TimeStampsRestOfCall`,
  `SampleParser.TimeCarriesAcrossLines`).
- A sample whose field position does not exist yet is appended as a **new last** entry. It does
  not go to the slot of its field index. So for `time=100, square=0.2, sin=-0.4` the two values
  land at positions 0 and 1, not at the field indexes 1 and 2 that "Each value is inserted by its
  index" (ui.rs:46) suggests (`SampleParser.ExampleLine`).
- A time field uses up a field index without opening a position. Together with the new-last rule,
  this mixes series across lines, even when every line has the same fields, as
  the usage text asks. Parsing `t=t1, a=a1, b=b1` and then `t=t2, a=a2, b=b2` in one call from an
  empty start gives the positions `[a1]`, `[b1, a2]` and `[b2]`. So position 1 holds a value of
  `b` followed by a value of `a` (`SampleParser.SeriesMixAcrossLines`).

## Model

| member | source | states |
|---|---|---|
| `FixedSizeBuffer.New` | src/fixedsizebuffer.rs:11-16 | a new buffer is empty and has the requested size |
| `FixedSizeBuffer.Add` | src/fixedsizebuffer.rs:18-28 | the oldest item is popped exactly when the length has reached the size (and the buffer is not empty), and it is returned; the popped item followed by the new contents is the old contents followed by the added item; the size is unchanged and the bound is kept |
| `FixedSizeBuffer.Remove` | src/fixedsizebuffer.rs:30-32 | returns None exactly when the buffer is empty, and then leaves it unchanged; otherwise the returned item followed by the new contents is the old contents |
| `FixedSizeBuffer.Clear` | src/fixedsizebuffer.rs:34-36 | the contents are emptied and the size is kept |
| `FixedSizeBuffer.First` | src/fixedsizebuffer.rs:38-40 | None exactly when empty, otherwise the oldest item |
| `FixedSizeBuffer.Last` | src/fixedsizebuffer.rs:42-44 | None exactly when empty (the saturating index 0 is then out of range), otherwise the newest item |
| `FixedSizeBuffer.AccessorsAgree` | src/fixedsizebuffer.rs:38-56 | `is_empty`, `len() == 0`, `first()` being None and `last()` being None all coincide; with one item, first and last are the same |
| `FixedSizeBuffer.Extend` | src/fixedsizebuffer.rs:96-102 | extending keeps the size and the bound of at most `size` items (one when the size is 0) |
| `FixedSizeBuffer.ExtendConserves` | src/fixedsizebuffer.rs:96-102 | nothing is lost or reordered: the evicted items followed by the final contents are the old contents followed by the new items |
| `FixedSizeBuffer.ExtendKeepsNewest` | src/fixedsizebuffer.rs:96-102 | for a buffer within its bound, extending keeps exactly the newest `min(size, old + new)` items of the old contents followed by the new ones |
| `FixedSizeBuffer.ExtendFromEmpty` | src/fixedsizebuffer.rs:11-28 | a new buffer extended by `s` holds the last `min(size, len(s))` items of `s` in arrival order |
| `FixedSizeBuffer.SizeZeroHoldsLatest` | src/fixedsizebuffer.rs:18-28 | with size 0, adding leaves just the new item and returns the previous one, if any |
| `FixedSizeBuffer.SizeZeroExtend` | src/fixedsizebuffer.rs:96-102 | with size 0, extending by a non-empty sequence leaves only its last item |
| `FixedSizeBuffer.IterOf` | src/fixedsizebuffer.rs:83-94 | the iterator starts at position 0 of the buffer's current length |
| `FixedSizeBuffer.Next` | src/fixedsizebuffer.rs:70-81 | yields the item at the position and advances, or yields None exactly at the end and does not move |
| `FixedSizeBuffer.Collect` | src/fixedsizebuffer.rs:70-81 | calling `next` until None yields exactly the items from the current position on |
| `FixedSizeBuffer.IterYieldsContents` | src/fixedsizebuffer.rs:58-94 | `iter()` yields the contents front to back, `len()` items in all, and then None |
| `TimeUnits.ToSecs` | src/app/mod.rs:243-249 | the result, multiplied by the unit's count per second, gives back the value |
| `TimeUnits.FromSecs` | src/app/mod.rs:235-241 | the result is the seconds times the unit's count per second |
| `TimeUnits.ConvertRoundTrip` | src/app/mod.rs:235-249 | `convert_from_secs` and `convert_to_secs` undo each other, in both orders |
| `TimeUnits.ConvertMonotone` | src/app/mod.rs:235-249 | both conversions keep order and map 0 to 0 |
| `TimeUnits.DefaultIsIdentity` | src/app/mod.rs:217-221 | the default unit is seconds, so both conversions change nothing |
| `Utf8.DecodeEncode` | src/app/mod.rs:59-61 | decoding the UTF-8 encoding of any text gives back the text |
| `Utf8.EncodeDecode` | src/app/mod.rs:59-61 | valid UTF-8 bytes are exactly the encoding of what they decode to |
| `Utf8.NewlineByteIffChar` | src/app/mod.rs:67-70 | valid bytes end in the newline byte exactly when their text ends in `'\n'` |
| `Text.TrimEmptyIff` | src/app/mod.rs:111-116 | a line trims to empty exactly when every character is whitespace |
| `Text.TrimIdempotent` | src/app/mod.rs:111 | trimming twice is trimming once |
| `Text.SplitJoin` | src/app/mod.rs:118 | the pieces of a split, joined with the separator, give back the input |
| `Text.JoinSplit` | src/app/mod.rs:118 | splitting the join of pieces without the separator gives back the pieces |
| `Text.KeepNumeric` | src/app/mod.rs:137-139 | the filter keeps only digits, `-` and `.`, and leaves text made of those unchanged; a single character is kept exactly when it is one of those and dropped otherwise |
| `Text.KeepNumericAppend` | src/app/mod.rs:137-139 | the filter works character by character: it distributes over concatenation, so with the single-character case it drops exactly the other characters |
| `Text.FormatParseRoundTrip` | src/app/mod.rs:140-141 | parsing the decimal digits of `n`, of `-n`, or of `n` zero-padded to two digits gives back the number |
| `Text.ParseNeedsDigit` | src/app/mod.rs:136-144 | value text without a digit (empty, `-`, `.`) does not parse, so the field is skipped |
| `LineReader.NextNewlineSpec` | src/app/mod.rs:59 | a `read_line` call stops at the first newline byte and only there |
| `LineReader.RunsTile` | src/app/mod.rs:58-70 | the newline-terminated runs, joined, are the input up to just past its last newline, and no newline follows them |
| `LineReader.ReadFullLinesLoop` | src/app/mod.rs:52-77 | the cursor loop (skip invalid UTF-8, stop at end of input or at an unterminated line, otherwise take the line and count its bytes) computes the run-by-run definition |
| `LineReader.ReadShape` | src/app/mod.rs:52-77 | every line read ends in a newline, the byte count is the UTF-8 length of the lines, and it never reaches past the last newline |
| `LineReader.ReadAllValid` | src/app/mod.rs:52-77 | when every line is valid UTF-8, the lines' bytes are exactly the input up to its last newline, and the count reaches that point |
| `LineReader.ReadAppend` | src/app/mod.rs:52-77 | reading `u + v` gives the lines of `u` followed by the lines read from where the runs of `u` end |
| `LineReader.Clear` | src/app/mod.rs:85-87 | clearing empties the buffer |
| `LineReader.Feed` | src/app/mod.rs:96-107 | the lines are those read from the old buffer followed by the chunk, and the buffer keeps what follows the counted bytes; when all lines are valid, lines plus buffer are exactly old buffer plus chunk, and the buffer holds no newline |
| `LineReader.FeedSplit` | src/app/mod.rs:96-107 | when the lines are valid UTF-8, feeding `a` and then `b` delivers the same lines and leaves the same buffer as feeding `a + b` at once |
| `LineReader.InvalidRunRedelivers` | src/app/mod.rs:52-107 | on `[0xFF, 10, 97, 10]` the source's drain delivers `"a\n"`, keeps its bytes, and delivers it again on the next call |
| `LineReader.FeedCorrected` | src/app/mod.rs:104-107 | with the drain reaching the last newline, the lines are unchanged, the buffer is a suffix of the input, and it holds no newline |
| `LineReader.FeedCorrectedAgrees` | src/app/mod.rs:104-107 | the corrected drain is the source's whenever every line is valid UTF-8 |
| `LineReader.FeedCorrectedSplit` | src/app/mod.rs:96-107 | with the corrected drain, feeding in two pieces equals feeding at once, whatever the bytes |
| `LineReader.CorrectedDeliversOnce` | src/app/mod.rs:104-107 | on the same input the corrected drain delivers `"a\n"` once and empties the buffer |
| `SampleParser.ParseField` | src/app/mod.rs:121-144 | a field has a name exactly when it contains `=`; it is a time field exactly when that name is `time` or `t`; the name is trimmed |
| `SampleParser.ParseFieldPlain` | src/app/mod.rs:121-144 | a field without `=` is unnamed, not a time field, and valued by its trimmed text |
| `SampleParser.ParseFieldNamed` | src/app/mod.rs:121-144 | a field whose first two `=`-pieces are `name` and `text` is named by the trimmed `name`, is a time field exactly when that is `time` or `t`, and is valued by the trimmed `text` |
| `SampleParser.NamedFieldParses` | src/app/mod.rs:121-144 | `name=digits` parses to that name, to whether it names the time, and to the number |
| `SampleParser.ExtraPartsIgnored` | src/app/mod.rs:121-136 | `name=value=rest` parses as `name=value`: pieces after the second are ignored |
| `SampleParser.PlacePosition` | src/app/mod.rs:153-165 | a sample lands at its field index when that position exists and otherwise at a new last position; no other position changes |
| `SampleParser.UnparsedFieldSkipped` | src/app/mod.rs:136-144 | a field whose value does not parse changes nothing, even when it is a time field |
| `SampleParser.BlankLineSkipped` | src/app/mod.rs:111-116 | an all-whitespace line changes nothing |
| `SampleParser.TimeFieldStamps` | src/app/mod.rs:146-165 | `t=v` sets the time stamp to `v` in seconds and adds nothing; the next value field's sample carries that stamp |
| `SampleParser.TimeFieldStampsRest` | src/app/mod.rs:146-165 | a parsed time field anywhere in a line, with no time field after it, sets the stamp to its value in seconds, and every sample the rest of the line adds carries that stamp while earlier samples are kept |
| `SampleParser.StepLinesStamp` | src/app/mod.rs:101-165 | lines with no time field keep the stamp, keep earlier samples, and every sample they add carries the stamp |
| `SampleParser.TimeStampsRestOfCall` | src/app/mod.rs:101-165 | the stamp set by a time field holds for the rest of its line and for every later line of the same call, until another time field |
| `SampleParser.StepLinesKeepTime` | src/app/mod.rs:146-165 | lines with no field named `time` or `t` leave the time stamp as it is, and every sample they add carries it |
| `SampleParser.TimeCarriesAcrossLines` | src/app/mod.rs:101-149 | after a line `t=v`, every value of the next line is stamped with `v` in seconds, one sample per value |
| `SampleParser.StepLinesAdvance` | src/app/mod.rs:110-167 | parsing only appends: every earlier history is a prefix of its new one, no history becomes empty, and the count of samples grows by exactly the samples appended |
| `SampleParser.StepLinesAppend` | src/app/mod.rs:110-167 | parsing lines `a + b` is parsing `a` and then `b` from where `a` left off |
| `SampleParser.RowParses` | src/app/mod.rs:110-165 | a line of integers joined by a non-numeric separator yields one unnamed sample per value, value `j` appended to position `j` or starting it, all stamped with the current time |
| `SampleParser.ExampleLine` | src/app/mod.rs:110-165 | `time=100, square=0.2, sin=-0.4` in milliseconds gives two samples stamped 0.1 s, named `square` and `sin`, at positions 0 and 1 |
| `SampleParser.SeriesMixAcrossLines` | src/app/mod.rs:110-165 | two lines `t=t1, a=a1, b=b1` and `t=t2, a=a2, b=b2` parsed in one call from an empty start give the positions `[a1]`, `[b1, a2]` and `[b2]`, with each sample stamped by its own line's time: the time field takes field index 0 without taking a position, so the second line's `a` joins the first line's `b` |
| `SampleParser.ParseFromSerialData` | src/app/mod.rs:89-174 | the line buffer keeps exactly the bytes after the counted ones, `(old buffer + chunk)[bytes_read..]`, and keeps no newline when every line was valid UTF-8; the full lines are those read; the count of new samples is the number of samples in the result, and no position in it is empty |
| `SampleParser.ParseFromSerialDataCorrected` | src/app/mod.rs:89-174 | with the drain of the finding below, the buffer never keeps a newline, the full lines are the same, and the result is the source's whenever every line is valid UTF-8 |
| `SampleParser.ParseNeverFails` | src/app/mod.rs:104 | parsing always succeeds, because `read_full_lines` never fails |
| `App.SamplesBufSize` | src/app/mod.rs:23-26 | the history size per position for each target is at least one |
| `App.MonitorLinesBufSize` | src/app/mod.rs:27-30 | the monitor size for each target is at least one |
| `App.UniqueColor` | src/app/mod.rs:194-198 | entry `i` of `len` gets a hue in [0, 1) |
| `App.UniqueColorOrdered` | src/app/mod.rs:194-198 | hues increase with the entry index, so distinct entries get distinct colours |
| `App.NewAppearance` | src/app/mod.rs:184-192 | a new appearance has the given name, is visible and is blue |
| `App.Recolor` | src/app/mod.rs:200-206 | every entry gets the colour of its place; names, visibility and length are kept |
| `App.RecolorDistinct` | src/app/mod.rs:200-206 | after recolouring no two entries share a colour |
| `App.RecolorFixes` | src/app/mod.rs:200-206 | recolouring changes nothing in an already coloured list, so it is idempotent |
| `App.SeriesLabelIndex` | src/app/mod.rs:601-603 | the fallback label is `Samples ` followed by at least two digits that read back as the position |
| `App.SeriesName` | src/app/mod.rs:592-603 | a new series is named after its first sample's name when there is one, else by the fallback label |
| `App.Default` | src/app/mod.rs:358-404 | the initial state is well formed: seconds, `,`, an empty parser, no samples or appearances, a zero count, an empty monitor |
| `App.ClearSamples` | src/app/mod.rs:430-435 | the count, the histories, the appearances and the monitor contents are cleared; the settings, the parser and the monitor size are kept |
| `App.ResetConnection` | src/app/mod.rs:437-439 | a reset also empties the parser's buffer |
| `App.ClearSpec` | src/app/mod.rs:430-439 | clearing keeps the invariant and is idempotent; a reset of a well-formed state is the initial state with the current settings |
| `App.MergeSpec` | src/app/mod.rs:584-607 | existing positions with new samples are extended by them, others kept; each further position is a fresh history of its samples; old appearances keep name and visibility, new ones are visible and named; all are recoloured when a position was created |
| `App.MergeKeepsWf` | src/app/mod.rs:584-607 | the merge keeps one appearance per history, each history sized for the target and within its bound, and the colours by place |
| `App.PollRead` | src/app/mod.rs:565-619 | a failed read changes nothing; the settings are kept and the received count never decreases |
| `App.Absorb` | src/app/mod.rs:579-610 | a successful parse installs the new parser and grows the count by the samples parsed |
| `App.PollReadOk` | src/app/mod.rs:572-579 | a read that brought bytes is always parsed successfully and absorbed |
| `App.AbsorbMonitor` | src/app/mod.rs:580-582 | the monitor then holds the newest lines of its old contents followed by the lines read |
| `App.PollReadSpec` | src/app/mod.rs:572-610 | after a read the parser is the line buffer fed with the bytes and drained by the bytes counted, the monitor holds the newest lines, the count grows by the new samples, and the histories are unchanged when none was added and merged otherwise |
| `App.PollReadKeepsWf` | src/app/mod.rs:565-619 | every completed read, failed or not, keeps the state well formed |

## Left out

- Floating point. Values, time stamps and hues are exact reals. The rounding of `f64`/`f32`
  arithmetic and of decimal-to-binary conversion is not modelled.
- `Text.ParseNum` accepts the forms that `str::parse::<f64>` accepts on text made only of digits,
  `-` and `.`: an optional sign, digits with at most one point, and at least one digit. It reads
  them as exact decimals. Rust's parser also accepts exponents, `inf` and `nan`, but the digit
  filter has already removed those letters.
- Colours. `unique_color_in_list` is modelled by its hue and its fixed saturation, value and alpha.
  The conversion from HSVA to `Rgba` is not modelled.
- `App.UniqueColor` requires `i < len`. The source calls it only from the recolouring loop, where
  this holds. For other inputs the source would still compute a hue, which the model does not.
- Integer widths. `u64` and `usize` counters are unbounded naturals. Wrap-around is out of reach
  for any realistic sample count.
- I/O and concurrency. The serial port, the `read` promise, `Instant::now()` and `start_time` are
  not modelled. The completed read is a parameter of `App.PollRead`, and so is the number of
  seconds since the connection started (`elapsed`). When no read has completed, `poll_read`
  returns early; that case is not modelled. Re-arming the next read is not modelled either.
- `App.PollRead`: a parse error clears the parser. That branch is written out, but it cannot occur,
  because `read_full_lines` always returns `Ok` (`SampleParser.ParseNeverFails`). Logging is
  omitted.
- The user interface, persistence, `SplotApp` fields outside the data path, `pause`, the port
  settings, the `Display` implementations and the serial-connection module are not part of this
  model. The same holds for the remaining steps of `reset_connection`: clearing the port selection,
  the port list and the XY-plot selections.
- `READ_BUF_SIZE` only bounds the size of a read in the serial-connection module, so it does not
  appear here.
- Lifetimes and borrowing. The iterator holds the buffer by value. `FixedSizeBuffer.ValidIter`
  states that the buffer's length does not change while it is borrowed.

## Findings

| source | as written | input that shows it | evidently intended | confidence | as-written member | corrected member |
|---|---|---|---|---|---|---|
| src/app/mod.rs:104-107 | `read_full_lines` skips a line that is not valid UTF-8 without counting its bytes, and the buffer is then drained by the bytes counted, which starts from the front | buffer `[0xFF, 10, 97, 10]`: the line `"a\n"` is delivered and 2 bytes are drained, leaving `[97, 10]`, so the next call delivers `"a\n"` again | drain up to the end of the last complete line, so an invalid line is dropped and every valid line is delivered once | not executed | `LineReader.InvalidRunRedelivers` (on `LineReader.Feed`) | `LineReader.FeedCorrected`, `LineReader.FeedCorrectedSplit`, `LineReader.CorrectedDeliversOnce`, `SampleParser.ParseFromSerialDataCorrected` |

`SampleParser.ParseFromSerialData` and, through it, `App.PollRead` model the program as written, so
they keep the source's drain. `SampleParser.ParseFromSerialDataCorrected` is the same parse with
the corrected drain. The two agree whenever every line is valid UTF-8
(`LineReader.FeedCorrectedAgrees`), so they differ only on input the source mishandles.
