/** The string operations the sample parser relies on: `char::is_whitespace`
    and `str::trim`, `str::split` on one character, the character filter
    applied to value text, `str::parse::<f64>` on filtered text, and the
    two-digit zero-padded index used for series labels. */
module Text {
  import opened Wrappers

  /** Unicode White_Space, the set `char::is_whitespace` tests. */
  predicate IsWhitespace(c: char)
  {
    var n := c as int;
    || 0x09 <= n <= 0x0D || n == 0x20 || n == 0x85 || n == 0xA0 || n == 0x1680
    || 0x2000 <= n <= 0x200A || n == 0x2028 || n == 0x2029 || n == 0x202F
    || n == 0x205F || n == 0x3000
  }

  /** The first index at or after `i` that does not hold whitespace. */
  function SkipStart(s: string, i: nat): (r: nat)
    requires i <= |s|
    ensures i <= r <= |s|
    ensures forall k :: i <= k < r ==> IsWhitespace(s[k])
    ensures r < |s| ==> !IsWhitespace(s[r])
    decreases |s| - i
  {
    if i < |s| && IsWhitespace(s[i]) then SkipStart(s, i + 1) else i
  }

  /** The end of `s[lo..j]` once its trailing whitespace is dropped. */
  function SkipEnd(s: string, lo: nat, j: nat): (r: nat)
    requires lo <= j <= |s|
    ensures lo <= r <= j
    ensures forall k :: r <= k < j ==> IsWhitespace(s[k])
    ensures r > lo ==> !IsWhitespace(s[r - 1])
    decreases j
  {
    if j > lo && IsWhitespace(s[j - 1]) then SkipEnd(s, lo, j - 1) else j
  }

  /** Where `trim` cuts: everything before the first bound and from the
      second on is whitespace, and a non-empty trimmed slice starts and ends
      with a non-whitespace character. */
  function TrimBounds(s: string): (b: (nat, nat))
    ensures b.0 <= b.1 <= |s|
    ensures forall k :: 0 <= k < b.0 ==> IsWhitespace(s[k])
    ensures forall k :: b.1 <= k < |s| ==> IsWhitespace(s[k])
    ensures b.0 < b.1 ==> !IsWhitespace(s[b.0]) && !IsWhitespace(s[b.1 - 1])
  {
    var lo := SkipStart(s, 0);
    (lo, SkipEnd(s, lo, |s|))
  }

  /** `str::trim`: the slice between the trim bounds. */
  function Trim(s: string): (r: string)
  {
    s[TrimBounds(s).0..TrimBounds(s).1]
  }

  /** A string that neither starts nor ends with whitespace trims to
      itself. */
  lemma TrimKeeps(s: string)
    requires |s| > 0 ==> !IsWhitespace(s[0]) && !IsWhitespace(s[|s| - 1])
    ensures Trim(s) == s
  {
    var b := TrimBounds(s);
    if |s| > 0 {
      assert b.0 == 0;
      assert b.1 == |s|;
      assert s[0..|s|] == s;
    }
  }

  /** A leading space is trimmed away. */
  lemma TrimLeadingSpace(s: string)
    requires |s| > 0 && !IsWhitespace(s[0]) && !IsWhitespace(s[|s| - 1])
    ensures Trim([' '] + s) == s
  {
    var t := [' '] + s;
    assert SkipStart(t, 1) == 1;
    assert SkipStart(t, 0) == 1;
    assert SkipEnd(t, 1, |t|) == |t|;
    assert t[1..|t|] == s;
  }

  /** Trimming is idempotent. */
  lemma TrimIdempotent(s: string)
    ensures Trim(Trim(s)) == Trim(s)
  {
    var t := Trim(s);
    if |t| > 0 {
      assert !IsWhitespace(t[0]) && !IsWhitespace(t[|t| - 1]);
    }
    TrimKeeps(t);
  }

  /** A string trims to empty exactly when it is all whitespace. */
  lemma TrimEmptyIff(s: string)
    ensures Trim(s) == [] <==> forall k :: 0 <= k < |s| ==> IsWhitespace(s[k])
  {
    var b := TrimBounds(s);
    if b.0 < b.1 {
      assert Trim(s)[0] == s[b.0];
    }
  }

  /** The index of the first occurrence of `c` in `s`. */
  function IndexOf(s: string, c: char): (r: Option<nat>)
    ensures r.Some? ==> r.value < |s| && s[r.value] == c && c !in s[..r.value]
    ensures r.None? ==> c !in s
    decreases |s|
  {
    if |s| == 0 then None
    else if s[0] == c then Some(0)
    else match IndexOf(s[1..], c)
         case None => None
         case Some(k) => Some(k + 1)
  }

  /** `s.split(sep)`: the pieces between occurrences of `sep`; always at
      least one piece, and an empty string yields one empty piece. */
  function Split(s: string, sep: char): (r: seq<string>)
    ensures |r| >= 1
    ensures forall k :: 0 <= k < |r| ==> sep !in r[k]
    decreases |s|
  {
    match IndexOf(s, sep)
    case None => [s]
    case Some(k) => [s[..k]] + Split(s[k + 1..], sep)
  }

  /** The inverse of `Split`: the pieces glued back with the separator. */
  function Join(parts: seq<string>, sep: char): string
    requires |parts| >= 1
    decreases |parts|
  {
    if |parts| == 1 then parts[0] else parts[0] + [sep] + Join(parts[1..], sep)
  }

  /** Splitting loses nothing: joining the pieces gives back the input. */
  lemma {:induction false} SplitJoin(s: string, sep: char)
    ensures Join(Split(s, sep), sep) == s
    decreases |s|
  {
    match IndexOf(s, sep)
    case None =>
    case Some(k) =>
      var rest := Split(s[k + 1..], sep);
      SplitJoin(s[k + 1..], sep);
      JoinCons(s[..k], rest, sep);
      assert s == s[..k] + [sep] + s[k + 1..];
  }

  lemma JoinCons(a: string, rest: seq<string>, sep: char)
    requires |rest| >= 1
    ensures Join([a] + rest, sep) == a + [sep] + Join(rest, sep)
  {
    assert ([a] + rest)[0] == a && ([a] + rest)[1..] == rest;
  }

  /** A join starts where its first piece starts and ends where its last
      piece ends. */
  lemma JoinEnds(parts: seq<string>, sep: char)
    requires |parts| >= 1 && |parts[0]| > 0 && |parts[|parts| - 1]| > 0
    ensures var j := Join(parts, sep);
            |j| > 0 && j[0] == parts[0][0] && j[|j| - 1] == parts[|parts| - 1][|parts[|parts| - 1]| - 1]
  {
    JoinLast(parts, sep);
  }

  lemma {:induction false} JoinLast(parts: seq<string>, sep: char)
    requires |parts| >= 1 && |parts[|parts| - 1]| > 0
    ensures var j := Join(parts, sep);
            |j| > 0 && j[|j| - 1] == parts[|parts| - 1][|parts[|parts| - 1]| - 1]
    decreases |parts|
  {
    if |parts| > 1 {
      JoinLast(parts[1..], sep);
    }
  }

  lemma {:induction false} IndexOfAppend(a: string, sep: char, b: string)
    requires sep !in a
    ensures IndexOf(a + [sep] + b, sep) == Some(|a|)
    decreases |a|
  {
    if |a| > 0 {
      assert (a + [sep] + b)[1..] == a[1..] + [sep] + b;
      IndexOfAppend(a[1..], sep, b);
    }
  }

  /** Splitting undoes joining pieces that do not contain the separator. */
  lemma {:induction false} JoinSplit(parts: seq<string>, sep: char)
    requires |parts| >= 1
    requires forall k :: 0 <= k < |parts| ==> sep !in parts[k]
    ensures Split(Join(parts, sep), sep) == parts
    decreases |parts|
  {
    if |parts| > 1 {
      var s := Join(parts, sep);
      var tail := Join(parts[1..], sep);
      assert s == parts[0] + [sep] + tail;
      IndexOfAppend(parts[0], sep, tail);
      assert s[..|parts[0]|] == parts[0];
      assert s[|parts[0]| + 1..] == tail;
      assert Split(s, sep) == [parts[0]] + Split(tail, sep);
      JoinSplit(parts[1..], sep);
      assert parts == [parts[0]] + parts[1..];
    }
  }

  predicate IsDigit(c: char) { '0' <= c <= '9' }

  /** The characters value text keeps: ASCII digits, '-' and '.'. */
  predicate IsNumericChar(c: char) { IsDigit(c) || c == '-' || c == '.' }

  predicate AllNumeric(s: string) { forall k :: 0 <= k < |s| ==> IsNumericChar(s[k]) }

  predicate AllDigits(s: string) { forall k :: 0 <= k < |s| ==> IsDigit(s[k]) }

  /** The filter on value text: keeps the numeric characters in order. */
  function KeepNumeric(s: string): (r: string)
    ensures |r| <= |s|
    ensures AllNumeric(r)
    ensures AllNumeric(s) ==> r == s
    ensures |s| == 1 ==> r == (if IsNumericChar(s[0]) then s else [])
    decreases |s|
  {
    if |s| == 0 then []
    else if IsNumericChar(s[0]) then [s[0]] + KeepNumeric(s[1..])
    else KeepNumeric(s[1..])
  }

  /** The filter works character by character: it distributes over
      concatenation, and a single character is kept exactly when it is
      numeric (`KeepNumeric`), so it drops exactly the non-numeric
      characters. */
  lemma {:induction false} KeepNumericAppend(a: string, b: string)
    ensures KeepNumeric(a + b) == KeepNumeric(a) + KeepNumeric(b)
    decreases |a|
  {
    if |a| == 0 {
      assert a + b == b;
    } else {
      assert (a + b)[0] == a[0] && (a + b)[1..] == a[1..] + b;
      KeepNumericAppend(a[1..], b);
    }
  }

  function DigitValue(c: char): nat
    requires IsDigit(c)
  {
    (c as int) - ('0' as int)
  }

  /** The number a run of decimal digits denotes (0 for the empty run). */
  function DigitsValue(s: string): nat
    requires AllDigits(s)
    decreases |s|
  {
    if |s| == 0 then 0 else DigitsValue(s[..|s| - 1]) * 10 + DigitValue(s[|s| - 1])
  }

  function Pow10(n: nat): (r: nat)
    ensures r >= 1
  {
    if n == 0 then 1 else 10 * Pow10(n - 1)
  }

  /** An unsigned decimal: `Digit+`, `Digit+ '.' Digit*` or
      `Digit* '.' Digit+`, read as its exact value. */
  function ParseUnsigned(s: string): (r: Option<real>)
    requires AllNumeric(s)
    ensures r.Some? ==> r.value >= 0.0
  {
    match IndexOf(s, '.')
    case None =>
      if |s| > 0 && AllDigits(s) then Some(DigitsValue(s) as real) else None
    case Some(k) =>
      var whole := s[..k];
      var frac := s[k + 1..];
      if |whole| + |frac| > 0 && AllDigits(whole) && AllDigits(frac) then
        Some(DigitsValue(whole) as real + DigitsValue(frac) as real / Pow10(|frac|) as real)
      else None
  }

  /** `str::parse::<f64>` on filtered value text: an optional '-' and an
      unsigned decimal. Rounding to the nearest `f64` is not modelled; the
      result is the exact decimal value. Empty text, a lone sign or point,
      a second sign or a second point all fail. */
  function ParseNum(s: string): (r: Option<real>)
    requires AllNumeric(s)
    ensures r.Some? ==> exists k :: 0 <= k < |s| && IsDigit(s[k])
    ensures |s| > 0 && s[0] == '-' && r.Some? ==> r.value <= 0.0
  {
    if |s| > 0 && s[0] == '-' then
      match ParseUnsigned(s[1..])
      case None => None
      case Some(v) => Some(-v)
    else ParseUnsigned(s)
  }

  /** One decimal place: `0.d` and `-0.d` read as tenths. */
  lemma TenthsParse(c: char)
    requires IsDigit(c)
    ensures ParseNum("0." + [c]) == Some(DigitValue(c) as real / 10.0)
    ensures ParseNum("-0." + [c]) == Some(-(DigitValue(c) as real / 10.0))
  {
    var u := "0." + [c];
    assert u[1..] == "." + [c];
    assert IndexOf(u, '.') == Some(1);
    assert u[..1] == "0" && u[2..] == [c];
    assert "0"[..0] == [] && [c][..0] == [];
    assert ("-0." + [c])[1..] == u;
  }

  function DigitChar(d: nat): (c: char)
    requires d < 10
    ensures IsDigit(c) && DigitValue(c) == d
  {
    ('0' as int + d) as char
  }

  /** The decimal digits of `n`, without leading zeros. */
  function NatToDigits(n: nat): (r: string)
    ensures |r| >= 1 && AllDigits(r)
    decreases n
  {
    if n < 10 then [DigitChar(n)] else NatToDigits(n / 10) + [DigitChar(n % 10)]
  }

  /** Reading the digits back gives the number. */
  lemma {:induction false} DigitsRoundTrip(n: nat)
    ensures DigitsValue(NatToDigits(n)) == n
    decreases n
  {
    if n >= 10 {
      DigitsRoundTrip(n / 10);
      var s := NatToDigits(n);
      assert s[..|s| - 1] == NatToDigits(n / 10);
    }
  }

  /** `format!("{i:02}")`: at least two digits, zero-padded. */
  function Pad2(n: nat): (r: string)
    ensures |r| >= 2 && AllDigits(r)
  {
    if n < 10 then ['0'] + NatToDigits(n) else NatToDigits(n)
  }

  lemma {:induction false} DigitsValueLeadingZero(s: string)
    requires AllDigits(s)
    ensures DigitsValue(['0'] + s) == DigitsValue(s)
    decreases |s|
  {
    if |s| > 0 {
      var t := ['0'] + s;
      assert t[..|t| - 1] == ['0'] + s[..|s| - 1];
      DigitsValueLeadingZero(s[..|s| - 1]);
    }
  }

  /** The parser reads back what the formatter writes: a natural number's
      digits, zero-padded or not, with or without a minus sign. */
  lemma FormatParseRoundTrip(n: nat)
    ensures ParseNum(NatToDigits(n)) == Some(n as real)
    ensures ParseNum(Pad2(n)) == Some(n as real)
    ensures ParseNum(['-'] + NatToDigits(n)) == Some(-(n as real))
  {
    DigitsRoundTrip(n);
    DigitsParse(NatToDigits(n), n);
    PadParse(n);
  }

  lemma PadParse(n: nat)
    ensures ParseNum(Pad2(n)) == Some(n as real)
  {
    var p := Pad2(n);
    DigitsRoundTrip(n);
    if n < 10 {
      DigitsValueLeadingZero(NatToDigits(n));
    }
    DigitsParse(p, n);
  }

  /** A run of digits worth `v`, with or without a leading '-', parses to
      `v` or `-v`. */
  lemma DigitsParse(d: string, v: nat)
    requires |d| > 0 && AllDigits(d) && DigitsValue(d) == v
    ensures ParseNum(d) == Some(v as real)
    ensures ParseNum(['-'] + d) == Some(-(v as real))
  {
    DigitsUnsigned(d);
    assert IsDigit(d[0]);
    var m := ['-'] + d;
    assert m[1..] == d;
  }

  lemma DigitsUnsigned(d: string)
    requires |d| > 0 && AllDigits(d)
    ensures AllNumeric(d) && ParseUnsigned(d) == Some(DigitsValue(d) as real)
  {
  }

  /** Text without any digit never parses; in particular the empty text,
      a lone '-' and a lone '.' do not. */
  lemma ParseNeedsDigit(s: string)
    requires AllNumeric(s)
    requires forall k :: 0 <= k < |s| ==> !IsDigit(s[k])
    ensures ParseNum(s) == None
  {
  }
}
