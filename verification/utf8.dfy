/** UTF-8 as Rust's `String` requires it (the well-formedness rules of
    RFC 3629, section 4): the byte sequences the line reader accepts as text,
    the characters they stand for, and the encoding back to bytes. */
module Utf8 {
  import opened Wrappers
  import opened Seqs

  type byte = b: int | 0 <= b < 256

  const NEWLINE: byte := 10

  predicate IsContinuation(b: byte) { 0x80 <= b <= 0xBF }

  /** The scalar values of two-, three- and four-byte encodings: six bits
      from each continuation byte below the bits of the lead byte. */
  function Value2(b0: int, b1: int): int { (b0 - 0xC0) * 64 + (b1 - 0x80) }
  function Value3(b0: int, b1: int, b2: int): int { ((b0 - 0xE0) * 64 + (b1 - 0x80)) * 64 + (b2 - 0x80) }
  function Value4(b0: int, b1: int, b2: int, b3: int): int
  {
    (((b0 - 0xF0) * 64 + (b1 - 0x80)) * 64 + (b2 - 0x80)) * 64 + (b3 - 0x80)
  }

  /** Decodes the first character of `s` and reports how many bytes it took,
      or None when `s` does not start with a well-formed encoding (a stray
      continuation byte, an overlong form, a surrogate, a value above
      U+10FFFF or a truncated sequence). */
  function DecodeFirst(s: seq<byte>): (r: Option<(char, nat)>)
    requires |s| > 0
    ensures r.Some? ==> 1 <= r.value.1 <= |s| && r.value.1 <= 4
  {
    var b0: int := s[0];
    if b0 < 0x80 then
      Some((b0 as char, 1))
    else if 0xC2 <= b0 <= 0xDF then
      if |s| >= 2 && IsContinuation(s[1]) then
        Some((Value2(b0, s[1]) as char, 2))
      else None
    else if 0xE0 <= b0 <= 0xEF then
      var lo := if b0 == 0xE0 then 0xA0 else 0x80;
      var hi := if b0 == 0xED then 0x9F else 0xBF;
      if |s| >= 3 && lo <= s[1] <= hi && IsContinuation(s[2]) then
        Some((Value3(b0, s[1], s[2]) as char, 3))
      else None
    else if 0xF0 <= b0 <= 0xF4 then
      var lo := if b0 == 0xF0 then 0x90 else 0x80;
      var hi := if b0 == 0xF4 then 0x8F else 0xBF;
      if |s| >= 4 && lo <= s[1] <= hi && IsContinuation(s[2]) && IsContinuation(s[3]) then
        Some((Value4(b0, s[1], s[2], s[3]) as char, 4))
      else None
    else
      None
  }

  /** The text a byte sequence stands for, or None when it is not valid
      UTF-8 (what `str::from_utf8` decides). */
  function Decode(s: seq<byte>): (r: Option<string>)
    ensures s == [] ==> r == Some([])
    decreases |s|
  {
    if |s| == 0 then Some([])
    else
      match DecodeFirst(s)
      case None => None
      case Some((c, n)) =>
        match Decode(s[n..])
        case None => None
        case Some(rest) => Some([c] + rest)
  }

  predicate Valid(s: seq<byte>) { Decode(s).Some? }

  /** The UTF-8 encoding of one character: one to four bytes. */
  function EncodeChar(c: char): (r: seq<byte>)
    ensures 1 <= |r| <= 4
    ensures |r| == 1 <==> (c as int) < 0x80
    ensures |r| > 1 ==> forall k :: 0 < k < |r| ==> IsContinuation(r[k])
  {
    var n := c as int;
    if n < 0x80 then [n as byte]
    else if n < 0x800 then [0xC0 + n / 64, 0x80 + n % 64]
    else if n < 0x10000 then [0xE0 + n / 64 / 64, 0x80 + n / 64 % 64, 0x80 + n % 64]
    else [0xF0 + n / 64 / 64 / 64, 0x80 + n / 64 / 64 % 64, 0x80 + n / 64 % 64, 0x80 + n % 64]
  }

  function Encode(s: string): (r: seq<byte>)
    ensures s == [] <==> r == []
    decreases |s|
  {
    if |s| == 0 then [] else EncodeChar(s[0]) + Encode(s[1..])
  }

  /** Encoding distributes over concatenation. */
  lemma {:induction false} EncodeAppend(a: string, b: string)
    ensures Encode(a + b) == Encode(a) + Encode(b)
    decreases |a|
  {
    if |a| > 0 {
      assert (a + b)[0] == a[0] && (a + b)[1..] == a[1..] + b;
      EncodeAppend(a[1..], b);
      assert Encode(a + b) == EncodeChar(a[0]) + Encode(a[1..] + b);
    } else {
      assert a + b == b;
    }
  }

  lemma DecodeFirstEncodeChar(c: char, rest: seq<byte>)
    ensures DecodeFirst(EncodeChar(c) + rest) == Some((c, |EncodeChar(c)|))
  {
    var n := c as int;
    if n < 0x80 {
    } else if n < 0x800 {
      DecodeFirstTwo(c, rest);
    } else if n < 0x10000 {
      DecodeFirstThree(c, rest);
    } else {
      DecodeFirstFour(c, rest);
    }
  }

  /** Splitting off the low six bits and putting them back. */
  lemma Split64(x: int)
    ensures x == x / 64 * 64 + x % 64 && 0 <= x % 64 < 64
  {
  }

  lemma Join64(q: int, r: int)
    requires 0 <= r < 64
    ensures (q * 64 + r) / 64 == q && (q * 64 + r) % 64 == r
  {
  }

  lemma DecodeFirstTwo(c: char, rest: seq<byte>)
    requires 0x80 <= c as int < 0x800
    ensures DecodeFirst(EncodeChar(c) + rest) == Some((c, 2))
  {
    var n := c as int;
    var s := EncodeChar(c) + rest;
    assert s[0] == 0xC0 + n / 64 && s[1] == 0x80 + n % 64;
    Split64(n);
  }

  lemma DecodeFirstThree(c: char, rest: seq<byte>)
    requires 0x800 <= c as int < 0x10000
    ensures DecodeFirst(EncodeChar(c) + rest) == Some((c, 3))
  {
    var n := c as int;
    var s := EncodeChar(c) + rest;
    assert s[0] == 0xE0 + n / 64 / 64 && s[1] == 0x80 + n / 64 % 64 && s[2] == 0x80 + n % 64;
    Split64(n);
    Split64(n / 64);
  }

  lemma DecodeFirstFour(c: char, rest: seq<byte>)
    requires 0x10000 <= c as int
    ensures DecodeFirst(EncodeChar(c) + rest) == Some((c, 4))
  {
    var n := c as int;
    var s := EncodeChar(c) + rest;
    assert s[0] == 0xF0 + n / 64 / 64 / 64 && s[1] == 0x80 + n / 64 / 64 % 64;
    assert s[2] == 0x80 + n / 64 % 64 && s[3] == 0x80 + n % 64;
    Split64(n);
    Split64(n / 64);
    Split64(n / 64 / 64);
  }

  /** Decoding undoes encoding. */
  lemma {:induction false} DecodeEncode(s: string)
    ensures Decode(Encode(s)) == Some(s)
    decreases |s|
  {
    if |s| > 0 {
      var e := EncodeChar(s[0]);
      var bytes := e + Encode(s[1..]);
      assert Encode(s) == bytes;
      DecodeFirstEncodeChar(s[0], Encode(s[1..]));
      assert bytes[|e|..] == Encode(s[1..]);
      DecodeEncode(s[1..]);
      assert Decode(bytes) == Some([s[0]] + s[1..]);
      assert [s[0]] + s[1..] == s;
    }
  }

  /** The encoding of a decoded character is the bytes it was decoded from. */
  lemma EncodeCharDecodeFirst(s: seq<byte>)
    requires |s| > 0 && DecodeFirst(s).Some?
    ensures EncodeChar(DecodeFirst(s).value.0) == s[..DecodeFirst(s).value.1]
  {
    var k := DecodeFirst(s).value.1;
    if k == 2 {
      EncodeTwo(s);
    } else if k == 3 {
      EncodeThree(s);
    } else if k == 4 {
      EncodeFour(s);
    }
  }

  lemma EncodeTwo(s: seq<byte>)
    requires |s| > 0 && DecodeFirst(s).Some? && DecodeFirst(s).value.1 == 2
    ensures EncodeChar(DecodeFirst(s).value.0) == s[..2]
  {
    var b0: int, b1: int := s[0], s[1];
    Join64(b0 - 0xC0, b1 - 0x80);
  }

  lemma EncodeThree(s: seq<byte>)
    requires |s| > 0 && DecodeFirst(s).Some? && DecodeFirst(s).value.1 == 3
    ensures EncodeChar(DecodeFirst(s).value.0) == s[..3]
  {
    var b0: int, b1: int, b2: int := s[0], s[1], s[2];
    Join64((b0 - 0xE0) * 64 + (b1 - 0x80), b2 - 0x80);
    Join64(b0 - 0xE0, b1 - 0x80);
  }

  lemma EncodeFour(s: seq<byte>)
    requires |s| > 0 && DecodeFirst(s).Some? && DecodeFirst(s).value.1 == 4
    ensures EncodeChar(DecodeFirst(s).value.0) == s[..4]
  {
    var b0: int, b1: int, b2: int, b3: int := s[0], s[1], s[2], s[3];
    var n2 := (b0 - 0xF0) * 64 + (b1 - 0x80);
    Join64(n2 * 64 + (b2 - 0x80), b3 - 0x80);
    Join64(n2, b2 - 0x80);
    Join64(b0 - 0xF0, b1 - 0x80);
  }

  /** Encoding undoes decoding: valid bytes are exactly the encoding of the
      text they decode to. */
  lemma {:induction false} EncodeDecode(s: seq<byte>)
    requires Valid(s)
    ensures Encode(Decode(s).value) == s
    decreases |s|
  {
    if |s| > 0 {
      var c := DecodeFirst(s).value.0;
      var k := DecodeFirst(s).value.1;
      var rest := s[k..];
      DecodeStep(s, c, k);
      EncodeDecode(rest);
      EncodeCharDecodeFirst(s);
      EncodeDecodeStep(s, c, k, Decode(rest).value);
    }
  }

  lemma EncodeDecodeStep(s: seq<byte>, c: char, k: nat, t: string)
    requires 0 < k <= |s| && EncodeChar(c) == s[..k] && Encode(t) == s[k..]
    ensures Encode([c] + t) == s
  {
    EncodeCons(c, t);
    SliceJoin(s, 0, k, |s|);
  }

  /** Decoding a valid, non-empty sequence: its first character, then the
      decoding of the bytes after it, which are valid too. */
  lemma DecodeStep(s: seq<byte>, c: char, k: nat)
    requires Valid(s) && |s| > 0 && DecodeFirst(s) == Some((c, k))
    ensures Valid(s[k..]) && Decode(s).value == [c] + Decode(s[k..]).value
  {
  }

  lemma EncodeCons(c: char, t: string)
    ensures Encode([c] + t) == EncodeChar(c) + Encode(t)
  {
    assert ([c] + t)[0] == c && ([c] + t)[1..] == t;
  }

  /** A valid byte sequence ends in the newline byte exactly when its text
      ends in the newline character (no multi-byte encoding ends in a byte
      below 0x80). */
  lemma NewlineByteIffChar(s: seq<byte>)
    requires Valid(s) && |s| > 0
    ensures var t := Decode(s).value;
            |t| > 0 && (s[|s| - 1] == NEWLINE <==> t[|t| - 1] == '\n')
  {
    var t := Decode(s).value;
    EncodeDecode(s);
    assert |t| > 0;
    var init := t[..|t| - 1];
    assert t == init + [t[|t| - 1]];
    EncodeAppend(init, [t[|t| - 1]]);
    assert Encode([t[|t| - 1]]) == EncodeChar(t[|t| - 1]);
  }
}
