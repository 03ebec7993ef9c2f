/**
 * Percent-encoding as `urllib.parse` does it: `quote(s)` with the default
 * safe character `/` (UTF-8 bytes, unsafe ones written `%XX` in upper-case
 * hex) and `unquote(s)` (runs of ASCII text percent-decoded to bytes, then
 * decoded as UTF-8 with U+FFFD for every maximal ill-formed subpart).
 */
module PercentEncoding {
  import opened Text

  type Byte = x: int | 0 <= x < 256

  // ---------------------------------------------------------------- UTF-8

  predicate IsScalar(n: int) {
    0 <= n < 0xD800 || 0xE000 <= n < 0x11_0000
  }

  /** The UTF-8 encoding of one character. */
  function Utf8Char(c: char): (bs: seq<Byte>)
    ensures 1 <= |bs| <= 4
    ensures (|bs| == 1) == (c as int < 0x80)
    ensures bs[0] < 0x80 <==> c as int < 0x80
    ensures forall k :: 1 <= k < |bs| ==> 0x80 <= bs[k] < 0xC0
  {
    var n := c as int;
    if n < 0x80 then [n]
    else if n < 0x800 then [0xC0 + n / 64, 0x80 + n % 64]
    else if n < 0x1_0000 then [0xE0 + n / 4096, 0x80 + (n / 64) % 64, 0x80 + n % 64]
    else [0xF0 + n / 262144, 0x80 + (n / 4096) % 64, 0x80 + (n / 64) % 64, 0x80 + n % 64]
  }

  /** `s.encode('utf-8')`. */
  function Utf8Encode(s: string): (bs: seq<Byte>)
    ensures |bs| >= |s|
  {
    if |s| == 0 then [] else Utf8Char(s[0]) + Utf8Encode(s[1..])
  }

  predicate IsContinuation(b: Byte) { 0x80 <= b < 0xC0 }

  /** Length of the well-formed sequence a lead byte announces; 0 for a byte no sequence starts with. */
  function SequenceLength(b: Byte): nat {
    if b < 0x80 then 1
    else if 0xC2 <= b < 0xE0 then 2
    else if 0xE0 <= b < 0xF0 then 3
    else if 0xF0 <= b < 0xF5 then 4
    else 0
  }

  /** The second byte allowed after a lead byte (excludes overlong forms, surrogates and values past U+10FFFF). */
  predicate SecondOk(lead: Byte, b: Byte) {
    if lead == 0xE0 then 0xA0 <= b < 0xC0
    else if lead == 0xED then 0x80 <= b < 0xA0
    else if lead == 0xF0 then 0x90 <= b < 0xC0
    else if lead == 0xF4 then 0x80 <= b < 0x90
    else IsContinuation(b)
  }

  /** How many bytes from the start of `bs` form a prefix of a well-formed sequence (at least 1). */
  function WellFormedPrefix(bs: seq<Byte>): (k: nat)
    requires |bs| > 0
    ensures 1 <= k <= |bs| && k <= 4
  {
    var n := SequenceLength(bs[0]);
    if n <= 1 || |bs| < 2 || !SecondOk(bs[0], bs[1]) then 1
    else if n == 2 || |bs| < 3 || !IsContinuation(bs[2]) then 2
    else if n == 3 || |bs| < 4 || !IsContinuation(bs[3]) then 3
    else 4
  }

  /** The code point of a complete well-formed sequence. */
  function SequenceValue(bs: seq<Byte>): (n: int)
    requires |bs| > 0 && WellFormedPrefix(bs) == SequenceLength(bs[0]) >= 1
    ensures IsScalar(n)
  {
    var b0, b1, b2, b3 := bs[0] as int, At(bs, 1), At(bs, 2), At(bs, 3);
    if b0 < 0x80 then b0
    else if b0 < 0xE0 then (b0 - 0xC0) * 64 + (b1 - 0x80)
    else if b0 < 0xF0 then (b0 - 0xE0) * 4096 + (b1 - 0x80) * 64 + (b2 - 0x80)
    else (b0 - 0xF0) * 262144 + (b1 - 0x80) * 4096 + (b2 - 0x80) * 64 + (b3 - 0x80)
  }

  /** Byte `i` of `bs` as an integer, 0 past the end. */
  function At(bs: seq<Byte>, i: nat): int {
    if i < |bs| then bs[i] as int else 0
  }

  const ReplacementChar: char := '�'

  /** `bs.decode('utf-8', 'replace')`. */
  function Utf8Decode(bs: seq<Byte>): string
    decreases |bs|
  {
    if |bs| == 0 then ""
    else
      var k := WellFormedPrefix(bs);
      var c := if k == SequenceLength(bs[0]) then SequenceValue(bs) as char else ReplacementChar;
      [c] + Utf8Decode(bs[k..])
  }

  /** Decoding the encoding of one character reads exactly that character back. */
  lemma DecodeChar(c: char)
    ensures var bs := Utf8Char(c);
      WellFormedPrefix(bs) == |bs| == SequenceLength(bs[0]) && SequenceValue(bs) == c as int
  {
    var n := c as int;
    if n < 0x80 {
    } else if n < 0x800 {
      DecodeTwo(n);
    } else if n < 0x1_0000 {
      DecodeThree(n);
    } else {
      DecodeFour(n);
    }
  }

  lemma DecodeTwo(n: int)
    requires 0x80 <= n < 0x800
    ensures var b0, b1 := 0xC0 + n / 64, 0x80 + n % 64;
      0xC2 <= b0 < 0xE0 && IsContinuation(b1) && (b0 - 0xC0) * 64 + (b1 - 0x80) == n
  {
  }

  lemma DecodeThree(n: int)
    requires 0x800 <= n < 0x1_0000 && IsScalar(n)
    ensures var b0, b1, b2 := 0xE0 + n / 4096, 0x80 + (n / 64) % 64, 0x80 + n % 64;
      0xE0 <= b0 < 0xF0 && SecondOk(b0, b1) && IsContinuation(b2)
      && (b0 - 0xE0) * 4096 + (b1 - 0x80) * 64 + (b2 - 0x80) == n
  {
    var q := n / 64;
    assert n == q * 64 + n % 64;
    assert q == (q / 64) * 64 + q % 64;
    assert n / 4096 == q / 64;
  }

  lemma DecodeFour(n: int)
    requires 0x1_0000 <= n < 0x11_0000
    ensures var b0, b1, b2, b3 := 0xF0 + n / 262144, 0x80 + (n / 4096) % 64, 0x80 + (n / 64) % 64, 0x80 + n % 64;
      0xF0 <= b0 < 0xF5 && SecondOk(b0, b1) && IsContinuation(b2) && IsContinuation(b3)
      && (b0 - 0xF0) * 262144 + (b1 - 0x80) * 4096 + (b2 - 0x80) * 64 + (b3 - 0x80) == n
  {
    var q := n / 64;
    var r := q / 64;
    assert n == q * 64 + n % 64;
    assert q == r * 64 + q % 64;
    assert r == (r / 64) * 64 + r % 64;
    assert n / 4096 == r;
    assert n / 262144 == r / 64;
  }

  /** Decoding what one character encodes to, followed by anything, reads that character first. */
  lemma DecodeCons(c: char, rest: seq<Byte>)
    ensures Utf8Decode(Utf8Char(c) + rest) == [c] + Utf8Decode(rest)
  {
    var bs := Utf8Char(c) + rest;
    DecodeChar(c);
    var e := Utf8Char(c);
    assert bs[..|e|] == e;
    assert WellFormedPrefix(bs) == WellFormedPrefix(e);
    assert SequenceValue(bs) == SequenceValue(e);
    assert bs[|e|..] == rest;
  }

  /** UTF-8 decoding inverts UTF-8 encoding. */
  lemma {:induction false} DecodeOfEncode(s: string)
    ensures Utf8Decode(Utf8Encode(s)) == s
    decreases |s|
  {
    if |s| > 0 {
      DecodeCons(s[0], Utf8Encode(s[1..]));
      DecodeOfEncode(s[1..]);
    }
  }

  // ---------------------------------------------------------------- quote

  predicate IsAsciiLetter(c: char) { 'A' <= c <= 'Z' || 'a' <= c <= 'z' }

  /** `_ALWAYS_SAFE` plus the default `safe='/'` of `quote`. */
  predicate QuoteSafe(c: char) {
    IsAsciiLetter(c) || IsDigit(c) || c == '_' || c == '.' || c == '-' || c == '~' || c == '/'
  }

  predicate QuoteSafeByte(b: Byte) { b < 0x80 && QuoteSafe(b as char) }

  function HexDigit(d: int): (c: char)
    requires 0 <= d < 16
    ensures QuoteSafe(c)
  {
    "0123456789ABCDEF"[d]
  }

  /** `quote_from_bytes(bs, safe='/')`: safe bytes stay, every other byte becomes `%XX`. */
  function QuoteBytes(bs: seq<Byte>): (r: string)
    ensures forall i :: 0 <= i < |r| ==> QuoteSafe(r[i]) || r[i] == '%'
    ensures |r| >= |bs|
  {
    if |bs| == 0 then ""
    else
      var head := if QuoteSafeByte(bs[0]) then [bs[0] as char] else ['%', HexDigit(bs[0] / 16), HexDigit(bs[0] % 16)];
      head + QuoteBytes(bs[1..])
  }

  /** `quote(s)`: the UTF-8 bytes of `s`, percent-encoded except for letters, digits and `_.-~/`. */
  function Quote(s: string): (r: string)
    ensures forall i :: 0 <= i < |r| ==> QuoteSafe(r[i]) || r[i] == '%'
  {
    QuoteBytes(Utf8Encode(s))
  }

  // ---------------------------------------------------------------- unquote

  predicate IsHexChar(c: char) { IsDigit(c) || 'A' <= c <= 'F' || 'a' <= c <= 'f' }

  function HexValue(c: char): (d: int)
    requires IsHexChar(c)
    ensures 0 <= d < 16
  {
    if IsDigit(c) then c as int - '0' as int
    else if 'A' <= c <= 'F' then c as int - 'A' as int + 10
    else c as int - 'a' as int + 10
  }

  predicate IsAscii(c: char) { c as int < 0x80 }

  function AsciiCode(c: char): Byte
    requires IsAscii(c)
  {
    c as int
  }

  /** The code units of an ASCII string, one byte per character. */
  function AsciiCodes(s: string): (bs: seq<Byte>)
    requires forall i :: 0 <= i < |s| ==> IsAscii(s[i])
    ensures |bs| == |s| && forall i :: 0 <= i < |s| ==> bs[i] == s[i] as int
  {
    seq(|s|, i requires 0 <= i < |s| => AsciiCode(s[i]))
  }

  /**
   * `unquote_to_bytes` on ASCII text: `%XX` with two hex digits (either case)
   * becomes that byte, anything else (a lone `%` included) stays as it is.
   */
  function PercentDecode(s: string): seq<Byte>
    requires forall i :: 0 <= i < |s| ==> IsAscii(s[i])
    decreases |s|
  {
    if |s| == 0 then []
    else if s[0] == '%' && |s| >= 3 && IsHexChar(s[1]) && IsHexChar(s[2]) then
      [HexValue(s[1]) * 16 + HexValue(s[2])] + PercentDecode(s[3..])
    else [AsciiCode(s[0])] + PercentDecode(s[1..])
  }

  /** Length of the leading run of ASCII characters. */
  function AsciiRun(s: string): (k: nat)
    ensures k <= |s|
    ensures forall i :: 0 <= i < k ==> IsAscii(s[i])
    ensures k < |s| ==> !IsAscii(s[k])
    decreases |s|
  {
    if |s| == 0 || !IsAscii(s[0]) then 0 else 1 + AsciiRun(s[1..])
  }

  /** The decoding loop of `unquote`: non-ASCII characters stay, each ASCII run is percent-decoded and read as UTF-8. */
  function UnquoteRuns(s: string): string
    decreases |s|
  {
    if |s| == 0 then ""
    else if !IsAscii(s[0]) then [s[0]] + UnquoteRuns(s[1..])
    else
      var k := AsciiRun(s);
      Utf8Decode(PercentDecode(s[..k])) + UnquoteRuns(s[k..])
  }

  /** `unquote(s)` with the default UTF-8 and `errors='replace'`; text without `%` comes back as it is. */
  function Unquote(s: string): string {
    if Find(s, '%') < 0 then s else UnquoteRuns(s)
  }

  // ---------------------------------------------------------------- round trip

  lemma HexRoundTrip(b: Byte)
    ensures IsHexChar(HexDigit(b / 16)) && IsHexChar(HexDigit(b % 16))
    ensures HexValue(HexDigit(b / 16)) * 16 + HexValue(HexDigit(b % 16)) == b
  {
    var hi, lo := b / 16, b % 16;
    assert "0123456789ABCDEF"[hi] as int == if hi < 10 then '0' as int + hi else 'A' as int + hi - 10;
    assert "0123456789ABCDEF"[lo] as int == if lo < 10 then '0' as int + lo else 'A' as int + lo - 10;
  }

  /** What `quote_from_bytes` produces is ASCII. */
  lemma QuoteBytesIsAscii(bs: seq<Byte>)
    ensures forall i :: 0 <= i < |QuoteBytes(bs)| ==> IsAscii(QuoteBytes(bs)[i])
  {
  }

  /** Percent-decoding what `quote_from_bytes` produced gives back the bytes. */
  lemma {:induction false} PercentDecodeOfQuoteBytes(bs: seq<Byte>)
    ensures forall i :: 0 <= i < |QuoteBytes(bs)| ==> IsAscii(QuoteBytes(bs)[i])
    ensures PercentDecode(QuoteBytes(bs)) == bs
    decreases |bs|
  {
    QuoteBytesIsAscii(bs);
    if |bs| > 0 {
      PercentDecodeOfQuoteBytes(bs[1..]);
      var rest := QuoteBytes(bs[1..]);
      if QuoteSafeByte(bs[0]) {
        assert QuoteBytes(bs) == [bs[0] as char] + rest;
        PercentDecodeConsPlain(bs[0] as char, rest);
      } else {
        HexRoundTrip(bs[0]);
        var h1, h2 := HexDigit(bs[0] / 16), HexDigit(bs[0] % 16);
        assert QuoteBytes(bs) == ['%', h1, h2] + rest;
        PercentDecodeConsEscape(h1, h2, rest);
      }
      assert bs == [bs[0]] + bs[1..];
    }
  }

  /** A string of ASCII characters is one run. */
  lemma {:induction false} AsciiRunOfAscii(s: string)
    requires forall i :: 0 <= i < |s| ==> IsAscii(s[i])
    ensures AsciiRun(s) == |s|
    decreases |s|
  {
    if |s| > 0 {
      AsciiRunOfAscii(s[1..]);
    }
  }

  lemma NoPercentInTail(s: string, k: nat)
    requires k <= |s| && Find(s, '%') < 0
    ensures Find(s[k..], '%') < 0
  {
    assert forall i :: 0 <= i < |s| - k ==> s[k..][i] == s[k + i];
  }

  /** `unquote(quote(s)) == s` for every string. */
  lemma UnquoteOfQuote(s: string)
    ensures Unquote(Quote(s)) == s
  {
    var q := Quote(s);
    PercentDecodeOfQuoteBytes(Utf8Encode(s));
    DecodeOfEncode(s);
    if Find(q, '%') < 0 {
      // nothing was escaped, so `q` is ASCII text standing for its own bytes
      PercentDecodeOfPlain(q);
      Utf8EncodeAscii(q);
      DecodeOfEncode(q);
    } else {
      UnquoteRunsOfAscii(q);
    }
  }

  /** ASCII text without `%` percent-decodes to its own code units. */
  lemma {:induction false} PercentDecodeOfPlain(s: string)
    requires forall i :: 0 <= i < |s| ==> IsAscii(s[i])
    requires Find(s, '%') < 0
    ensures PercentDecode(s) == AsciiCodes(s)
    decreases |s|
  {
    if |s| > 0 {
      NoPercentInTail(s, 1);
      PercentDecodeOfPlain(s[1..]);
      assert AsciiCodes(s) == [AsciiCode(s[0])] + AsciiCodes(s[1..]);
    }
  }

  /** The UTF-8 encoding of ASCII text is its code units. */
  lemma {:induction false} Utf8EncodeAscii(s: string)
    requires forall i :: 0 <= i < |s| ==> IsAscii(s[i])
    ensures Utf8Encode(s) == AsciiCodes(s)
    decreases |s|
  {
    if |s| > 0 {
      Utf8EncodeAscii(s[1..]);
      assert AsciiCodes(s) == [AsciiCode(s[0])] + AsciiCodes(s[1..]);
    }
  }

  /** On ASCII text `unquote`'s loop is one run: percent-decode, then read as UTF-8. */
  lemma UnquoteRunsOfAscii(s: string)
    requires |s| > 0
    requires forall i :: 0 <= i < |s| ==> IsAscii(s[i])
    ensures UnquoteRuns(s) == Utf8Decode(PercentDecode(s))
  {
    AsciiRunOfAscii(s);
    assert s[..|s|] == s;
  }

  /** ASCII text free of `%`. */
  predicate IsPlainAscii(s: string) {
    forall i :: 0 <= i < |s| ==> IsAscii(s[i]) && s[i] != '%'
  }

  /** An escape followed by ASCII text free of `%` decodes to its byte and the text's codes. */
  lemma PercentDecodeAtEscape(h1: char, h2: char, y: string)
    requires IsPlainAscii(y) && IsHexChar(h1) && IsHexChar(h2)
    ensures var s := ['%', h1, h2] + y;
      (forall i :: 0 <= i < |s| ==> IsAscii(s[i]))
      && PercentDecode(s) == [HexValue(h1) * 16 + HexValue(h2)] + AsciiCodes(y)
  {
    PercentDecodeConsEscape(h1, h2, y);
    FindAbsent(y, '%');
    PercentDecodeOfPlain(y);
  }

  /** A plain ASCII character in front decodes to its own code. */
  lemma PercentDecodeConsPlain(c: char, t: string)
    requires IsAscii(c) && c != '%'
    requires forall i :: 0 <= i < |t| ==> IsAscii(t[i])
    ensures var s := [c] + t;
      (forall i :: 0 <= i < |s| ==> IsAscii(s[i]))
      && PercentDecode(s) == [AsciiCode(c)] + PercentDecode(t)
  {
    var s := [c] + t;
    assert s[1..] == t;
  }

  /** An escape in front decodes to the byte it spells. */
  lemma PercentDecodeConsEscape(h1: char, h2: char, t: string)
    requires IsHexChar(h1) && IsHexChar(h2)
    requires forall i :: 0 <= i < |t| ==> IsAscii(t[i])
    ensures var s := ['%', h1, h2] + t;
      (forall i :: 0 <= i < |s| ==> IsAscii(s[i]))
      && PercentDecode(s) == [HexValue(h1) * 16 + HexValue(h2)] + PercentDecode(t)
  {
    var s := ['%', h1, h2] + t;
    assert s[3..] == t;
  }

  lemma AsciiAppend(x: string, t: string)
    requires IsPlainAscii(x)
    requires forall i :: 0 <= i < |t| ==> IsAscii(t[i])
    ensures forall i :: 0 <= i < |x + t| ==> IsAscii((x + t)[i])
  {
  }

  /** ASCII text free of `%` in front of `t` decodes to its codes, followed by the decoding of `t`. */
  lemma {:induction false} PercentDecodeAfterPlain(x: string, t: string)
    requires IsPlainAscii(x)
    requires forall i :: 0 <= i < |t| ==> IsAscii(t[i])
    ensures var s := x + t;
      (forall i :: 0 <= i < |s| ==> IsAscii(s[i]))
      && PercentDecode(s) == AsciiCodes(x) + PercentDecode(t)
    decreases |x|
  {
    AsciiAppend(x, t);
    if |x| == 0 {
      assert x + t == t;
    } else {
      PercentDecodeAfterPlain(x[1..], t);
      assert x + t == [x[0]] + (x[1..] + t);
      PercentDecodeConsPlain(x[0], x[1..] + t);
      assert AsciiCodes(x) == [AsciiCode(x[0])] + AsciiCodes(x[1..]);
    }
  }

  lemma PercentDecodeOfEscape(x: string, h1: char, h2: char, y: string)
    requires IsPlainAscii(x) && IsPlainAscii(y) && IsHexChar(h1) && IsHexChar(h2)
    ensures var s := x + ['%', h1, h2] + y;
      (forall i :: 0 <= i < |s| ==> IsAscii(s[i]))
      && PercentDecode(s) == AsciiCodes(x) + [HexValue(h1) * 16 + HexValue(h2)] + AsciiCodes(y)
  {
    var t := ['%', h1, h2] + y;
    PercentDecodeAtEscape(h1, h2, y);
    PercentDecodeAfterPlain(x, t);
    assert x + ['%', h1, h2] + y == x + t;
  }

  /** UTF-8 decoding of the code units of ASCII text gives the text back. */
  lemma DecodeOfAscii(t: string)
    requires forall i :: 0 <= i < |t| ==> IsAscii(t[i])
    ensures Utf8Decode(AsciiCodes(t)) == t
  {
    Utf8EncodeAscii(t);
    DecodeOfEncode(t);
  }

  lemma AsciiCodesAround(x: string, c: char, y: string)
    requires IsPlainAscii(x) && IsPlainAscii(y) && IsAscii(c)
    ensures var t := x + [c] + y;
      (forall i :: 0 <= i < |t| ==> IsAscii(t[i]))
      && AsciiCodes(t) == AsciiCodes(x) + [c as int] + AsciiCodes(y)
  {
    var t := x + [c] + y;
    assert forall i :: 0 <= i < |x| ==> t[i] == x[i];
    assert forall i :: 0 <= i < |y| ==> t[|x| + 1 + i] == y[i];
  }

  /**
   * `unquote` turns one `%XX` escape of an ASCII code, between ASCII text
   * free of `%`, into the character it stands for.
   */
  lemma UnquoteOfEscape(x: string, h1: char, h2: char, y: string)
    requires IsPlainAscii(x) && IsPlainAscii(y) && IsHexChar(h1) && IsHexChar(h2)
    requires HexValue(h1) < 8
    ensures Unquote(x + ['%', h1, h2] + y) == x + [(HexValue(h1) * 16 + HexValue(h2)) as char] + y
  {
    var s := x + ['%', h1, h2] + y;
    var c := (HexValue(h1) * 16 + HexValue(h2)) as char;
    assert s[|x|] == '%';
    PercentDecodeOfEscape(x, h1, h2, y);
    UnquoteRunsOfAscii(s);
    AsciiCodesAround(x, c, y);
    DecodeOfAscii(x + [c] + y);
  }
}
