/**
 * The text codec of Image/Image.cpp, one line at a time.
 *
 * The loaders turn text into numbers by decimal digit accumulation on
 * `unsigned short` variables, `(v *= 10) += c - 48`, stopping at a space or
 * at the end of the C string; the writer prints numbers in decimal with
 * single spaces between them.  The decoders below are those loops as
 * functions of one line, and the encoders are what the writer puts on one
 * line (without its line terminator).
 */
module Codec {
  import opened Pixels

  // ---------------------------------------------------------------- numbers

  /** A line as the C code sees it: up to its first NUL character. */
  function CString(s: string): (r: string)
    ensures '\0' !in r
    ensures '\0' !in s ==> r == s
    ensures r <= s
  {
    if s == [] || s[0] == '\0' then [] else [s[0]] + CString(s[1..])
  }

  /** One step of `(v *= 10) += c - 48` on an `unsigned short` `v`. */
  function DigitStep(acc: nat, ch: char): (r: nat)
    ensures r < UShortModulus
  {
    ToUShort(ToUShort(acc * 10) + (ch as int - 48))
  }

  /** The value the accumulation loop leaves after reading `s` from an initial 0. */
  function ParseNumber(s: string): (n: nat)
    ensures n < UShortModulus
  {
    if s == [] then 0 else DigitStep(ParseNumber(s[..|s| - 1]), s[|s| - 1])
  }

  predicate IsDigit(ch: char)
  {
    '0' <= ch <= '9'
  }

  predicate IsDigits(s: string)
  {
    forall i :: 0 <= i < |s| ==> IsDigit(s[i])
  }

  /** The exact (unbounded) value of a string of decimal digits. */
  function DecimalValue(s: string): nat
    requires IsDigits(s)
  {
    if s == [] then 0 else DecimalValue(s[..|s| - 1]) * 10 + (s[|s| - 1] as int - '0' as int)
  }

  function DigitChar(d: nat): (ch: char)
    requires d < 10
    ensures IsDigit(ch) && ch as int - '0' as int == d
  {
    ('0' as int + d) as char
  }

  /** What `os << n` writes for a non-negative number (Image/Image.cpp:129, 137, 141, 154, 157). */
  function Decimal(n: nat): (s: string)
    ensures |s| > 0 && IsDigits(s)
    ensures DecimalValue(s) == n
    ensures ' ' !in s && '\0' !in s
  {
    if n < 10 then [DigitChar(n)] else Decimal(n / 10) + [DigitChar(n % 10)]
  }

  /** On digits, the accumulation computes the decimal value modulo 2^16. */
  lemma {:induction false} ParseNumberIsDecimalModulo(s: string)
    requires IsDigits(s)
    ensures ParseNumber(s) == DecimalValue(s) % UShortModulus
  {
    if s != [] {
      var init, d := s[..|s| - 1], s[|s| - 1] as int - '0' as int;
      assert IsDigits(init);
      ParseNumberIsDecimalModulo(init);
      var v := DecimalValue(init);
      var p := ParseNumber(init);
      assert p == v % UShortModulus;
      ModuloStep(v, d);
    }
  }

  /** `((v mod M) * 10 mod M + d) mod M == (10 v + d) mod M` for M = 2^16. */
  lemma ModuloStep(v: nat, d: nat)
    ensures ((v % UShortModulus) * 10 % UShortModulus + d) % UShortModulus == (v * 10 + d) % UShortModulus
  {
    var M := UShortModulus;
    var q := v / M;
    assert v == q * M + v % M;
    assert v * 10 + d == q * 10 * M + ((v % M) * 10 + d);
    var w := (v % M) * 10;
    assert w == (w / M) * M + w % M;
    assert (w + d) % M == (w % M + d) % M by {
      assert w + d == (w / M) * M + (w % M + d);
    }
  }

  /** Reading back what the writer printed gives the number (for any `unsigned short`). */
  lemma DecimalRoundTrip(n: nat)
    requires n < UShortModulus
    ensures ParseNumber(Decimal(n)) == n
  {
    ParseNumberIsDecimalModulo(Decimal(n));
  }

  /** The number of digits the writer prints, for the ranges the format uses. */
  lemma {:induction false} DecimalLength(n: nat)
    ensures n < 10 ==> |Decimal(n)| == 1
    ensures n < 100 ==> |Decimal(n)| <= 2
    ensures n < 1000 ==> |Decimal(n)| <= 3
    ensures n < 10000 ==> |Decimal(n)| <= 4
    ensures n < 100000 ==> |Decimal(n)| <= 5
  {
    if n >= 10 {
      DecimalLength(n / 10);
    }
  }

  // ---------------------------------------------------------------- fields

  function CountChar(s: string, ch: char): nat
  {
    if s == [] then 0 else (if s[0] == ch then 1 else 0) + CountChar(s[1..], ch)
  }

  /**
   * The fields a Netpbm bitmap or graymap row is cut into
   * (Image/Image.cpp:173-187): every single space ends a field, so two
   * spaces in a row or a trailing space yield an empty field.
   */
  function Fields(s: string): (fs: seq<string>)
    ensures |fs| == CountChar(s, ' ') + 1
    ensures forall i :: 0 <= i < |fs| ==> ' ' !in fs[i]
  {
    if s == [] then [""]
    else
      var rest := Fields(s[1..]);
      if s[0] == ' ' then [""] + rest else [[s[0]] + rest[0]] + rest[1..]
  }

  /** The fields of `s`, separated by single spaces: what the writer prints on a row. */
  function JoinSpaces(fs: seq<string>): (s: string)
    requires |fs| > 0
  {
    if |fs| == 1 then fs[0] else fs[0] + " " + JoinSpaces(fs[1..])
  }

  /** A space-free prefix stays glued to the first field of what follows. */
  lemma {:induction false} FieldsOfPrefix(a: string, t: string)
    requires ' ' !in a
    ensures Fields(a + t) == [a + Fields(t)[0]] + Fields(t)[1..]
  {
    var f := Fields(t);
    if a == [] {
      assert a + t == t;
      assert a + f[0] == f[0];
      assert f == [f[0]] + f[1..];
    } else {
      assert (a + t)[1..] == a[1..] + t;
      FieldsOfPrefix(a[1..], t);
      assert [a[0]] + (a[1..] + f[0]) == a + f[0];
    }
  }

  /** Splitting what `JoinSpaces` wrote gives the fields back. */
  lemma {:induction false} FieldsOfJoin(fs: seq<string>)
    requires |fs| > 0
    requires forall i :: 0 <= i < |fs| ==> ' ' !in fs[i]
    ensures Fields(JoinSpaces(fs)) == fs
  {
    if |fs| == 1 {
      FieldsOfPrefix(fs[0], "");
      assert fs[0] + "" == fs[0];
      assert Fields("") == [""];
      assert fs == [fs[0]];
    } else {
      FieldsOfJoin(fs[1..]);
      assert fs[0] + " " + JoinSpaces(fs[1..]) == fs[0] + (" " + JoinSpaces(fs[1..]));
      var tail := " " + JoinSpaces(fs[1..]);
      FieldsOfPrefix(fs[0], tail);
      assert tail[1..] == JoinSpaces(fs[1..]);
      assert Fields(tail) == [""] + fs[1..];
      assert fs[0] + "" == fs[0];
      assert fs == [fs[0]] + fs[1..];
    }
  }

  /** The non-empty fields: the numbers a pixmap line holds (Image/Image.cpp:202-218 skips every space). */
  function NonEmpty(fs: seq<string>): (ts: seq<string>)
    ensures |ts| <= |fs|
    ensures forall i :: 0 <= i < |ts| ==> ts[i] != [] && ts[i] in fs
  {
    if fs == [] then [] else (if fs[0] == [] then [] else [fs[0]]) + NonEmpty(fs[1..])
  }

  function Tokens(s: string): seq<string>
  {
    NonEmpty(Fields(s))
  }

  lemma {:induction false} NonEmptyOfNonEmpty(fs: seq<string>)
    requires forall i :: 0 <= i < |fs| ==> fs[i] != []
    ensures NonEmpty(fs) == fs
  {
    if fs != [] {
      NonEmptyOfNonEmpty(fs[1..]);
    }
  }

  // ---------------------------------------------------------------- header

  function FirstIndexOf(s: string, ch: char): (i: nat)
    requires ch in s
    ensures i < |s| && s[i] == ch && ch !in s[..i]
  {
    if s[0] == ch then 0 else 1 + FirstIndexOf(s[1..], ch)
  }

  /** The width/height line can be decoded: the width loop meets a space before the NUL. */
  predicate HasDimensions(line: string)
  {
    ' ' in CString(line)
  }

  /**
   * `loadImage`'s width/height loops (Image/Image.cpp:72-83): the width is
   * accumulated from the characters before the first space, the height from
   * every character after it up to the end of the C string.
   */
  function ParseDimensions(line: string): (wh: (nat, nat))
    requires HasDimensions(line)
    ensures wh.0 < UShortModulus && wh.1 < UShortModulus
  {
    var s := CString(line);
    var i := FirstIndexOf(s, ' ');
    (ParseNumber(s[..i]), ParseNumber(s[i + 1..]))
  }

  /** The line the writer prints for the dimensions (Image/Image.cpp:129), without its terminator. */
  function EncodeDimensions(width: nat, height: nat): string
  {
    Decimal(width) + " " + Decimal(height)
  }

  /** Decoding the dimensions line the writer printed gives the dimensions back. */
  lemma DimensionsRoundTrip(width: nat, height: nat)
    requires width < UShortModulus && height < UShortModulus
    ensures HasDimensions(EncodeDimensions(width, height))
    ensures ParseDimensions(EncodeDimensions(width, height)) == (width, height)
  {
    var line := EncodeDimensions(width, height);
    var a := Decimal(width);
    assert line[|a|] == ' ';
    assert ' ' in line;
    assert line[..|a|] == a;
    var i := FirstIndexOf(line, ' ');
    assert i >= |a| by {
      assert forall k :: 0 <= k < |a| ==> line[k] == a[k];
    }
    assert i <= |a|;
    assert line[|a| + 1..] == Decimal(height);
    DecimalRoundTrip(width);
    DecimalRoundTrip(height);
  }

  /** The ceiling line of a graymap or pixmap (Image/Image.cpp:96-101): the whole C string accumulated. */
  function ParseMaxValue(line: string): (v: nat)
    ensures v < UShortModulus
    ensures '\0' !in line && IsDigits(line) ==> v == DecimalValue(line) % UShortModulus
  {
    ParseNumberIsDecimalModulo(if IsDigits(CString(line)) then CString(line) else []);
    ParseNumber(CString(line))
  }

  // ---------------------------------------------------------------- pixel rows

  /** Every field of a bitmap or graymap row decodes to a channel the ceiling admits. */
  predicate GrayRowFits(line: string, maxValue: nat)
  {
    var fs := Fields(CString(line));
    AcceptsMaxValue(maxValue) && forall i :: 0 <= i < |fs| ==> ParseNumber(fs[i]) <= maxValue
  }

  /**
   * `loadPBMAndPGM` on one row (Image/Image.cpp:171-187): each field gives
   * one pixel whose three channels are the field's value, under `maxValue`.
   */
  function DecodeGrayRow(line: string, maxValue: nat): (row: seq<PixelValue>)
    requires GrayRowFits(line, maxValue)
    ensures |row| == CountChar(CString(line), ' ') + 1
    ensures forall i :: 0 <= i < |row| ==> row[i].Valid() && row[i].maxValue == maxValue
    ensures forall i :: 0 <= i < |row| ==> row[i].red == row[i].green == row[i].blue
  {
    var fs := Fields(CString(line));
    seq(|fs|, i requires 0 <= i < |fs| => var v := ParseNumber(fs[i]); PixelValue(maxValue, v, v, v))
  }

  /** The pixels of a bitmap or graymap row as the writer prints them (Image/Image.cpp:139-150). */
  function EncodeGrayRow(row: seq<PixelValue>): string
    requires |row| > 0
  {
    JoinSpaces(seq(|row|, i requires 0 <= i < |row| => Decimal(row[i].red)))
  }

  /** A single-channel pixel with ceiling `maxValue`, as the bitmap and graymap formats hold them. */
  predicate IsGrayPixel(p: PixelValue, maxValue: nat)
  {
    p.Valid() && p.maxValue == maxValue && p.red == p.green == p.blue
  }

  /** A row the writer printed decodes to the same pixels. */
  lemma GrayRowRoundTrip(row: seq<PixelValue>, maxValue: nat)
    requires |row| > 0
    requires forall i :: 0 <= i < |row| ==> IsGrayPixel(row[i], maxValue)
    ensures GrayRowFits(EncodeGrayRow(row), maxValue)
    ensures DecodeGrayRow(EncodeGrayRow(row), maxValue) == row
  {
    var fs := seq(|row|, i requires 0 <= i < |row| => Decimal(row[i].red));
    FieldsOfJoin(fs);
    assert CString(JoinSpaces(fs)) == JoinSpaces(fs) by {
      JoinHasNoNul(fs);
    }
    forall i | 0 <= i < |row|
      ensures ParseNumber(fs[i]) == row[i].red
    {
      DecimalRoundTrip(row[i].red);
    }
  }

  /** Fields of at most `k` characters joined by single spaces take at most `(k + 1) * |fs| - 1` characters. */
  lemma {:induction false} JoinSpacesLength(fs: seq<string>, k: nat)
    requires |fs| > 0
    requires forall i :: 0 <= i < |fs| ==> |fs[i]| <= k
    ensures |JoinSpaces(fs)| <= (k + 1) * |fs| - 1
  {
    if |fs| > 1 {
      JoinSpacesLength(fs[1..], k);
    }
  }

  lemma {:induction false} JoinHasNoNul(fs: seq<string>)
    requires |fs| > 0
    requires forall i :: 0 <= i < |fs| ==> '\0' !in fs[i]
    ensures '\0' !in JoinSpaces(fs)
  {
    if |fs| > 1 {
      JoinHasNoNul(fs[1..]);
    }
  }

  /** A pixmap line holds at most three numbers: `values[3]` has no fourth slot (Image/Image.cpp:199). */
  predicate PixmapLineFits(line: string, maxValue: nat)
  {
    var ts := Tokens(CString(line));
    AcceptsMaxValue(maxValue) && |ts| <= 3 && forall i :: 0 <= i < |ts| ==> ParseNumber(ts[i]) <= maxValue
  }

  /** The `k`-th number of a pixmap line, 0 when the line holds fewer. */
  function TokenValue(ts: seq<string>, k: nat): nat
  {
    if k < |ts| then ParseNumber(ts[k]) else 0
  }

  /**
   * `loadPPM` on one line (Image/Image.cpp:199-221): spaces are skipped,
   * the i-th run of non-space characters accumulates into channel i, and
   * channels the line does not reach stay 0.
   */
  function DecodePixmapLine(line: string, maxValue: nat): (p: PixelValue)
    requires PixmapLineFits(line, maxValue)
    ensures p.Valid() && p.maxValue == maxValue
  {
    var ts := Tokens(CString(line));
    PixelValue(maxValue, TokenValue(ts, 0), TokenValue(ts, 1), TokenValue(ts, 2))
  }

  /** A pixmap pixel as the writer prints it (Image/Image.cpp:157). */
  function EncodePixmapLine(p: PixelValue): string
  {
    Decimal(p.red) + " " + Decimal(p.green) + " " + Decimal(p.blue)
  }

  /** The line the writer prints for a pixmap pixel holds the three decimals, in order. */
  lemma PixmapLineTokens(p: PixelValue)
    requires p.Valid()
    ensures Tokens(CString(EncodePixmapLine(p))) == [Decimal(p.red), Decimal(p.green), Decimal(p.blue)]
  {
    var fs := [Decimal(p.red), Decimal(p.green), Decimal(p.blue)];
    assert JoinSpaces(fs) == EncodePixmapLine(p) by {
      assert JoinSpaces(fs[2..]) == Decimal(p.blue);
      assert JoinSpaces(fs[1..]) == Decimal(p.green) + " " + Decimal(p.blue);
    }
    FieldsOfJoin(fs);
    JoinHasNoNul(fs);
    NonEmptyOfNonEmpty(fs);
  }

  /** A pixmap line the writer printed decodes to the same pixel. */
  lemma PixmapLineRoundTrip(p: PixelValue)
    requires p.Valid()
    ensures PixmapLineFits(EncodePixmapLine(p), p.maxValue)
    ensures DecodePixmapLine(EncodePixmapLine(p), p.maxValue) == p
  {
    PixmapLineTokens(p);
    DecimalRoundTrip(p.red);
    DecimalRoundTrip(p.green);
    DecimalRoundTrip(p.blue);
  }
}
