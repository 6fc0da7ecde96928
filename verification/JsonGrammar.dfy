/** Which texts are accepted, and what they mean: a grammar with its own spellings of every value, and the
    parser shown to accept exactly those. */
module JsonGrammar {
  import opened Basics
  import opened Bytes
  import opened Json
  import opened JsonRoundTrip
  import opened Sequences
  import Utf8

  predicate AllWs(s: bytes) {
    forall i | 0 <= i < |s| :: IsWs(s[i])
  }

  lemma {:induction false} SkipsWs(ws: bytes, s: bytes)
    requires AllWs(ws)
    ensures SkipWs(ws + s) == SkipWs(s)
  {
    if ws == [] {
      assert ws + s == s;
    } else {
      SkipsWs(ws[1..], s);
      assert (ws + s)[1..] == ws[1..] + s;
    }
  }

  /** The white space that a text starts with. */
  lemma {:induction false} WsApart(s: bytes) returns (ws: bytes)
    ensures AllWs(ws) && s == ws + SkipWs(s)
  {
    ws := [];
    if s != [] && IsWs(s[0]) {
      var more := WsApart(s[1..]);
      ws := [s[0]] + more;
      assert s == [s[0]] + s[1..];
    }
  }

  // ---- hexadecimal ----

  /** A digit in either case. */
  function HexLetter(n: nat, upper: bool): byte
    requires n < 16
  {
    if n < 10 then '0' as int + n else if upper then 'A' as int + (n - 10) else 'a' as int + (n - 10)
  }

  function Hex4(n: nat, upper: seq<bool>): (s: bytes)
    requires n < 0x1_0000 && |upper| == 4
    ensures |s| == 4
  {
    [HexLetter(n / 4096, upper[0]), HexLetter(n / 256 % 16, upper[1]), HexLetter(n / 16 % 16, upper[2]),
     HexLetter(n % 16, upper[3])]
  }

  lemma Digits16(a: nat, b: nat, c: nat, d: nat)
    requires a < 16 && b < 16 && c < 16 && d < 16
    ensures var n := ((a * 16 + b) * 16 + c) * 16 + d;
            n / 4096 == a && n / 256 % 16 == b && n / 16 % 16 == c && n % 16 == d && n < 0x1_0000
  {
    var n := ((a * 16 + b) * 16 + c) * 16 + d;
    assert n / 16 == (a * 16 + b) * 16 + c;
    assert n / 256 == a * 16 + b;
  }

  lemma Base16(n: nat)
    requires n < 0x1_0000
    ensures n == ((n / 4096 * 16 + n / 256 % 16) * 16 + n / 16 % 16) * 16 + n % 16
  {
    assert n == n / 16 * 16 + n % 16;
    assert n / 16 == n / 256 * 16 + n / 16 % 16;
    assert n / 256 == n / 4096 * 16 + n / 256 % 16;
  }

  lemma HexLetterReads(n: nat, upper: bool)
    requires n < 16
    ensures HexValue(HexLetter(n, upper)) == n
  {
  }

  lemma HexLetterOf(b: byte) returns (upper: bool)
    requires HexValue(b) >= 0
    ensures b == HexLetter(HexValue(b), upper)
  {
    upper := 'A' as int <= b <= 'F' as int;
  }

  lemma Hex4Reads(n: nat, upper: seq<bool>, rest: bytes)
    requires n < 0x1_0000 && |upper| == 4
    ensures ParseHex4(Hex4(n, upper) + rest) == Ok(n, rest)
  {
    HexLetterReads(n / 4096, upper[0]);
    HexLetterReads(n / 256 % 16, upper[1]);
    HexLetterReads(n / 16 % 16, upper[2]);
    HexLetterReads(n % 16, upper[3]);
    Base16(n);
    assert (Hex4(n, upper) + rest)[4..] == rest;
  }

  lemma Hex4Of(s: bytes) returns (upper: seq<bool>)
    requires ParseHex4(s).Ok?
    ensures |upper| == 4 && s == Hex4(ParseHex4(s).value, upper) + ParseHex4(s).rest
  {
    var u0 := HexLetterOf(s[0]);
    var u1 := HexLetterOf(s[1]);
    var u2 := HexLetterOf(s[2]);
    var u3 := HexLetterOf(s[3]);
    upper := [u0, u1, u2, u3];
    Digits16(HexValue(s[0]), HexValue(s[1]), HexValue(s[2]), HexValue(s[3]));
    assert s[..4] == Hex4(ParseHex4(s).value, upper);
    SplitAt(s, 4);
  }

  // ---- characters ----

  /** A byte as it stands, a byte by its letter, or a code point by its UTF-16 code units in hexadecimal, each
      digit in either case. */
  datatype Char =
    | Plain(b: byte)
    | Lettered(letter: byte, b: byte)
    | Escaped(cp: nat, upper: seq<bool>)

  /** The letters after a backslash (section 7 of RFC 8259). */
  predicate LetterFor(letter: byte, b: byte) {
    || (letter == '"' as int && b == 0x22)
    || (letter == '\\' as int && b == 0x5C)
    || (letter == '/' as int && b == 0x2F)
    || (letter == 'b' as int && b == 0x08)
    || (letter == 'f' as int && b == 0x0C)
    || (letter == 'n' as int && b == 0x0A)
    || (letter == 'r' as int && b == 0x0D)
    || (letter == 't' as int && b == 0x09)
  }

  predicate IsHigh(unit: nat) {
    0xD800 <= unit <= 0xDBFF
  }

  /** The code units of a code point beyond the first plane (section 2.1 of RFC 2781). */
  function High(cp: nat): nat
    requires 0x1_0000 <= cp < 0x11_0000
  {
    0xD800 + (cp - 0x1_0000) / 0x400
  }

  function Low(cp: nat): nat
    requires 0x1_0000 <= cp < 0x11_0000
  {
    0xDC00 + (cp - 0x1_0000) % 0x400
  }

  predicate LegalChar(ch: Char) {
    match ch
    case Plain(b) => b != QUOTE && b != BACKSLASH
    case Lettered(letter, b) => LetterFor(letter, b)
    case Escaped(cp, upper) =>
      if cp < 0x1_0000 then !IsHigh(cp) && |upper| == 4 else cp < 0x11_0000 && |upper| == 8
  }

  function UnitText(unit: nat, upper: seq<bool>): bytes
    requires unit < 0x1_0000 && |upper| == 4
  {
    [BACKSLASH, 'u' as int] + Hex4(unit, upper)
  }

  function CharText(ch: Char): bytes
    requires LegalChar(ch)
  {
    match ch
    case Plain(b) => [b]
    case Lettered(letter, _) => [BACKSLASH, letter]
    case Escaped(cp, upper) =>
      if cp < 0x1_0000 then UnitText(cp, upper)
      else UnitText(High(cp), upper[..4]) + UnitText(Low(cp), upper[4..])
  }

  function CharMeaning(ch: Char): bytes
    requires LegalChar(ch)
  {
    match ch
    case Plain(b) => [b]
    case Lettered(_, b) => [b]
    case Escaped(cp, _) => Utf8.EncodeScalar(cp)
  }

  lemma UnitsOfPair(high: nat, low: nat)
    requires IsHigh(high) && 0xDC00 <= low <= 0xDFFF
    ensures 0x1_0000 <= Pair(high, low) && High(Pair(high, low)) == high && Low(Pair(high, low)) == low
  {
  }

  lemma PairOfUnits(cp: nat)
    requires 0x1_0000 <= cp < 0x11_0000
    ensures IsHigh(High(cp)) && 0xDC00 <= Low(cp) <= 0xDFFF && Pair(High(cp), Low(cp)) == cp
  {
  }

  lemma LowReads(low: nat, upper: seq<bool>, rest: bytes)
    requires 0xDC00 <= low <= 0xDFFF && |upper| == 4
    ensures ParseLowSurrogate(UnitText(low, upper) + rest) == Ok(low, rest)
  {
    var s := UnitText(low, upper) + rest;
    Hex4Reads(low, upper, rest);
    assert s[2..] == Hex4(low, upper) + rest;
  }

  lemma LowOf(s: bytes) returns (upper: seq<bool>)
    requires ParseLowSurrogate(s).Ok?
    ensures |upper| == 4 && s == UnitText(ParseLowSurrogate(s).value, upper) + ParseLowSurrogate(s).rest
  {
    upper := Hex4Of(s[2..]);
    SplitAt(s, 2);
    assert s[..2] == [BACKSLASH, 'u' as int];
    Assoc(s[..2], Hex4(ParseLowSurrogate(s).value, upper), ParseLowSurrogate(s).rest);
  }

  /** Every code point beyond the first plane, written as its two surrogates in either case, reads as its
      UTF-8 encoding. */
  lemma SurrogatesRead(cp: nat, upper: seq<bool>, rest: bytes)
    requires 0x1_0000 <= cp < 0x11_0000 && |upper| == 8
    ensures ParseUnicode(Hex4(High(cp), upper[..4]) + (UnitText(Low(cp), upper[4..]) + rest))
            == Ok(Utf8.EncodeScalar(cp), rest)
  {
    PairOfUnits(cp);
    Hex4Reads(High(cp), upper[..4], UnitText(Low(cp), upper[4..]) + rest);
    LowReads(Low(cp), upper[4..], rest);
  }

  /** Every other code point, a low surrogate included, written as one code unit, likewise. */
  lemma UnitReads(cp: nat, upper: seq<bool>, rest: bytes)
    requires cp < 0x1_0000 && !IsHigh(cp) && |upper| == 4
    ensures ParseUnicode(Hex4(cp, upper) + rest) == Ok(Utf8.EncodeScalar(cp), rest)
  {
    Hex4Reads(cp, upper, rest);
  }

  /** A high surrogate is accepted exactly before a low one. */
  lemma LoneHighSurrogateFails(unit: nat, upper: seq<bool>, rest: bytes)
    requires IsHigh(unit) && |upper| == 4
    ensures ParseUnicode(Hex4(unit, upper) + rest) == Fail <==>
            !exists low: nat, upper', more ::
              0xDC00 <= low <= 0xDFFF && |upper'| == 4 && rest == UnitText(low, upper') + more
  {
    Hex4Reads(unit, upper, rest);
    assert ParseUnicode(Hex4(unit, upper) + rest) == Fail <==> ParseLowSurrogate(rest) == Fail;
    if ParseLowSurrogate(rest).Ok? {
      var upper' := LowOf(rest);
    }
    if low: nat, upper', more :| 0xDC00 <= low <= 0xDFFF && |upper'| == 4 && rest == UnitText(low, upper') + more {
      LowReads(low, upper', more);
    }
  }

  lemma EscapeStep(s: bytes, text: bytes, tail: bytes, acc: bytes)
    requires ParseUnicode(s) == Ok(text, tail)
    ensures ParseChars([BACKSLASH, 'u' as int] + s, acc) == ParseChars(tail, acc + text)
  {
    assert ([BACKSLASH, 'u' as int] + s)[2..] == s;
  }

  lemma EscapedCharReads(cp: nat, upper: seq<bool>, tail: bytes, acc: bytes)
    requires LegalChar(Escaped(cp, upper))
    ensures ParseChars(CharText(Escaped(cp, upper)) + tail, acc) == ParseChars(tail, acc + Utf8.EncodeScalar(cp))
  {
    var start := [BACKSLASH, 'u' as int];
    if cp < 0x1_0000 {
      UnitReads(cp, upper, tail);
      EscapeStep(Hex4(cp, upper) + tail, Utf8.EncodeScalar(cp), tail, acc);
      Assoc(start, Hex4(cp, upper), tail);
    } else {
      var high, low := Hex4(High(cp), upper[..4]), UnitText(Low(cp), upper[4..]);
      SurrogatesRead(cp, upper, tail);
      EscapeStep(high + (low + tail), Utf8.EncodeScalar(cp), tail, acc);
      Nested(start, high, low, tail);
    }
  }

  lemma CharReads(ch: Char, tail: bytes, acc: bytes)
    requires LegalChar(ch)
    ensures ParseChars(CharText(ch) + tail, acc) == ParseChars(tail, acc + CharMeaning(ch))
  {
    var s := CharText(ch) + tail;
    match ch
    case Plain(_) => assert s[1..] == tail;
    case Lettered(_, _) => assert s[2..] == tail;
    case Escaped(cp, upper) => EscapedCharReads(cp, upper, tail, acc);
  }

  predicate LegalChars(chars: seq<Char>) {
    forall i | 0 <= i < |chars| :: LegalChar(chars[i])
  }

  function CharsText(chars: seq<Char>): bytes
    requires LegalChars(chars)
  {
    if chars == [] then [] else CharText(chars[0]) + CharsText(chars[1..])
  }

  function CharsMeaning(chars: seq<Char>): bytes
    requires LegalChars(chars)
  {
    if chars == [] then [] else CharMeaning(chars[0]) + CharsMeaning(chars[1..])
  }

  lemma {:induction false} CharsRead(chars: seq<Char>, rest: bytes, acc: bytes)
    requires LegalChars(chars)
    ensures ParseChars(CharsText(chars) + ([QUOTE] + rest), acc) == Ok(acc + CharsMeaning(chars), rest)
    decreases |chars|
  {
    var tail := [QUOTE] + rest;
    if chars == [] {
      assert CharsText(chars) + tail == tail && tail[1..] == rest && acc + [] == acc;
    } else {
      var more := CharsText(chars[1..]);
      Assoc(CharText(chars[0]), more, tail);
      CharReads(chars[0], more + tail, acc);
      CharsRead(chars[1..], rest, acc + CharMeaning(chars[0]));
      Assoc(acc, CharMeaning(chars[0]), CharsMeaning(chars[1..]));
    }
  }

  /** The character that a text starts with. */
  lemma CharOf(s: bytes, acc: bytes) returns (ch: Char, tail: bytes)
    requires ParseChars(s, acc).Ok? && s[0] != QUOTE
    ensures LegalChar(ch) && s == CharText(ch) + tail && |tail| < |s|
    ensures ParseChars(s, acc) == ParseChars(tail, acc + CharMeaning(ch))
  {
    if s[0] != BACKSLASH {
      ch, tail := Plain(s[0]), s[1..];
      assert s == [s[0]] + s[1..];
    } else if s[1] != 'u' as int {
      ch, tail := Lettered(s[1], Unescape(s[1])), s[2..];
      assert s == [BACKSLASH, s[1]] + s[2..];
    } else {
      ch, tail := EscapedOf(s[2..]);
      assert s == [BACKSLASH, 'u' as int] + s[2..];
      CharReads(ch, tail, acc);
    }
  }

  lemma PairText(unit: nat, upper: seq<bool>, low: nat, upper': seq<bool>)
    requires IsHigh(unit) && 0xDC00 <= low <= 0xDFFF && |upper| == 4 && |upper'| == 4
    ensures var ch := Escaped(Pair(unit, low), upper + upper');
            LegalChar(ch) && CharText(ch) == UnitText(unit, upper) + UnitText(low, upper')
  {
    UnitsOfPair(unit, low);
    assert (upper + upper')[..4] == upper && (upper + upper')[4..] == upper';
  }

  lemma EscapedOf(s: bytes) returns (ch: Char, tail: bytes)
    requires ParseUnicode(s).Ok?
    ensures LegalChar(ch) && ch.Escaped? && [BACKSLASH, 'u' as int] + s == CharText(ch) + tail && |tail| < |s|
  {
    var upper := Hex4Of(s);
    var unit, after := ParseHex4(s).value, ParseHex4(s).rest;
    Assoc([BACKSLASH, 'u' as int], Hex4(unit, upper), after);
    if IsHigh(unit) {
      var upper' := LowOf(after);
      var low := ParseLowSurrogate(after).value;
      tail := ParseLowSurrogate(after).rest;
      ch := Escaped(Pair(unit, low), upper + upper');
      PairText(unit, upper, low, upper');
      Assoc(UnitText(unit, upper), UnitText(low, upper'), tail);
    } else {
      ch, tail := Escaped(unit, upper), after;
    }
  }

  lemma {:induction false} CharsOf(s: bytes, acc: bytes) returns (chars: seq<Char>)
    requires ParseChars(s, acc).Ok?
    ensures LegalChars(chars)
    ensures var r := ParseChars(s, acc);
            s == CharsText(chars) + ([QUOTE] + r.rest) && r.value == acc + CharsMeaning(chars)
    decreases |s|
  {
    if s[0] == QUOTE {
      chars := [];
      assert s == [] + ([QUOTE] + s[1..]) && acc + [] == acc;
    } else {
      var ch, tail := CharOf(s, acc);
      var more := CharsOf(tail, acc + CharMeaning(ch));
      chars := [ch] + more;
      assert chars[1..] == more;
      Assoc(CharText(ch), CharsText(more), [QUOTE] + ParseChars(s, acc).rest);
      Assoc(acc, CharMeaning(ch), CharsMeaning(more));
    }
  }

  // ---- numbers ----

  datatype Exponent = Exponent(letter: byte, sign: bytes, digits: bytes)

  /** A number as it may be written, which is more than the standard allows: any of the digits may be
      missing. */
  datatype Figures = Figures(minus: bool, whole: bytes, fraction: Option<bytes>, exponent: Option<Exponent>)

  predicate Digits(s: bytes) {
    forall i | 0 <= i < |s| :: IsDigit(s[i])
  }

  predicate LegalExponent(e: Exponent) {
    && (e.letter == 'e' as int || e.letter == 'E' as int)
    && (e.sign == [] || e.sign == ['+' as int] || e.sign == ['-' as int]) && Digits(e.digits)
  }

  /** At least a sign or a digit to start with, and not the sign alone. */
  predicate LegalFigures(f: Figures) {
    && Digits(f.whole) && (f.fraction != None ==> Digits(f.fraction.value))
    && (f.exponent != None ==> LegalExponent(f.exponent.value))
    && (f.whole != [] || (f.minus && (f.fraction != None || f.exponent != None)))
  }

  function SignText(f: Figures): bytes {
    if f.minus then [MINUS] else []
  }

  function FractionText(fraction: Option<bytes>): bytes {
    if fraction == None then [] else ['.' as int] + fraction.value
  }

  function ExponentText(exponent: Option<Exponent>): bytes {
    if exponent == None then []
    else [exponent.value.letter] + exponent.value.sign + exponent.value.digits
  }

  function FiguresText(f: Figures): bytes {
    SignText(f) + f.whole + FractionText(f.fraction) + ExponentText(f.exponent)
  }

  lemma {:induction false} DigitRunIs(digits: bytes, tail: bytes)
    requires Digits(digits) && (tail == [] || !IsDigit(tail[0]))
    ensures DigitRun(digits + tail) == |digits|
  {
    DigitRunStops(digits, tail);
    DigitRunOfDigits(digits);
  }

  lemma DigitsEndIs(prefix: bytes, digits: bytes, tail: bytes)
    requires Digits(digits) && (tail == [] || !IsDigit(tail[0]))
    ensures DigitsEnd(prefix + (digits + tail), |prefix|) == |prefix| + |digits|
  {
    assert (prefix + (digits + tail))[|prefix|..] == digits + tail;
    DigitRunIs(digits, tail);
  }

  lemma {:induction false} RunIsDigits(s: bytes)
    ensures Digits(s[..DigitRun(s)])
  {
    if s != [] && IsDigit(s[0]) {
      RunIsDigits(s[1..]);
      assert s[..DigitRun(s)] == [s[0]] + s[1..][..DigitRun(s[1..])];
    }
  }

  lemma AtEnd(prefix: bytes, b: byte, tail: bytes)
    ensures var s := prefix + ([b] + tail); |prefix| < |s| && s[|prefix|] == b && s == prefix + [b] + tail
  {
  }

  lemma WrittenFractionIs(prefix: bytes, digits: bytes, tail: bytes)
    requires Digits(digits) && (tail == [] || !IsDigit(tail[0]))
    ensures FractionEnd(prefix + (['.' as int] + (digits + tail)), |prefix|) == |prefix| + 1 + |digits|
  {
    AtEnd(prefix, '.' as int, digits + tail);
    DigitsEndIs(prefix + ['.' as int], digits, tail);
  }

  lemma FractionIs(prefix: bytes, fraction: Option<bytes>, tail: bytes)
    requires fraction != None ==> Digits(fraction.value)
    requires tail == [] || (!IsDigit(tail[0]) && tail[0] != '.' as int)
    ensures FractionEnd(prefix + (FractionText(fraction) + tail), |prefix|) == |prefix| + |FractionText(fraction)|
  {
    if fraction != None {
      WrittenFractionIs(prefix, fraction.value, tail);
      Assoc(['.' as int], fraction.value, tail);
    } else {
      assert FractionText(fraction) + tail == tail;
      assert tail != [] ==> (prefix + tail)[|prefix|] == tail[0];
    }
  }

  lemma SignIs(prefix: bytes, e: Exponent, rest: bytes)
    requires LegalExponent(e) && Ends(rest)
    ensures SignAt(prefix + (e.sign + (e.digits + rest)), |prefix|) <==> e.sign != []
  {
    var tail := e.sign + (e.digits + rest);
    if tail != [] {
      assert (prefix + tail)[|prefix|] == tail[0];
    }
  }

  lemma WrittenExponentIs(prefix: bytes, e: Exponent, rest: bytes)
    requires LegalExponent(e) && Ends(rest)
    ensures ExponentEnd(prefix + ([e.letter] + (e.sign + (e.digits + rest))), |prefix|)
            == |prefix| + 1 + |e.sign| + |e.digits|
  {
    var lettered := prefix + [e.letter];
    AtEnd(prefix, e.letter, e.sign + (e.digits + rest));
    SignIs(lettered, e, rest);
    DigitsEndIs(lettered + e.sign, e.digits, rest);
    Assoc(lettered, e.sign, e.digits + rest);
  }

  lemma ExponentIs(prefix: bytes, exponent: Option<Exponent>, rest: bytes)
    requires (exponent != None ==> LegalExponent(exponent.value)) && Ends(rest)
    ensures ExponentEnd(prefix + (ExponentText(exponent) + rest), |prefix|) == |prefix| + |ExponentText(exponent)|
  {
    if exponent != None {
      var e := exponent.value;
      WrittenExponentIs(prefix, e, rest);
      Nested([e.letter], e.sign, e.digits, rest);
    } else {
      assert ExponentText(exponent) + rest == rest;
      assert rest != [] ==> (prefix + rest)[|prefix|] == rest[0];
    }
  }

  /** What follows the whole part, and the fraction. */
  lemma TailsStart(fraction: Option<bytes>, exponent: Option<Exponent>, rest: bytes)
    requires (exponent != None ==> LegalExponent(exponent.value)) && Ends(rest)
    ensures var tail := ExponentText(exponent) + rest; tail == [] || (!IsDigit(tail[0]) && tail[0] != '.' as int)
    ensures var tail := FractionText(fraction) + (ExponentText(exponent) + rest); tail == [] || !IsDigit(tail[0])
  {
    var tail := ExponentText(exponent) + rest;
    if exponent == None {
      assert tail == rest;
    } else {
      assert tail[0] == exponent.value.letter;
    }
    if fraction == None {
      assert FractionText(fraction) + tail == tail;
    }
  }

  lemma WholeIs(f: Figures, tail: bytes)
    requires LegalFigures(f) && (tail == [] || !IsDigit(tail[0]))
    ensures WholeEnd(SignText(f) + (f.whole + tail)) == |SignText(f)| + |f.whole|
  {
    DigitsEndIs(SignText(f), f.whole, tail);
    if !f.minus {
      assert (SignText(f) + (f.whole + tail))[0] == f.whole[0];
    }
  }

  lemma NumeralOfParts(s: bytes, sign: bytes, whole: bytes, fraction: bytes, exponent: bytes)
    requires |sign + whole + fraction| <= |s|
    requires WholeEnd(s) == |sign| + |whole|
    requires FractionEnd(s, |sign + whole|) == |sign + whole| + |fraction|
    requires ExponentEnd(s, |sign + whole + fraction|) == |sign + whole + fraction| + |exponent|
    ensures NumeralLength(s) == |sign + whole + fraction + exponent|
  {
    assert |sign + whole| == WholeEnd(s);
    assert |sign + whole + fraction| == FractionEnd(s, WholeEnd(s));
  }

  lemma FiguresLength(f: Figures)
    requires LegalFigures(f)
    ensures NumeralLength(FiguresText(f)) == |FiguresText(f)|
  {
    var sign, fraction, exponent := SignText(f), FractionText(f.fraction), ExponentText(f.exponent);
    var s := FiguresText(f) + [];
    assert s == FiguresText(f);
    TailsStart(f.fraction, f.exponent, []);
    Regroups(sign, f.whole, fraction, exponent, []);
    WholeIs(f, fraction + (exponent + []));
    FractionIs(sign + f.whole, f.fraction, exponent + []);
    ExponentIs(sign + f.whole + fraction, f.exponent, []);
    NumeralOfParts(s, sign, f.whole, fraction, exponent);
  }

  lemma Regroups(a: bytes, b: bytes, c: bytes, d: bytes, e: bytes)
    ensures a + b + c + d + e == a + (b + (c + (d + e)))
    ensures a + b + c + d + e == (a + b) + (c + (d + e))
    ensures a + b + c + d + e == (a + b + c) + (d + e)
  {
  }

  lemma FiguresRead(c: Conversions, f: Figures, rest: bytes)
    requires LegalFigures(f) && Ends(rest) && c.read(FiguresText(f)) != None
    ensures ParseValue(c, FiguresText(f) + rest) == Ok(Num(c.read(FiguresText(f)).value), rest)
  {
    FiguresLength(f);
    FiguresStart(f);
    NumeralReads(c, FiguresText(f), c.read(FiguresText(f)).value, rest);
  }

  lemma FiguresStart(f: Figures)
    requires LegalFigures(f)
    ensures var t := FiguresText(f); t != [] && StartsNumeral(t[0]) && t != [MINUS]
  {
    var t := FiguresText(f);
    if f.minus {
      assert t[0] == MINUS;
    } else {
      assert t[0] == f.whole[0];
    }
  }

  /** The parts of the numeral that a text starts with. */
  lemma FiguresOf(s: bytes) returns (f: Figures)
    requires s != [] && StartsNumeral(s[0])
    ensures Digits(f.whole) && (f.fraction != None ==> Digits(f.fraction.value))
    ensures f.exponent != None ==> LegalExponent(f.exponent.value)
    ensures f.minus || f.whole != []
    ensures s[..NumeralLength(s)] == FiguresText(f)
  {
    var sign := if s[0] == MINUS then 1 else 0;
    var w := WholeEnd(s);
    var fr := FractionEnd(s, w);
    FourParts(s, sign, w, fr, NumeralLength(s));
    var whole := WholeOf(s, sign);
    var fraction := FractionOf(s, w);
    var exponent := ExponentOf(s, fr);
    f := Figures(s[0] == MINUS, whole, fraction, exponent);
    assert SignText(f) == s[..sign];
  }

  lemma FourParts(s: bytes, a: nat, b: nat, c: nat, d: nat)
    requires a <= b <= c <= d <= |s|
    ensures s[..d] == s[..a] + s[a..b] + s[b..c] + s[c..d]
  {
  }

  lemma WholeOf(s: bytes, at: nat) returns (whole: bytes)
    requires at <= |s|
    ensures Digits(whole) && whole == s[at..DigitsEnd(s, at)]
    ensures at < |s| && IsDigit(s[at]) ==> whole != []
  {
    RunIsDigits(s[at..]);
    whole := s[at..DigitsEnd(s, at)];
    assert whole == s[at..][..DigitRun(s[at..])];
  }

  lemma NumberOf(c: Conversions, s: bytes) returns (f: Figures)
    requires s != [] && StartsNumeral(s[0]) && ParseNumber(c, s).Ok?
    ensures LegalFigures(f) && s == FiguresText(f) + ParseNumber(c, s).rest
    ensures c.read(FiguresText(f)) != None && ParseNumber(c, s).value == Num(c.read(FiguresText(f)).value)
  {
    f := FiguresOf(s);
    SplitAt(s, NumeralLength(s));
    LegalOrSignAlone(f);
  }

  lemma LegalOrSignAlone(f: Figures)
    requires Digits(f.whole) && (f.fraction != None ==> Digits(f.fraction.value))
    requires (f.exponent != None ==> LegalExponent(f.exponent.value)) && (f.minus || f.whole != [])
    ensures LegalFigures(f) || FiguresText(f) == [MINUS]
  {
    assert [MINUS] + [] + [] + [] == [MINUS];
  }

  lemma FractionOf(s: bytes, at: nat) returns (fraction: Option<bytes>)
    requires at <= |s|
    ensures fraction != None ==> Digits(fraction.value)
    ensures s[at..FractionEnd(s, at)] == FractionText(fraction)
  {
    fraction := None;
    if DotAt(s, at) {
      var end := FractionEnd(s, at);
      RunIsDigits(s[at + 1..]);
      fraction := Some(s[at + 1..end]);
      assert s[at + 1..end] == s[at + 1..][..DigitRun(s[at + 1..])];
      assert s[at..end] == [s[at]] + s[at + 1..end];
    }
  }

  lemma ExponentOf(s: bytes, at: nat) returns (exponent: Option<Exponent>)
    requires at <= |s|
    ensures exponent != None ==> LegalExponent(exponent.value)
    ensures s[at..ExponentEnd(s, at)] == ExponentText(exponent)
  {
    exponent := None;
    if ExponentAt(s, at) {
      var end := ExponentEnd(s, at);
      var from := if SignAt(s, at + 1) then at + 2 else at + 1;
      RunIsDigits(s[from..]);
      assert s[from..end] == s[from..][..DigitRun(s[from..])];
      exponent := Some(Exponent(s[at], s[at + 1..from], s[from..end]));
      assert s[at..end] == [s[at]] + s[at + 1..from] + s[from..end];
    }
  }
}
