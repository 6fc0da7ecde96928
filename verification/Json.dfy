/** JSON values, the text they are printed as, and the parser that reads text back, all over bytes.

    Numbers are reals. How the C library reads a numeral and prints a number that is not a small
    integer is a parameter. */
module Json {
  import opened Basics
  import opened Bytes
  import Utf8

  datatype Value =
    | Null
    | Bool(b: bool)
    | Num(x: real)
    | Str(s: bytes)
    | Arr(items: seq<Value>)
    | Obj(members: seq<Member>)

  datatype Member = Member(key: bytes, value: Value)

  /** The C library's number conversions: `stod`, and printing with 17 significant digits. */
  datatype Conversions = Conversions(read: bytes -> Option<real>, show: real -> bytes)

  const INT_BOUND: int := 1_000_000_000_000_000

  const QUOTE: byte := '"' as int
  const BACKSLASH: byte := '\\' as int
  const COMMA: byte := ',' as int
  const COLON: byte := ':' as int
  const MINUS: byte := '-' as int
  const LBRACKET: byte := '[' as int
  const RBRACKET: byte := ']' as int
  const LBRACE: byte := '{' as int
  const RBRACE: byte := '}' as int
  const SPACE: byte := ' ' as int
  const NEWLINE: byte := '\n' as int
  const NULL_TEXT: bytes := ['n' as int, 'u' as int, 'l' as int, 'l' as int]
  const TRUE_TEXT: bytes := ['t' as int, 'r' as int, 'u' as int, 'e' as int]
  const FALSE_TEXT: bytes := ['f' as int, 'a' as int, 'l' as int, 's' as int, 'e' as int]

  predicate IsDigit(b: byte) {
    '0' as int <= b <= '9' as int
  }

  predicate IsWs(b: byte) {
    b == ' ' as int || b == '\t' as int || b == '\n' as int || b == '\r' as int
  }

  // ---- printing ----

  /** The decimal digits of a natural number. */
  function Decimal(n: nat): (s: bytes)
    ensures s != [] && forall i | 0 <= i < |s| :: IsDigit(s[i])
  {
    if n < 10 then ['0' as int + n] else Decimal(n / 10) + ['0' as int + n % 10]
  }

  function IntText(n: int): bytes {
    if n < 0 then [MINUS] + Decimal(-n) else Decimal(n)
  }

  predicate SmallInteger(x: real) {
    x == x.Floor as real && -INT_BOUND < x.Floor < INT_BOUND
  }

  function NumberText(c: Conversions, x: real): bytes {
    if SmallInteger(x) then IntText(x.Floor) else c.show(x)
  }

  function HexDigit(n: nat): byte
    requires n < 16
  {
    if n < 10 then '0' as int + n else 'a' as int + (n - 10)
  }

  /** The short escape letter of a control character or delimiter, if it has one. */
  function ShortEscape(c: byte): (letter: int)
    ensures -1 <= letter < 256
  {
    if c == '"' as int then '"' as int
    else if c == '\\' as int then '\\' as int
    else if c == 8 then 'b' as int
    else if c == 12 then 'f' as int
    else if c == 10 then 'n' as int
    else if c == 13 then 'r' as int
    else if c == 9 then 't' as int
    else -1
  }

  function EscapeByte(c: byte): (s: bytes)
    ensures s != [] && s[0] != QUOTE
  {
    if ShortEscape(c) >= 0 then [BACKSLASH, ShortEscape(c)]
    else if c < 0x20 then [BACKSLASH, 'u' as int, '0' as int, '0' as int, HexDigit(c / 16), HexDigit(c % 16)]
    else [c]
  }

  function EscapeAll(s: bytes): bytes {
    if s == [] then [] else EscapeByte(s[0]) + EscapeAll(s[1..])
  }

  function Quoted(s: bytes): bytes {
    [QUOTE] + EscapeAll(s) + [QUOTE]
  }

  function Spaces(n: nat): bytes {
    if n == 0 then [] else [SPACE] + Spaces(n - 1)
  }

  /** Line breaks and indentation appear when printing with a positive indent. */
  function Line(indent: int): bytes {
    if indent > 0 then [NEWLINE] else []
  }

  function Pad(indent: int, depth: nat): bytes {
    if indent > 0 then Spaces(indent * depth) else []
  }

  function Separator(more: bool): bytes {
    if more then [COMMA] else []
  }

  function AfterKey(indent: int): bytes {
    if indent > 0 then [COLON, SPACE] else [COLON]
  }

  function Dump(c: Conversions, v: Value, indent: int, depth: nat): bytes
    decreases v, 1
  {
    match v
    case Null => NULL_TEXT
    case Bool(b) => if b then TRUE_TEXT else FALSE_TEXT
    case Num(x) => NumberText(c, x)
    case Str(s) => Quoted(s)
    case Arr(items) =>
      if items == [] then [LBRACKET, RBRACKET]
      else [LBRACKET] + Line(indent) + DumpItems(c, items, indent, depth)
    case Obj(members) =>
      if members == [] then [LBRACE, RBRACE]
      else [LBRACE] + Line(indent) + DumpMembers(c, members, indent, depth)
  }

  /** The items from here on, each on its own line, and the closing bracket. */
  function DumpItems(c: Conversions, items: seq<Value>, indent: int, depth: nat): bytes
    decreases items, 0
  {
    if items == [] then Pad(indent, depth) + [RBRACKET]
    else
      Pad(indent, depth + 1) + Dump(c, items[0], indent, depth + 1) +
      Separator(|items| > 1) + Line(indent) + DumpItems(c, items[1..], indent, depth)
  }

  function DumpMembers(c: Conversions, members: seq<Member>, indent: int, depth: nat): bytes
    decreases members, 0
  {
    if members == [] then Pad(indent, depth) + [RBRACE]
    else
      Pad(indent, depth + 1) + Quoted(members[0].key) + AfterKey(indent) +
      Dump(c, members[0].value, indent, depth + 1) +
      Separator(|members| > 1) + Line(indent) + DumpMembers(c, members[1..], indent, depth)
  }

  // ---- parsing ----

  datatype Parsed<T> = Ok(value: T, rest: bytes) | Fail

  function SkipWs(s: bytes): (r: bytes)
    ensures |r| <= |s|
    ensures r != [] ==> !IsWs(r[0])
  {
    if s != [] && IsWs(s[0]) then SkipWs(s[1..]) else s
  }

  predicate StartsWith(s: bytes, prefix: bytes) {
    |prefix| <= |s| && s[..|prefix|] == prefix
  }

  function HexValue(c: byte): (v: int)
    ensures -1 <= v < 16
  {
    if '0' as int <= c <= '9' as int then c - '0' as int
    else if 'a' as int <= c <= 'f' as int then c - 'a' as int + 10
    else if 'A' as int <= c <= 'F' as int then c - 'A' as int + 10
    else -1
  }

  function ParseHex4(s: bytes): (r: Parsed<nat>)
    ensures r.Ok? ==> r.value < 0x1_0000 && |r.rest| < |s|
  {
    if |s| < 4 || HexValue(s[0]) < 0 || HexValue(s[1]) < 0 || HexValue(s[2]) < 0 || HexValue(s[3]) < 0
    then Fail
    else Ok(((HexValue(s[0]) * 16 + HexValue(s[1])) * 16 + HexValue(s[2])) * 16 + HexValue(s[3]), s[4..])
  }

  /** The second \u of a surrogate pair. */
  function ParseLowSurrogate(s: bytes): (r: Parsed<nat>)
    ensures r.Ok? ==> |r.rest| < |s| && 0xDC00 <= r.value <= 0xDFFF
  {
    if |s| < 2 || s[0] != BACKSLASH || s[1] != 'u' as int then Fail
    else
      match ParseHex4(s[2..])
      case Fail => Fail
      case Ok(low, rest) => if 0xDC00 <= low <= 0xDFFF then Ok(low, rest) else Fail
  }

  function Pair(high: nat, low: nat): (cp: nat)
    requires 0xD800 <= high <= 0xDBFF && 0xDC00 <= low <= 0xDFFF
    ensures cp < 0x11_0000
  {
    0x1_0000 + (high - 0xD800) * 1024 + (low - 0xDC00)
  }

  /** After a \u: four hex digits, or a surrogate pair, as UTF-8. */
  function ParseUnicode(s: bytes): (r: Parsed<bytes>)
    ensures r.Ok? ==> |r.rest| < |s|
  {
    match ParseHex4(s)
    case Fail => Fail
    case Ok(cp, rest) =>
      if 0xD800 <= cp <= 0xDBFF then
        match ParseLowSurrogate(rest)
        case Fail => Fail
        case Ok(low, rest') => Ok(Utf8.EncodeScalar(Pair(cp, low)), rest')
      else Ok(Utf8.EncodeScalar(cp), rest)
  }

  /** What a short escape stands for, or -1. */
  function Unescape(e: byte): (c: int)
    ensures -1 <= c < 256
  {
    if e == '"' as int then '"' as int
    else if e == '\\' as int then '\\' as int
    else if e == '/' as int then '/' as int
    else if e == 'b' as int then 8
    else if e == 'f' as int then 12
    else if e == 'n' as int then 10
    else if e == 'r' as int then 13
    else if e == 't' as int then 9
    else -1
  }

  /** The characters of a string literal after its opening quote, up to and including the closing
      one. */
  function ParseChars(s: bytes, acc: bytes): (r: Parsed<bytes>)
    ensures r.Ok? ==> |r.rest| < |s|
    decreases |s|
  {
    if s == [] then Fail
    else if s[0] == QUOTE then Ok(acc, s[1..])
    else if s[0] != BACKSLASH then ParseChars(s[1..], acc + [s[0]])
    else if |s| < 2 then Fail
    else if s[1] == 'u' as int then
      match ParseUnicode(s[2..])
      case Fail => Fail
      case Ok(text, rest) => ParseChars(rest, acc + text)
    else if Unescape(s[1]) >= 0 then ParseChars(s[2..], acc + [Unescape(s[1])])
    else Fail
  }

  function ParseString(s: bytes): (r: Parsed<bytes>)
    ensures r.Ok? ==> |r.rest| < |s|
  {
    if s == [] || s[0] != QUOTE then Fail else ParseChars(s[1..], [])
  }

  /** How many digits the text starts with. */
  function DigitRun(s: bytes): (n: nat)
    ensures n <= |s|
  {
    if s == [] || !IsDigit(s[0]) then 0 else 1 + DigitRun(s[1..])
  }

  /** Where the digits from `at` on end. */
  function DigitsEnd(s: bytes, at: nat): (n: nat)
    requires at <= |s|
    ensures at <= n <= |s|
  {
    at + DigitRun(s[at..])
  }

  function WholeEnd(s: bytes): (n: nat)
    ensures n <= |s|
  {
    DigitsEnd(s, if s != [] && s[0] == MINUS then 1 else 0)
  }

  predicate DotAt(s: bytes, at: nat) {
    at < |s| && s[at] == '.' as int
  }

  predicate ExponentAt(s: bytes, at: nat) {
    at < |s| && (s[at] == 'e' as int || s[at] == 'E' as int)
  }

  predicate SignAt(s: bytes, at: nat) {
    at < |s| && (s[at] == '+' as int || s[at] == '-' as int)
  }

  function FractionEnd(s: bytes, at: nat): (n: nat)
    requires at <= |s|
    ensures at <= n <= |s|
  {
    if DotAt(s, at) then DigitsEnd(s, at + 1) else at
  }

  function ExponentEnd(s: bytes, at: nat): (n: nat)
    requires at <= |s|
    ensures at <= n <= |s|
  {
    if ExponentAt(s, at) then DigitsEnd(s, if SignAt(s, at + 1) then at + 2 else at + 1) else at
  }

  /** The length of the numeral at the front: sign, digits, fraction, exponent, each as far as it
      goes. */
  function NumeralLength(s: bytes): (n: nat)
    ensures n <= |s|
  {
    ExponentEnd(s, FractionEnd(s, WholeEnd(s)))
  }

  function ParseNumber(c: Conversions, s: bytes): (r: Parsed<Value>)
    ensures r.Ok? ==> |r.rest| < |s|
  {
    var n := NumeralLength(s);
    if n == 0 || s[..n] == [MINUS] then Fail
    else
      match c.read(s[..n])
      case None => Fail
      case Some(x) => Ok(Num(x), s[n..])
  }

  function ParseWord(s: bytes): (r: Parsed<Value>)
    ensures r.Ok? ==> |r.rest| < |s|
  {
    if StartsWith(s, TRUE_TEXT) then Ok(Bool(true), s[4..])
    else if StartsWith(s, FALSE_TEXT) then Ok(Bool(false), s[5..])
    else if StartsWith(s, NULL_TEXT) then Ok(Null, s[4..])
    else Fail
  }

  function ParseValue(c: Conversions, s: bytes): (r: Parsed<Value>)
    ensures r.Ok? ==> |r.rest| < |s|
    decreases |s|, 0
  {
    var t := SkipWs(s);
    if t == [] then Fail
    else if t[0] == LBRACE then ParseObject(c, t[1..])
    else if t[0] == LBRACKET then ParseArray(c, t[1..])
    else if t[0] == QUOTE then
      match ParseString(t)
      case Fail => Fail
      case Ok(str, rest) => Ok(Str(str), rest)
    else if t[0] == 't' as int || t[0] == 'f' as int || t[0] == 'n' as int then ParseWord(t)
    else if t[0] == MINUS || IsDigit(t[0]) then ParseNumber(c, t)
    else Fail
  }

  /** An array after its opening bracket. */
  function ParseArray(c: Conversions, s: bytes): (r: Parsed<Value>)
    ensures r.Ok? ==> |r.rest| < |s|
    decreases |s|, 2
  {
    var u := SkipWs(s);
    if u != [] && u[0] == RBRACKET then Ok(Arr([]), u[1..])
    else
      match ParseItems(c, u, [])
      case Fail => Fail
      case Ok(items, rest) => Ok(Arr(items), rest)
  }

  /** The items of an array from here to its closing bracket, after those already read. */
  function ParseItems(c: Conversions, s: bytes, acc: seq<Value>): (r: Parsed<seq<Value>>)
    ensures r.Ok? ==> |r.rest| < |s|
    decreases |s|, 1
  {
    match ParseValue(c, s)
    case Fail => Fail
    case Ok(v, rest) =>
      var t := SkipWs(rest);
      if t == [] then Fail
      else if t[0] == COMMA then ParseItems(c, t[1..], acc + [v])
      else if t[0] == RBRACKET then Ok(acc + [v], t[1..])
      else Fail
  }

  /** An object after its opening brace. */
  function ParseObject(c: Conversions, s: bytes): (r: Parsed<Value>)
    ensures r.Ok? ==> |r.rest| < |s|
    decreases |s|, 2
  {
    var u := SkipWs(s);
    if u != [] && u[0] == RBRACE then Ok(Obj([]), u[1..])
    else
      match ParseMembers(c, u, [])
      case Fail => Fail
      case Ok(members, rest) => Ok(Obj(members), rest)
  }

  function ParseMember(c: Conversions, s: bytes): (r: Parsed<Member>)
    ensures r.Ok? ==> |r.rest| < |s|
    decreases |s|, 0
  {
    match ParseString(SkipWs(s))
    case Fail => Fail
    case Ok(key, afterKey) =>
      var colon := SkipWs(afterKey);
      if colon == [] || colon[0] != COLON then Fail
      else
        match ParseValue(c, colon[1..])
        case Fail => Fail
        case Ok(v, rest) => Ok(Member(key, v), rest)
  }

  function ParseMembers(c: Conversions, s: bytes, acc: seq<Member>): (r: Parsed<seq<Member>>)
    ensures r.Ok? ==> |r.rest| < |s|
    decreases |s|, 1
  {
    match ParseMember(c, s)
    case Fail => Fail
    case Ok(m, rest) =>
      var t := SkipWs(rest);
      if t == [] then Fail
      else if t[0] == COMMA then ParseMembers(c, t[1..], acc + [m])
      else if t[0] == RBRACE then Ok(acc + [m], t[1..])
      else Fail
  }

  /** A whole document: one value and nothing after it. */
  function ParseDocument(c: Conversions, s: bytes): Parsed<Value> {
    match ParseValue(c, s)
    case Fail => Fail
    case Ok(v, rest) => if SkipWs(rest) == [] then Ok(v, []) else Fail
  }
}
