/** Parsing what was printed gives back the same value tree. */
module JsonRoundTrip {
  import opened Basics
  import opened Bytes
  import opened Json
  import opened Sequences

  // ---- what the C library is relied on for ----

  predicate AllDigits(s: bytes) {
    s != [] && forall i | 0 <= i < |s| :: IsDigit(s[i])
  }

  /** The number a run of digits denotes. */
  function DigitsValue(s: bytes): (n: int)
    requires forall i | 0 <= i < |s| :: IsDigit(s[i])
  {
    if s == [] then 0 else DigitsValue(s[..|s| - 1]) * 10 + (s[|s| - 1] - '0' as int)
  }

  /** `stod` is exact on decimal integers below 1e15 in magnitude: they are all doubles. */
  ghost predicate ReadsIntegers(c: Conversions) {
    forall t | AllDigits(t) && DigitsValue(t) < INT_BOUND ::
      && c.read(t) == Some(DigitsValue(t) as real)
      && c.read([MINUS] + t) == Some((-DigitsValue(t)) as real)
  }

  predicate StartsNumeral(b: byte) {
    b == MINUS || IsDigit(b)
  }

  /** A whole token of the number scanner. */
  predicate Numeral(t: bytes) {
    t != [] && StartsNumeral(t[0]) && t != [MINUS] && NumeralLength(t) == |t|
  }

  /** A number the library prints and reads back unchanged. */
  predicate Exact(c: Conversions, x: real) {
    SmallInteger(x) || (Numeral(c.show(x)) && c.read(c.show(x)) == Some(x))
  }

  predicate Printable(c: Conversions, v: Value) {
    match v
    case Num(x) => Exact(c, x)
    case Arr(items) => forall i | 0 <= i < |items| :: Printable(c, items[i])
    case Obj(members) => forall i | 0 <= i < |members| :: Printable(c, members[i].value)
    case _ => true
  }

  // ---- white space ----

  lemma {:induction false} SkipsSpaces(n: nat, s: bytes)
    ensures SkipWs(Spaces(n) + s) == SkipWs(s)
  {
    if n == 0 {
      assert Spaces(n) + s == s;
    } else {
      SkipsSpaces(n - 1, s);
      assert (Spaces(n) + s)[1..] == Spaces(n - 1) + s;
    }
  }

  lemma SkipsPad(indent: int, depth: nat, s: bytes)
    ensures SkipWs(Pad(indent, depth) + s) == SkipWs(s)
  {
    if indent > 0 {
      SkipsSpaces(indent * depth, s);
    } else {
      assert Pad(indent, depth) + s == s;
    }
  }

  lemma SkipsLine(indent: int, s: bytes)
    ensures SkipWs(Line(indent) + s) == SkipWs(s)
  {
    if indent > 0 {
      assert (Line(indent) + s)[1..] == s;
    } else {
      assert Line(indent) + s == s;
    }
  }

  lemma SkippingTwice(s: bytes)
    ensures SkipWs(SkipWs(s)) == SkipWs(s)
  {
  }

  /** What may follow a value. */
  predicate Ends(rest: bytes) {
    rest == [] || rest[0] == COMMA || rest[0] == RBRACKET || rest[0] == RBRACE || IsWs(rest[0])
  }

  // ---- strings ----

  lemma HexDigitReads(n: nat)
    requires n < 16
    ensures HexValue(HexDigit(n)) == n
  {
  }

  lemma ControlReads(c: byte, tail: bytes)
    requires c < 0x20
    ensures ParseUnicode(['0' as int, '0' as int, HexDigit(c / 16), HexDigit(c % 16)] + tail) == Ok([c], tail)
  {
    HexDigitReads(c / 16);
    HexDigitReads(c % 16);
    var s: bytes := ['0' as int, '0' as int, HexDigit(c / 16), HexDigit(c % 16)] + tail;
    assert s[4..] == tail;
    assert ParseHex4(s) == Ok(c as nat, tail);
  }

  lemma EscapedByteReads(c: byte, tail: bytes, acc: bytes)
    ensures ParseChars(EscapeByte(c) + tail, acc) == ParseChars(tail, acc + [c])
  {
    var s := EscapeByte(c) + tail;
    if ShortEscape(c) >= 0 {
      assert s[2..] == tail;
    } else if c < 0x20 {
      ControlReads(c, tail);
      assert s[2..] == ['0' as int, '0' as int, HexDigit(c / 16), HexDigit(c % 16)] + tail;
    } else {
      assert s[1..] == tail;
    }
  }

  lemma {:induction false} EscapedReads(s: bytes, rest: bytes, acc: bytes)
    ensures ParseChars(EscapeAll(s) + ([QUOTE] + rest), acc) == Ok(acc + s, rest)
    decreases |s|
  {
    var tail := [QUOTE] + rest;
    if s == [] {
      assert EscapeAll(s) + tail == tail;
      assert tail[1..] == rest && acc + s == acc;
    } else {
      Assoc(EscapeByte(s[0]), EscapeAll(s[1..]), tail);
      EscapedByteReads(s[0], EscapeAll(s[1..]) + tail, acc);
      EscapedReads(s[1..], rest, acc + [s[0]]);
      FirstMoves(acc, s);
    }
  }

  /** Every byte string survives quoting. */
  lemma QuotedReads(s: bytes, rest: bytes)
    ensures ParseString(Quoted(s) + rest) == Ok(s, rest)
  {
    EscapedReads(s, rest, []);
    RestAfterFirst(QUOTE, EscapeAll(s), [QUOTE], rest);
    assert [] + s == s;
  }

  // ---- numbers ----

  lemma {:induction false} DecimalDenotes(n: nat)
    ensures DigitsValue(Decimal(n)) == n
  {
    var s := Decimal(n);
    if n >= 10 {
      DecimalDenotes(n / 10);
      assert s[..|s| - 1] == Decimal(n / 10);
    } else {
      assert s[..|s| - 1] == [];
    }
  }

  lemma {:induction false} DigitRunStops(s: bytes, rest: bytes)
    requires rest == [] || !IsDigit(rest[0])
    ensures DigitRun(s + rest) == DigitRun(s)
    decreases |s|
  {
    if s == [] {
      assert s + rest == rest;
    } else {
      DigitRunStops(s[1..], rest);
      assert (s + rest)[1..] == s[1..] + rest;
    }
  }

  lemma {:induction false} DigitRunOfDigits(s: bytes)
    requires forall i | 0 <= i < |s| :: IsDigit(s[i])
    ensures DigitRun(s) == |s|
    decreases |s|
  {
    if s != [] {
      DigitRunOfDigits(s[1..]);
    }
  }

  lemma DigitsEndStops(t: bytes, rest: bytes, at: nat)
    requires at <= |t| && Ends(rest)
    ensures DigitsEnd(t + rest, at) == DigitsEnd(t, at)
  {
    DigitRunStops(t[at..], rest);
    assert (t + rest)[at..] == t[at..] + rest;
  }

  lemma WholeEndStops(t: bytes, rest: bytes)
    requires t != [] && Ends(rest)
    ensures WholeEnd(t + rest) == WholeEnd(t)
  {
    DigitsEndStops(t, rest, if t[0] == MINUS then 1 else 0);
  }

  lemma FractionEndStops(t: bytes, rest: bytes, at: nat)
    requires at <= |t| && Ends(rest)
    ensures FractionEnd(t + rest, at) == FractionEnd(t, at)
  {
    assert DotAt(t + rest, at) == DotAt(t, at);
    if DotAt(t, at) {
      DigitsEndStops(t, rest, at + 1);
    }
  }

  lemma ExponentEndStops(t: bytes, rest: bytes, at: nat)
    requires at <= |t| && Ends(rest)
    ensures ExponentEnd(t + rest, at) == ExponentEnd(t, at)
  {
    assert ExponentAt(t + rest, at) == ExponentAt(t, at);
    if ExponentAt(t, at) {
      assert SignAt(t + rest, at + 1) == SignAt(t, at + 1);
      DigitsEndStops(t, rest, if SignAt(t, at + 1) then at + 2 else at + 1);
    }
  }

  /** A numeral is scanned alike with or without what follows it. */
  lemma NumeralStops(t: bytes, rest: bytes)
    requires t != [] && Ends(rest)
    ensures NumeralLength(t + rest) == NumeralLength(t)
  {
    WholeEndStops(t, rest);
    FractionEndStops(t, rest, WholeEnd(t));
    ExponentEndStops(t, rest, FractionEnd(t, WholeEnd(t)));
  }

  lemma IntTextReads(c: Conversions, n: int)
    requires ReadsIntegers(c) && -INT_BOUND < n < INT_BOUND
    ensures Numeral(IntText(n)) && c.read(IntText(n)) == Some(n as real)
  {
    var digits := Decimal(if n < 0 then -n else n);
    DecimalDenotes(if n < 0 then -n else n);
    DigitRunOfDigits(digits);
    assert AllDigits(digits);
    if n < 0 {
      assert IntText(n) == [MINUS] + digits && IntText(n)[1..] == digits;
    } else {
      assert IntText(n)[0..] == digits;
    }
  }

  lemma NumberTextReads(c: Conversions, x: real)
    requires ReadsIntegers(c) && Exact(c, x)
    ensures Numeral(NumberText(c, x)) && c.read(NumberText(c, x)) == Some(x)
  {
    if SmallInteger(x) {
      IntTextReads(c, x.Floor);
    }
  }

  lemma NumeralReads(c: Conversions, t: bytes, x: real, rest: bytes)
    requires Numeral(t) && c.read(t) == Some(x) && Ends(rest)
    ensures ParseValue(c, t + rest) == Ok(Num(x), rest)
  {
    var s := t + rest;
    NumeralStops(t, rest);
    assert s[..|t|] == t && s[|t|..] == rest;
    assert SkipWs(s) == s;
  }

  lemma NumberReads(c: Conversions, x: real, rest: bytes)
    requires ReadsIntegers(c) && Exact(c, x) && Ends(rest)
    ensures ParseValue(c, NumberText(c, x) + rest) == Ok(Num(x), rest)
  {
    NumberTextReads(c, x);
    NumeralReads(c, NumberText(c, x), x, rest);
  }

  // ---- value trees ----

  /** A printed value starts with a byte that is neither white space nor a closing bracket. */
  lemma DumpStarts(c: Conversions, v: Value, indent: int, depth: nat)
    requires ReadsIntegers(c) && Printable(c, v)
    ensures var s := Dump(c, v, indent, depth);
            s != [] && !IsWs(s[0]) && s[0] != RBRACKET && s[0] != RBRACE
  {
    if v.Num? {
      NumberTextReads(c, v.x);
    }
  }

  lemma SkipWsKeeps(s: bytes, rest: bytes)
    requires s != [] && !IsWs(s[0])
    ensures SkipWs(s + rest) == s + rest
  {
  }

  lemma WordReads(c: Conversions, v: Value, indent: int, depth: nat, rest: bytes)
    requires v.Null? || v.Bool?
    ensures ParseValue(c, Dump(c, v, indent, depth) + rest) == Ok(v, rest)
  {
    var s := Dump(c, v, indent, depth) + rest;
    assert SkipWs(s) == s;
    if v.Bool? && !v.b {
      assert s[..5] == FALSE_TEXT && s[5..] == rest;
    } else {
      assert s[..4] == Dump(c, v, indent, depth) && s[4..] == rest;
    }
  }

  lemma StringReads(c: Conversions, str: bytes, rest: bytes)
    ensures ParseValue(c, Quoted(str) + rest) == Ok(Str(str), rest)
  {
    var s := Quoted(str) + rest;
    assert SkipWs(s) == s;
    QuotedReads(str, rest);
  }

  /** Reading a value does not depend on the white space before it. */
  lemma LeadingWsIgnored(c: Conversions, s: bytes)
    ensures ParseValue(c, SkipWs(s)) == ParseValue(c, s)
  {
    SkippingTwice(s);
  }

  /** Every printed tree reads back as itself, at every indent and depth, whatever follows. */
  lemma {:induction false} ValueReads(c: Conversions, v: Value, indent: int, depth: nat, rest: bytes)
    requires ReadsIntegers(c) && Printable(c, v) && Ends(rest)
    ensures ParseValue(c, Dump(c, v, indent, depth) + rest) == Ok(v, rest)
    decreases v, 1
  {
    match v
    case Null => WordReads(c, v, indent, depth, rest);
    case Bool(_) => WordReads(c, v, indent, depth, rest);
    case Num(x) => NumberReads(c, x, rest);
    case Str(str) => StringReads(c, str, rest);
    case Arr(items) =>
      if items == [] {
        EmptyReads(c, v, indent, depth, rest);
      } else {
        ItemsRead(c, items, indent, depth, rest, []);
        ArrayReads(c, items, indent, depth, rest);
      }
    case Obj(members) =>
      if members == [] {
        EmptyReads(c, v, indent, depth, rest);
      } else {
        MembersRead(c, members, indent, depth, rest, []);
        ObjectReads(c, members, indent, depth, rest);
      }
  }

  lemma EmptyReads(c: Conversions, v: Value, indent: int, depth: nat, rest: bytes)
    requires v == Arr([]) || v == Obj([])
    ensures ParseValue(c, Dump(c, v, indent, depth) + rest) == Ok(v, rest)
  {
    var s := Dump(c, v, indent, depth) + rest;
    assert SkipWs(s) == s;
    assert SkipWs(s[1..]) == s[1..];
    assert s[1..][1..] == rest;
  }

  lemma FirstMoves<T>(acc: seq<T>, items: seq<T>)
    requires items != []
    ensures acc + [items[0]] + items[1..] == acc + items
    ensures |items| == 1 ==> acc + [items[0]] == acc + items
  {
  }

  // ---- arrays ----

  /** What follows an array's first item in its printed text. */
  function ItemTail(c: Conversions, items: seq<Value>, indent: int, depth: nat): (s: bytes)
    requires items != []
    ensures Ends(s) && s != []
  {
    Separator(|items| > 1) + Line(indent) + DumpItems(c, items[1..], indent, depth)
  }

  lemma ItemsStart(c: Conversions, items: seq<Value>, indent: int, depth: nat, rest: bytes)
    requires items != []
    ensures var value := Dump(c, items[0], indent, depth + 1) + (ItemTail(c, items, indent, depth) + rest);
            SkipWs(DumpItems(c, items, indent, depth) + rest) == SkipWs(value)
  {
    var first := Dump(c, items[0], indent, depth + 1);
    var tail := ItemTail(c, items, indent, depth);
    Nested6(Pad(indent, depth + 1), first, Separator(|items| > 1), Line(indent),
                DumpItems(c, items[1..], indent, depth), rest);
    SkipsPad(indent, depth + 1, first + (tail + rest));
  }

  /** Reading an array's items does not depend on the white space before the first. */
  lemma ItemsIgnoreWs(c: Conversions, s: bytes, t: bytes, acc: seq<Value>)
    requires SkipWs(s) == SkipWs(t)
    ensures ParseItems(c, s, acc) == ParseItems(c, t, acc)
  {
    LeadingWsIgnored(c, s);
    LeadingWsIgnored(c, t);
  }

  lemma ItemStep(c: Conversions, s: bytes, acc: seq<Value>, v: Value, tail: bytes, more: bytes)
    requires ParseValue(c, s) == Ok(v, tail)
    requires SkipWs(tail) == [COMMA] + more || SkipWs(tail) == [RBRACKET] + more
    ensures ParseItems(c, s, acc)
            == if SkipWs(tail)[0] == COMMA then ParseItems(c, more, acc + [v]) else Ok(acc + [v], more)
  {
    assert SkipWs(tail)[1..] == more;
  }

  lemma CommaTail(indent: int, more: bytes, rest: bytes)
    ensures SkipWs(Separator(true) + Line(indent) + more + rest) == [COMMA] + (Line(indent) + (more + rest))
  {
    assert Separator(true) + Line(indent) + more + rest == [COMMA] + (Line(indent) + (more + rest));
  }

  lemma CloserTail(indent: int, depth: nat, closer: byte, rest: bytes)
    requires !IsWs(closer)
    ensures SkipWs(Separator(false) + Line(indent) + (Pad(indent, depth) + [closer]) + rest) == [closer] + rest
  {
    var padded := Pad(indent, depth) + ([closer] + rest);
    assert Separator(false) + Line(indent) + (Pad(indent, depth) + [closer]) + rest == Line(indent) + padded;
    SkipsLine(indent, padded);
    SkipsPad(indent, depth, [closer] + rest);
  }

  /** One item is read, and the rest of the array is left to read. */
  lemma ItemReads(c: Conversions, items: seq<Value>, indent: int, depth: nat, rest: bytes, acc: seq<Value>)
    requires items != []
    requires var tail := ItemTail(c, items, indent, depth) + rest;
             ParseValue(c, Dump(c, items[0], indent, depth + 1) + tail) == Ok(items[0], tail)
    ensures ParseItems(c, DumpItems(c, items, indent, depth) + rest, acc)
            == if |items| == 1 then Ok(acc + [items[0]], rest)
               else ParseItems(c, DumpItems(c, items[1..], indent, depth) + rest, acc + [items[0]])
  {
    var tail := ItemTail(c, items, indent, depth) + rest;
    var value := Dump(c, items[0], indent, depth + 1) + tail;
    var more := DumpItems(c, items[1..], indent, depth);
    ItemsStart(c, items, indent, depth, rest);
    ItemsIgnoreWs(c, DumpItems(c, items, indent, depth) + rest, value, acc);
    if |items| > 1 {
      CommaTail(indent, more, rest);
      ItemStep(c, value, acc, items[0], tail, Line(indent) + (more + rest));
      SkipsLine(indent, more + rest);
      ItemsIgnoreWs(c, Line(indent) + (more + rest), more + rest, acc + [items[0]]);
    } else {
      CloserTail(indent, depth, RBRACKET, rest);
      ItemStep(c, value, acc, items[0], tail, rest);
    }
  }

  lemma {:induction false} ItemsRead(c: Conversions, items: seq<Value>, indent: int, depth: nat, rest: bytes,
                                     acc: seq<Value>)
    requires ReadsIntegers(c) && items != []
    requires forall i | 0 <= i < |items| :: Printable(c, items[i])
    ensures ParseItems(c, DumpItems(c, items, indent, depth) + rest, acc) == Ok(acc + items, rest)
    decreases items, 0
  {
    var next := acc + [items[0]];
    assert ParseItems(c, DumpItems(c, items, indent, depth) + rest, acc)
           == if |items| == 1 then Ok(next, rest)
              else ParseItems(c, DumpItems(c, items[1..], indent, depth) + rest, next) by {
      ValueReads(c, items[0], indent, depth + 1, ItemTail(c, items, indent, depth) + rest);
      ItemReads(c, items, indent, depth, rest, acc);
    }
    FirstMoves(acc, items);
    if |items| > 1 {
      ItemsRead(c, items[1..], indent, depth, rest, next);
    }
  }

  lemma BracketReads(c: Conversions, indent: int, text: bytes, items: seq<Value>, rest: bytes)
    requires ParseItems(c, text, []) == Ok(items, rest)
    requires SkipWs(text) != [] && SkipWs(text)[0] != RBRACKET
    ensures ParseValue(c, [LBRACKET] + (Line(indent) + text)) == Ok(Arr(items), rest)
  {
    var body := Line(indent) + text;
    var s := [LBRACKET] + body;
    assert SkipWs(s) == s && s[1..] == body;
    SkipsLine(indent, text);
    SkippingTwice(text);
    ItemsIgnoreWs(c, SkipWs(body), text, []);
  }

  lemma FirstItemStarts(c: Conversions, items: seq<Value>, indent: int, depth: nat, rest: bytes)
    requires ReadsIntegers(c) && items != [] && Printable(c, items[0])
    ensures var s := SkipWs(DumpItems(c, items, indent, depth) + rest); s != [] && s[0] != RBRACKET
  {
    ItemsStart(c, items, indent, depth, rest);
    DumpStarts(c, items[0], indent, depth + 1);
    SkipWsKeeps(Dump(c, items[0], indent, depth + 1), ItemTail(c, items, indent, depth) + rest);
  }

  lemma ArrayReads(c: Conversions, items: seq<Value>, indent: int, depth: nat, rest: bytes)
    requires ReadsIntegers(c) && items != [] && Printable(c, items[0])
    requires ParseItems(c, DumpItems(c, items, indent, depth) + rest, []) == Ok([] + items, rest)
    ensures ParseValue(c, Dump(c, Arr(items), indent, depth) + rest) == Ok(Arr(items), rest)
  {
    var text := DumpItems(c, items, indent, depth);
    FirstItemStarts(c, items, indent, depth, rest);
    assert [] + items == items;
    BracketReads(c, indent, text + rest, items, rest);
    Nested([LBRACKET], Line(indent), text, rest);
  }

  // ---- objects ----

  /** What follows an object's first member in its printed text. */
  function MemberTail(c: Conversions, members: seq<Member>, indent: int, depth: nat): (s: bytes)
    requires members != []
    ensures Ends(s) && s != []
  {
    Separator(|members| > 1) + Line(indent) + DumpMembers(c, members[1..], indent, depth)
  }

  lemma MembersStart(c: Conversions, members: seq<Member>, indent: int, depth: nat, rest: bytes)
    requires members != []
    ensures var value := Dump(c, members[0].value, indent, depth + 1) + (MemberTail(c, members, indent, depth) + rest);
            var u := SkipWs(DumpMembers(c, members, indent, depth) + rest);
            u == Quoted(members[0].key) + (AfterKey(indent) + value) && u[0] == QUOTE
  {
    var value := Dump(c, members[0].value, indent, depth + 1) + (MemberTail(c, members, indent, depth) + rest);
    var u := Quoted(members[0].key) + (AfterKey(indent) + value);
    Nested8(Pad(indent, depth + 1), Quoted(members[0].key), AfterKey(indent),
                  Dump(c, members[0].value, indent, depth + 1), Separator(|members| > 1), Line(indent),
                  DumpMembers(c, members[1..], indent, depth), rest);
    SkipsPad(indent, depth + 1, u);
    SkipWsKeeps(Quoted(members[0].key), AfterKey(indent) + value);
  }

  lemma KeyReads(c: Conversions, indent: int, value: bytes)
    ensures var colon := SkipWs(AfterKey(indent) + value);
            colon != [] && colon[0] == COLON && ParseValue(c, colon[1..]) == ParseValue(c, value)
  {
    var colon := AfterKey(indent) + value;
    assert SkipWs(colon) == colon;
    if indent > 0 {
      assert colon[1..][1..] == value;
      assert SkipWs(colon[1..]) == SkipWs(value);
      LeadingWsIgnored(c, colon[1..]);
      LeadingWsIgnored(c, value);
    } else {
      assert colon[1..] == value;
    }
  }

  lemma MembersIgnoreWs(c: Conversions, s: bytes, t: bytes, acc: seq<Member>)
    requires SkipWs(s) == SkipWs(t)
    ensures ParseMembers(c, s, acc) == ParseMembers(c, t, acc)
  {
  }

  lemma MemberHead(c: Conversions, members: seq<Member>, indent: int, depth: nat, rest: bytes)
    requires members != []
    requires var tail := MemberTail(c, members, indent, depth) + rest;
             ParseValue(c, Dump(c, members[0].value, indent, depth + 1) + tail) == Ok(members[0].value, tail)
    ensures ParseMember(c, DumpMembers(c, members, indent, depth) + rest)
            == Ok(members[0], MemberTail(c, members, indent, depth) + rest)
  {
    var value := Dump(c, members[0].value, indent, depth + 1) + (MemberTail(c, members, indent, depth) + rest);
    MembersStart(c, members, indent, depth, rest);
    QuotedReads(members[0].key, AfterKey(indent) + value);
    KeyReads(c, indent, value);
  }

  lemma MemberStep(c: Conversions, s: bytes, acc: seq<Member>, m: Member, tail: bytes, more: bytes)
    requires ParseMember(c, s) == Ok(m, tail)
    requires SkipWs(tail) == [COMMA] + more || SkipWs(tail) == [RBRACE] + more
    ensures ParseMembers(c, s, acc)
            == if SkipWs(tail)[0] == COMMA then ParseMembers(c, more, acc + [m]) else Ok(acc + [m], more)
  {
    assert SkipWs(tail)[1..] == more;
  }

  /** One member is read, and the rest of the object is left to read. */
  lemma MemberReads(c: Conversions, members: seq<Member>, indent: int, depth: nat, rest: bytes, acc: seq<Member>)
    requires members != []
    requires var tail := MemberTail(c, members, indent, depth) + rest;
             ParseValue(c, Dump(c, members[0].value, indent, depth + 1) + tail) == Ok(members[0].value, tail)
    ensures ParseMembers(c, DumpMembers(c, members, indent, depth) + rest, acc)
            == if |members| == 1 then Ok(acc + [members[0]], rest)
               else ParseMembers(c, DumpMembers(c, members[1..], indent, depth) + rest, acc + [members[0]])
  {
    var m := members[0];
    var s := DumpMembers(c, members, indent, depth) + rest;
    var tail := MemberTail(c, members, indent, depth) + rest;
    var more := DumpMembers(c, members[1..], indent, depth);
    MemberHead(c, members, indent, depth, rest);
    if |members| > 1 {
      CommaTail(indent, more, rest);
      MemberStep(c, s, acc, m, tail, Line(indent) + (more + rest));
      SkipsLine(indent, more + rest);
      MembersIgnoreWs(c, Line(indent) + (more + rest), more + rest, acc + [m]);
    } else {
      CloserTail(indent, depth, RBRACE, rest);
      MemberStep(c, s, acc, m, tail, rest);
    }
  }

  lemma {:induction false} MembersRead(c: Conversions, members: seq<Member>, indent: int, depth: nat, rest: bytes,
                                       acc: seq<Member>)
    requires ReadsIntegers(c) && members != []
    requires forall i | 0 <= i < |members| :: Printable(c, members[i].value)
    ensures ParseMembers(c, DumpMembers(c, members, indent, depth) + rest, acc) == Ok(acc + members, rest)
    decreases members, 0
  {
    var next := acc + [members[0]];
    assert ParseMembers(c, DumpMembers(c, members, indent, depth) + rest, acc)
           == if |members| == 1 then Ok(next, rest)
              else ParseMembers(c, DumpMembers(c, members[1..], indent, depth) + rest, next) by {
      ValueReads(c, members[0].value, indent, depth + 1, MemberTail(c, members, indent, depth) + rest);
      MemberReads(c, members, indent, depth, rest, acc);
    }
    FirstMoves(acc, members);
    if |members| > 1 {
      MembersRead(c, members[1..], indent, depth, rest, next);
    }
  }

  lemma BraceReads(c: Conversions, indent: int, text: bytes, members: seq<Member>, rest: bytes)
    requires ParseMembers(c, text, []) == Ok(members, rest)
    requires SkipWs(text) != [] && SkipWs(text)[0] != RBRACE
    ensures ParseValue(c, [LBRACE] + (Line(indent) + text)) == Ok(Obj(members), rest)
  {
    var body := Line(indent) + text;
    var s := [LBRACE] + body;
    assert SkipWs(s) == s && s[1..] == body;
    SkipsLine(indent, text);
    SkippingTwice(text);
    MembersIgnoreWs(c, SkipWs(body), text, []);
  }

  lemma ObjectReads(c: Conversions, members: seq<Member>, indent: int, depth: nat, rest: bytes)
    requires members != []
    requires ParseMembers(c, DumpMembers(c, members, indent, depth) + rest, []) == Ok([] + members, rest)
    ensures ParseValue(c, Dump(c, Obj(members), indent, depth) + rest) == Ok(Obj(members), rest)
  {
    var text := DumpMembers(c, members, indent, depth);
    MembersStart(c, members, indent, depth, rest);
    assert [] + members == members;
    BraceReads(c, indent, text + rest, members, rest);
    Nested([LBRACE], Line(indent), text, rest);
  }

  /** Parsing a dump returns the tree that was dumped: every byte string, every order of members,
      repeated keys included, compact or at any indent. */
  lemma DocumentRoundTrip(c: Conversions, v: Value, indent: int)
    requires ReadsIntegers(c) && Printable(c, v)
    ensures ParseDocument(c, Dump(c, v, indent, 0)) == Ok(v, [])
  {
    ValueReads(c, v, indent, 0, []);
    assert Dump(c, v, indent, 0) + [] == Dump(c, v, indent, 0);
  }

  /** Two trees with the same text are the same tree. */
  lemma DumpIsInjective(c: Conversions, v: Value, w: Value, indent: int)
    requires ReadsIntegers(c) && Printable(c, v) && Printable(c, w)
    requires Dump(c, v, indent, 0) == Dump(c, w, indent, 0)
    ensures v == w
  {
    DocumentRoundTrip(c, v, indent);
    DocumentRoundTrip(c, w, indent);
  }
}
