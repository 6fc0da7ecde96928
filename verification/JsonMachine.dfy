/** The parser that advances a position through the text, and the printer that appends to an
    output, as they run; each is proved to compute what the functions of `Json` say. */
module JsonMachine {
  import opened Basics
  import opened Bytes
  import opened Json
  import opened Sequences
  import Utf8

  /** A parse and what a run of the parser returned agree: the same failures, the same values, the
      same text left to read. */
  predicate Agrees<T(==)>(expected: Parsed<T>, result: Option<T>, rest: bytes) {
    match expected
    case Fail => result == None
    case Ok(value, rest') => result == Some(value) && rest == rest'
  }

  class Parser {
    const conversions: Conversions
    const text: bytes
    var pos: nat

    constructor (conversions: Conversions, text: bytes)
      ensures this.conversions == conversions && this.text == text && pos == 0
    {
      this.conversions := conversions;
      this.text := text;
      pos := 0;
    }

    ghost predicate Valid()
      reads this
    {
      pos <= |text|
    }

    ghost function Rest(): bytes
      requires Valid()
      reads this
    {
      text[pos..]
    }

    /** Moving the position on drops that much of the text left to read. */
    lemma Advance(n: nat)
      requires Valid() && n <= |Rest()|
      ensures Rest()[n..] == text[pos + n..]
    {
    }

    method SkipWhitespace()
      requires Valid()
      modifies this`pos
      ensures Valid() && pos >= old(pos) && Rest() == SkipWs(old(Rest()))
    {
      while pos < |text| && IsWs(text[pos])
        invariant Valid() && pos >= old(pos)
        invariant SkipWs(Rest()) == SkipWs(old(Rest()))
      {
        Advance(1);
        pos := pos + 1;
      }
    }

    method SkipDigits()
      requires Valid()
      modifies this`pos
      ensures Valid() && pos == DigitsEnd(text, old(pos))
    {
      while pos < |text| && IsDigit(text[pos])
        invariant Valid() && pos >= old(pos)
        invariant DigitsEnd(text, pos) == DigitsEnd(text, old(pos))
      {
        Advance(1);
        pos := pos + 1;
      }
    }

    method ReadHex4() returns (r: Option<nat>)
      requires Valid()
      modifies this`pos
      ensures Valid() && pos >= old(pos)
      ensures Agrees(ParseHex4(old(Rest())), r, Rest())
    {
      ghost var s := Rest();
      var value: nat := 0;
      var i := 0;
      while i < 4
        invariant 0 <= i <= 4 && Valid() && pos == old(pos) + i
        invariant forall j | 0 <= j < i :: HexValue(s[j]) >= 0
        invariant i == 0 ==> value == 0
        invariant i == 1 ==> value == HexValue(s[0])
        invariant i == 2 ==> value == HexValue(s[0]) * 16 + HexValue(s[1])
        invariant i == 3 ==> value == (HexValue(s[0]) * 16 + HexValue(s[1])) * 16 + HexValue(s[2])
        invariant i == 4 ==>
                    value == ((HexValue(s[0]) * 16 + HexValue(s[1])) * 16 + HexValue(s[2])) * 16 + HexValue(s[3])
      {
        if pos >= |text| {
          return None;
        }
        var digit := HexValue(text[pos]);
        assert text[pos] == s[i];
        pos := pos + 1;
        if digit < 0 {
          return None;
        }
        value := value * 16 + digit;
        i := i + 1;
      }
      assert Rest() == s[4..];
      return Some(value);
    }

    method ReadUnicode() returns (r: Option<bytes>)
      requires Valid()
      modifies this`pos
      ensures Valid() && pos >= old(pos)
      ensures Agrees(ParseUnicode(old(Rest())), r, Rest())
    {
      var cp := ReadHex4();
      if cp == None {
        return None;
      }
      if !(0xD800 <= cp.value <= 0xDBFF) {
        return Some(Utf8.EncodeScalar(cp.value));
      }
      var low := ReadLowSurrogate();
      return if low == None then None else Some(Utf8.EncodeScalar(Pair(cp.value, low.value)));
    }

    method ReadLowSurrogate() returns (r: Option<nat>)
      requires Valid()
      modifies this`pos
      ensures Valid() && pos >= old(pos) && (r != None ==> 0xDC00 <= r.value <= 0xDFFF)
      ensures Agrees(ParseLowSurrogate(old(Rest())), r, Rest())
    {
      if pos + 1 >= |text| || text[pos] != BACKSLASH || text[pos + 1] != 'u' as int {
        return None;
      }
      Advance(2);
      pos := pos + 2;
      r := ReadHex4();
      if r != None && !(0xDC00 <= r.value <= 0xDFFF) {
        return None;
      }
    }

    /** A string literal, its opening quote included. */
    method ReadString() returns (r: Option<bytes>)
      requires Valid()
      modifies this`pos
      ensures Valid() && pos >= old(pos)
      ensures Agrees(ParseString(old(Rest())), r, Rest())
    {
      if pos >= |text| || text[pos] != QUOTE {
        return None;
      }
      Advance(1);
      pos := pos + 1;
      var out: bytes := [];
      while pos < |text| && text[pos] != QUOTE
        invariant Valid() && pos >= old(pos)
        invariant ParseChars(Rest(), out) == ParseString(old(Rest()))
        decreases |text| - pos
      {
        var more := ReadChar();
        if more == None {
          return None;
        }
        out := out + more.value;
      }
      if pos >= |text| {
        return None;
      }
      Advance(1);
      pos := pos + 1;
      return Some(out);
    }

    /** One character of a string literal, escaped or not: what it adds to the string. */
    method ReadChar() returns (r: Option<bytes>)
      requires Valid() && pos < |text| && text[pos] != QUOTE
      modifies this`pos
      ensures Valid() && pos > old(pos)
      ensures forall out: bytes ::
        ParseChars(old(Rest()), out) == if r == None then Fail else ParseChars(Rest(), out + r.value)
    {
      if text[pos] != BACKSLASH {
        r := Some([text[pos]]);
        Advance(1);
        pos := pos + 1;
        return;
      }
      if pos + 1 >= |text| {
        pos := pos + 1;
        return None;
      }
      var e := text[pos + 1];
      Advance(2);
      pos := pos + 2;
      if e == 'u' as int {
        r := ReadUnicode();
      } else if Unescape(e) >= 0 {
        r := Some([Unescape(e)]);
      } else {
        r := None;
      }
    }

    method ReadWord() returns (r: Option<Value>)
      requires Valid()
      modifies this`pos
      ensures Valid() && pos >= old(pos)
      ensures Agrees(ParseWord(old(Rest())), r, Rest())
    {
      if StartsWith(text[pos..], TRUE_TEXT) {
        Advance(4);
        pos := pos + 4;
        return Some(Bool(true));
      }
      if StartsWith(text[pos..], FALSE_TEXT) {
        Advance(5);
        pos := pos + 5;
        return Some(Bool(false));
      }
      if StartsWith(text[pos..], NULL_TEXT) {
        Advance(4);
        pos := pos + 4;
        return Some(Null);
      }
      return None;
    }

    method ReadNumber() returns (r: Option<Value>)
      requires Valid()
      modifies this`pos
      ensures Valid() && pos >= old(pos)
      ensures Agrees(ParseNumber(conversions, old(Rest())), r, Rest())
    {
      var start := pos;
      ScanNumeral();
      var token := text[start..pos];
      ghost var s := old(Rest());
      assert token == s[..NumeralLength(s)];
      assert Rest() == s[NumeralLength(s)..];
      if token == [] || token == [MINUS] {
        return None;
      }
      var x := conversions.read(token);
      if x == None {
        return None;
      }
      return Some(Num(x.value));
    }

    lemma DigitsEndShifts(start: nat, at: nat)
      requires start + at <= |text|
      ensures DigitsEnd(text[start..], at) + start == DigitsEnd(text, start + at)
    {
      assert text[start..][at..] == text[start + at..];
    }

    lemma FractionShifts(start: nat, at: nat)
      requires start + at <= |text|
      ensures start + FractionEnd(text[start..], at) == FractionEnd(text, start + at)
    {
      assert DotAt(text[start..], at) == DotAt(text, start + at);
      if DotAt(text, start + at) {
        DigitsEndShifts(start, at + 1);
      }
    }

    lemma ExponentShifts(start: nat, at: nat)
      requires start + at <= |text|
      ensures start + ExponentEnd(text[start..], at) == ExponentEnd(text, start + at)
    {
      assert ExponentAt(text[start..], at) == ExponentAt(text, start + at);
      assert SignAt(text[start..], at + 1) == SignAt(text, start + at + 1);
      if ExponentAt(text, start + at) {
        DigitsEndShifts(start, if SignAt(text, start + at + 1) then at + 2 else at + 1);
      }
    }

    /** Where the numeral that starts at a position ends, part by part. */
    lemma NumeralShifts(start: nat)
      requires start <= |text|
      ensures var whole := start + WholeEnd(text[start..]);
              start + NumeralLength(text[start..]) == ExponentEnd(text, FractionEnd(text, whole))
    {
      var s := text[start..];
      var whole := WholeEnd(s);
      var fraction := FractionEnd(s, whole);
      FractionShifts(start, whole);
      ExponentShifts(start, fraction);
      assert NumeralLength(s) == ExponentEnd(s, fraction);
    }

    method ScanNumeral()
      requires Valid()
      modifies this`pos
      ensures Valid() && pos == old(pos) + NumeralLength(old(Rest()))
    {
      NumeralShifts(pos);
      ScanWhole();
      ScanTail();
    }

    method ScanTail()
      requires Valid()
      modifies this`pos
      ensures Valid() && pos == ExponentEnd(text, FractionEnd(text, old(pos)))
    {
      ScanFraction();
      ScanExponent();
    }

    method ScanWhole()
      requires Valid()
      modifies this`pos
      ensures Valid() && pos == old(pos) + WholeEnd(old(Rest()))
    {
      if pos < |text| && text[pos] == MINUS {
        pos := pos + 1;
      }
      DigitsEndShifts(old(pos), pos - old(pos));
      SkipDigits();
    }

    method ScanFraction()
      requires Valid()
      modifies this`pos
      ensures Valid() && pos == FractionEnd(text, old(pos))
    {
      if pos < |text| && text[pos] == '.' as int {
        pos := pos + 1;
        SkipDigits();
      }
    }

    method ScanExponent()
      requires Valid()
      modifies this`pos
      ensures Valid() && pos == ExponentEnd(text, old(pos))
    {
      if pos < |text| && (text[pos] == 'e' as int || text[pos] == 'E' as int) {
        pos := pos + 1;
        if pos < |text| && (text[pos] == '+' as int || text[pos] == '-' as int) {
          pos := pos + 1;
        }
        SkipDigits();
      }
    }

    method ReadValue() returns (r: Option<Value>)
      requires Valid()
      modifies this`pos
      ensures Valid() && pos >= old(pos)
      ensures Agrees(ParseValue(conversions, old(Rest())), r, Rest())
      decreases |text| - pos, 1
    {
      SkipWhitespace();
      if pos >= |text| {
        return None;
      }
      var first := text[pos];
      if first == LBRACE {
        Advance(1);
        pos := pos + 1;
        r := ReadObject();
      } else if first == LBRACKET {
        Advance(1);
        pos := pos + 1;
        r := ReadArray();
      } else if first == QUOTE {
        var str := ReadString();
        r := if str == None then None else Some(Str(str.value));
      } else if first == 't' as int || first == 'f' as int || first == 'n' as int {
        r := ReadWord();
      } else if first == MINUS || IsDigit(first) {
        r := ReadNumber();
      } else {
        r := None;
      }
    }

    /** After an item: a comma, so that more follow, or the closing bracket. */
    method ReadSeparator(closer: byte) returns (more: Option<bool>)
      requires Valid() && closer != COMMA
      modifies this`pos
      ensures Valid() && pos >= old(pos)
      ensures var t := SkipWs(old(Rest()));
              if t != [] && (t[0] == COMMA || t[0] == closer) then more == Some(t[0] == COMMA) && Rest() == t[1..]
              else more == None
    {
      SkipWhitespace();
      if pos >= |text| {
        return None;
      }
      var c := text[pos];
      Advance(1);
      pos := pos + 1;
      more := if c == COMMA then Some(true) else if c == closer then Some(false) else None;
    }

    method ReadArray() returns (r: Option<Value>)
      requires Valid()
      modifies this`pos
      ensures Valid() && pos >= old(pos)
      ensures Agrees(ParseArray(conversions, old(Rest())), r, Rest())
      decreases |text| - pos, 4
    {
      SkipWhitespace();
      if pos < |text| && text[pos] == RBRACKET {
        Advance(1);
        pos := pos + 1;
        return Some(Arr([]));
      }
      var items := ReadItems();
      r := if items == None then None else Some(Arr(items.value));
    }

    method ReadItems() returns (r: Option<seq<Value>>)
      requires Valid()
      modifies this`pos
      ensures Valid() && pos >= old(pos)
      ensures Agrees(ParseItems(conversions, old(Rest()), []), r, Rest())
      decreases |text| - pos, 3
    {
      var items: seq<Value> := [];
      while true
        invariant Valid() && pos >= old(pos)
        invariant ParseItems(conversions, Rest(), items) == ParseItems(conversions, old(Rest()), [])
        decreases |text| - pos
      {
        var v := ReadValue();
        if v == None {
          return None;
        }
        items := items + [v.value];
        var more := ReadSeparator(RBRACKET);
        if more == None {
          return None;
        }
        if !more.value {
          return Some(items);
        }
      }
    }

    method ReadObject() returns (r: Option<Value>)
      requires Valid()
      modifies this`pos
      ensures Valid() && pos >= old(pos)
      ensures Agrees(ParseObject(conversions, old(Rest())), r, Rest())
      decreases |text| - pos, 4
    {
      SkipWhitespace();
      if pos < |text| && text[pos] == RBRACE {
        Advance(1);
        pos := pos + 1;
        return Some(Obj([]));
      }
      var members := ReadMembers();
      r := if members == None then None else Some(Obj(members.value));
    }

    method ReadMembers() returns (r: Option<seq<Member>>)
      requires Valid()
      modifies this`pos
      ensures Valid() && pos >= old(pos)
      ensures Agrees(ParseMembers(conversions, old(Rest()), []), r, Rest())
      decreases |text| - pos, 3
    {
      var members: seq<Member> := [];
      while true
        invariant Valid() && pos >= old(pos)
        invariant ParseMembers(conversions, Rest(), members) == ParseMembers(conversions, old(Rest()), [])
        decreases |text| - pos
      {
        var m := ReadMember();
        if m == None {
          return None;
        }
        members := members + [m.value];
        var more := ReadSeparator(RBRACE);
        if more == None {
          return None;
        }
        if !more.value {
          return Some(members);
        }
      }
    }

    method ReadMember() returns (r: Option<Member>)
      requires Valid()
      modifies this`pos
      ensures Valid() && pos >= old(pos)
      ensures Agrees(ParseMember(conversions, old(Rest())), r, Rest())
      decreases |text| - pos, 1
    {
      SkipWhitespace();
      var key := ReadString();
      if key == None {
        return None;
      }
      ghost var afterKey := Rest();
      assert ParseString(SkipWs(old(Rest()))) == Ok(key.value, afterKey);
      SkipWhitespace();
      if pos >= |text| || text[pos] != COLON {
        return None;
      }
      Advance(1);
      pos := pos + 1;
      assert Rest() == SkipWs(afterKey)[1..];
      var v := ReadValue();
      if v == None {
        return None;
      }
      return Some(Member(key.value, v.value));
    }

    method ReadDocument() returns (r: Option<Value>)
      requires Valid()
      modifies this`pos
      ensures Valid()
      ensures r == match ParseDocument(conversions, old(Rest())) case Ok(v, _) => Some(v) case Fail => None
    {
      var v := ReadValue();
      if v == None {
        return None;
      }
      SkipWhitespace();
      return if pos == |text| then v else None;
    }
  }

  // ---- printing ----

  method EscapeString(s: bytes) returns (out: bytes)
    ensures out == Quoted(s)
  {
    out := [QUOTE];
    for i := 0 to |s|
      invariant out + EscapeAll(s[i..]) == [QUOTE] + EscapeAll(s)
    {
      ghost var before := out;
      out := out + EscapeByte(s[i]);
      assert s[i..][1..] == s[i + 1..];
      assert before + (EscapeByte(s[i]) + EscapeAll(s[i + 1..])) == out + EscapeAll(s[i + 1..]);
    }
    assert out == [QUOTE] + EscapeAll(s);
    out := out + [QUOTE];
  }

  /** Appends the printed value to what has been printed so far. */
  method DumpTo(c: Conversions, v: Value, indent: int, depth: nat, out: bytes) returns (r: bytes)
    ensures r == out + Dump(c, v, indent, depth)
    decreases v, 1
  {
    match v
    case Null => r := out + NULL_TEXT;
    case Bool(b) => r := out + (if b then TRUE_TEXT else FALSE_TEXT);
    case Num(x) => r := out + NumberText(c, x);
    case Str(s) =>
      var quoted := EscapeString(s);
      r := out + quoted;
    case Arr(items) =>
      if items == [] {
        r := out + [LBRACKET, RBRACKET];
      } else {
        r := DumpItemsTo(c, items, indent, depth, out + [LBRACKET] + Line(indent));
        Assoc4(out, [LBRACKET], Line(indent), DumpItems(c, items, indent, depth));
      }
    case Obj(members) =>
      if members == [] {
        r := out + [LBRACE, RBRACE];
      } else {
        r := DumpMembersTo(c, members, indent, depth, out + [LBRACE] + Line(indent));
        Assoc4(out, [LBRACE], Line(indent), DumpMembers(c, members, indent, depth));
      }
  }

  method DumpItemsTo(c: Conversions, items: seq<Value>, indent: int, depth: nat, out: bytes) returns (r: bytes)
    ensures r == out + DumpItems(c, items, indent, depth)
    decreases items, 0
  {
    r := out;
    for i := 0 to |items|
      invariant r + DumpItems(c, items[i..], indent, depth) == out + DumpItems(c, items, indent, depth)
    {
      ghost var before := r;
      r := DumpTo(c, items[i], indent, depth + 1, r + Pad(indent, depth + 1));
      r := r + Separator(i + 1 < |items|) + Line(indent);
      Assoc6(before, Pad(indent, depth + 1), Dump(c, items[i], indent, depth + 1),
                  Separator(i + 1 < |items|), Line(indent), DumpItems(c, items[i + 1..], indent, depth));
      assert items[i..][1..] == items[i + 1..];
    }
    r := r + Pad(indent, depth) + [RBRACKET];
  }

  method DumpMembersTo(c: Conversions, members: seq<Member>, indent: int, depth: nat, out: bytes) returns (r: bytes)
    ensures r == out + DumpMembers(c, members, indent, depth)
    decreases members, 0
  {
    r := out;
    for i := 0 to |members|
      invariant r + DumpMembers(c, members[i..], indent, depth) == out + DumpMembers(c, members, indent, depth)
    {
      ghost var before := r;
      var key := EscapeString(members[i].key);
      r := DumpTo(c, members[i].value, indent, depth + 1, r + Pad(indent, depth + 1) + key + AfterKey(indent));
      r := r + Separator(i + 1 < |members|) + Line(indent);
      Assoc8(before, Pad(indent, depth + 1), key, AfterKey(indent),
                    Dump(c, members[i].value, indent, depth + 1),
                    Separator(i + 1 < |members|), Line(indent), DumpMembers(c, members[i + 1..], indent, depth));
      assert members[i..][1..] == members[i + 1..];
    }
    r := r + Pad(indent, depth) + [RBRACE];
  }

  /** The whole of `Value::dump`. */
  method DumpDocument(c: Conversions, v: Value, indent: int) returns (text: bytes)
    ensures text == Dump(c, v, indent, 0)
  {
    text := DumpTo(c, v, indent, 0, []);
  }
}
