/** The texts that are read, and what each means: every spelling of a value, with white space wherever it may
    stand, and the parser shown to accept exactly those. */
module JsonLanguage {
  import opened Basics
  import opened Bytes
  import opened Json
  import opened JsonGrammar
  import opened JsonRoundTrip
  import opened Sequences

  /** One way to write a value. The gap is what stands between brackets that hold nothing else. */
  datatype Spelling =
    | Word(v: Value)
    | Number(figures: Figures)
    | Text(chars: seq<Char>)
    | List(gap: bytes, items: seq<Item>)
    | Map(gap: bytes, fields: seq<Field>)

  /** A value between white space. */
  datatype Item = Item(before: bytes, value: Spelling, after: bytes)

  datatype Field = Field(before: bytes, key: seq<Char>, beforeColon: bytes, item: Item)

  predicate Legal(c: Conversions, sp: Spelling) {
    match sp
    case Word(v) => v.Null? || v.Bool?
    case Number(f) => LegalFigures(f) && c.read(FiguresText(f)) != None
    case Text(chars) => LegalChars(chars)
    case List(gap, items) =>
      AllWs(gap) && (items != [] ==> gap == []) && forall i | 0 <= i < |items| :: LegalItem(c, items[i])
    case Map(gap, fields) =>
      AllWs(gap) && (fields != [] ==> gap == []) && forall i | 0 <= i < |fields| :: LegalField(c, fields[i])
  }

  predicate LegalItem(c: Conversions, item: Item) {
    AllWs(item.before) && Legal(c, item.value) && AllWs(item.after)
  }

  predicate LegalField(c: Conversions, field: Field) {
    AllWs(field.before) && LegalChars(field.key) && AllWs(field.beforeColon) && LegalItem(c, field.item)
  }

  predicate LegalItems(c: Conversions, items: seq<Item>) {
    forall i | 0 <= i < |items| :: LegalItem(c, items[i])
  }

  predicate LegalFields(c: Conversions, fields: seq<Field>) {
    forall i | 0 <= i < |fields| :: LegalField(c, fields[i])
  }

  // ---- the text of a spelling ----

  function WordText(v: Value): bytes
    requires v.Null? || v.Bool?
  {
    if v.Null? then NULL_TEXT else if v.b then TRUE_TEXT else FALSE_TEXT
  }

  function QuotedText(chars: seq<Char>): bytes
    requires LegalChars(chars)
  {
    [QUOTE] + CharsText(chars) + [QUOTE]
  }

  function Written(c: Conversions, sp: Spelling): bytes
    requires Legal(c, sp)
    decreases sp, 1
  {
    match sp
    case Word(v) => WordText(v)
    case Number(f) => FiguresText(f)
    case Text(chars) => QuotedText(chars)
    case List(gap, items) =>
      if items == [] then [LBRACKET] + gap + [RBRACKET] else [LBRACKET] + WrittenItems(c, items)
    case Map(gap, fields) =>
      if fields == [] then [LBRACE] + gap + [RBRACE] else [LBRACE] + WrittenFields(c, fields)
  }

  function WrittenItem(c: Conversions, item: Item): bytes
    requires LegalItem(c, item)
    decreases item, 0
  {
    item.before + Written(c, item.value) + item.after
  }

  /** The items and the closing bracket. */
  function WrittenItems(c: Conversions, items: seq<Item>): bytes
    requires items != [] && LegalItems(c, items)
    decreases items, 0
  {
    WrittenItem(c, items[0]) + if |items| == 1 then [RBRACKET] else [COMMA] + WrittenItems(c, items[1..])
  }

  function WrittenField(c: Conversions, field: Field): bytes
    requires LegalField(c, field)
    decreases field, 0
  {
    field.before + QuotedText(field.key) + (field.beforeColon + ([COLON] + WrittenItem(c, field.item)))
  }

  function WrittenFields(c: Conversions, fields: seq<Field>): bytes
    requires fields != [] && LegalFields(c, fields)
    decreases fields, 0
  {
    WrittenField(c, fields[0]) + if |fields| == 1 then [RBRACE] else [COMMA] + WrittenFields(c, fields[1..])
  }

  // ---- its meaning ----

  function Meaning(c: Conversions, sp: Spelling): Value
    requires Legal(c, sp)
    decreases sp, 1
  {
    match sp
    case Word(v) => v
    case Number(f) => Num(c.read(FiguresText(f)).value)
    case Text(chars) => Str(CharsMeaning(chars))
    case List(_, items) => Arr(ItemMeanings(c, items))
    case Map(_, fields) => Obj(FieldMeanings(c, fields))
  }

  function ItemMeanings(c: Conversions, items: seq<Item>): seq<Value>
    requires LegalItems(c, items)
    decreases items, 0
  {
    if items == [] then [] else [Meaning(c, items[0].value)] + ItemMeanings(c, items[1..])
  }

  function FieldMeaning(c: Conversions, field: Field): Member
    requires LegalField(c, field)
    decreases field, 0
  {
    assert LegalItem(c, field.item);
    Member(CharsMeaning(field.key), Meaning(c, field.item.value))
  }

  function FieldMeanings(c: Conversions, fields: seq<Field>): seq<Member>
    requires LegalFields(c, fields)
    decreases fields, 0
  {
    if fields == [] then [] else [FieldMeaning(c, fields[0])] + FieldMeanings(c, fields[1..])
  }

  // ---- every spelling is read as what it means ----

  /** What follows an item or a field. */
  predicate Follows(tail: bytes) {
    tail != [] && (tail[0] == COMMA || tail[0] == RBRACKET || tail[0] == RBRACE)
  }

  lemma WsThenTail(ws: bytes, tail: bytes)
    requires AllWs(ws) && (Follows(tail) || tail == [])
    ensures Ends(ws + tail) && SkipWs(ws + tail) == tail
  {
    SkipsWs(ws, tail);
    if ws == [] {
      assert ws + tail == tail;
    } else {
      assert (ws + tail)[0] == ws[0];
    }
  }

  lemma SpellingStarts(c: Conversions, sp: Spelling)
    requires Legal(c, sp)
    ensures var s := Written(c, sp); s != [] && !IsWs(s[0]) && s[0] != RBRACKET && s[0] != RBRACE
  {
    if sp.Number? {
      FiguresStart(sp.figures);
    }
  }

  lemma WordReadsAs(c: Conversions, v: Value, rest: bytes)
    requires v.Null? || v.Bool?
    ensures ParseValue(c, WordText(v) + rest) == Ok(v, rest)
  {
    WordReads(c, v, 0, 0, rest);
  }

  lemma QuotedTextReads(chars: seq<Char>, rest: bytes)
    requires LegalChars(chars)
    ensures ParseString(QuotedText(chars) + rest) == Ok(CharsMeaning(chars), rest)
  {
    CharsRead(chars, rest, []);
    RestAfterFirst(QUOTE, CharsText(chars), [QUOTE], rest);
    assert [] + CharsMeaning(chars) == CharsMeaning(chars);
  }

  lemma TextReadsAs(c: Conversions, chars: seq<Char>, rest: bytes)
    requires LegalChars(chars)
    ensures ParseValue(c, QuotedText(chars) + rest) == Ok(Str(CharsMeaning(chars)), rest)
  {
    var s := QuotedText(chars) + rest;
    assert SkipWs(s) == s;
    QuotedTextReads(chars, rest);
  }

  lemma NothingReadsAs(c: Conversions, gap: bytes, rest: bytes)
    requires AllWs(gap)
    ensures ParseValue(c, [LBRACKET] + gap + [RBRACKET] + rest) == Ok(Arr([]), rest)
    ensures ParseValue(c, [LBRACE] + gap + [RBRACE] + rest) == Ok(Obj([]), rest)
  {
    RestAfterFirst(LBRACKET, gap, [RBRACKET], rest);
    WsThenTail(gap, [RBRACKET] + rest);
    assert ([RBRACKET] + rest)[1..] == rest;
    RestAfterFirst(LBRACE, gap, [RBRACE], rest);
    WsThenTail(gap, [RBRACE] + rest);
    assert ([RBRACE] + rest)[1..] == rest;
  }

  /** Every spelling reads as its meaning, whatever follows it. */
  lemma {:induction false} SpellingReads(c: Conversions, sp: Spelling, rest: bytes)
    requires Legal(c, sp) && Ends(rest)
    ensures ParseValue(c, Written(c, sp) + rest) == Ok(Meaning(c, sp), rest)
    decreases sp, 1
  {
    match sp
    case Word(v) => WordReadsAs(c, v, rest);
    case Number(f) => FiguresRead(c, f, rest);
    case Text(chars) => TextReadsAs(c, chars, rest);
    case List(gap, items) =>
      if items == [] {
        NothingReadsAs(c, gap, rest);
      } else {
        ItemsReadAs(c, items, rest, []);
        ListReadsAs(c, items, rest);
      }
    case Map(gap, fields) =>
      if fields == [] {
        NothingReadsAs(c, gap, rest);
      } else {
        FieldsReadAs(c, fields, rest, []);
        MapReadsAs(c, fields, rest);
      }
  }

  lemma {:induction false} ItemReadsAs(c: Conversions, item: Item, tail: bytes)
    requires LegalItem(c, item) && Follows(tail)
    ensures ParseValue(c, WrittenItem(c, item) + tail) == Ok(Meaning(c, item.value), item.after + tail)
    ensures SkipWs(item.after + tail) == tail
    decreases item, 0
  {
    var t, after := Written(c, item.value), item.after + tail;
    WsThenTail(item.after, tail);
    SpellingReads(c, item.value, after);
    Nested(item.before, t, item.after, tail);
    SkipsWs(item.before, t + after);
    LeadingWsIgnored(c, t + after);
    LeadingWsIgnored(c, item.before + (t + after));
  }

  /** What follows the first item, and the first field. */
  function ItemsAfter(c: Conversions, items: seq<Item>): bytes
    requires items != [] && LegalItems(c, items)
  {
    if |items| == 1 then [RBRACKET] else [COMMA] + WrittenItems(c, items[1..])
  }

  function FieldsAfter(c: Conversions, fields: seq<Field>): bytes
    requires fields != [] && LegalFields(c, fields)
  {
    if |fields| == 1 then [RBRACE] else [COMMA] + WrittenFields(c, fields[1..])
  }

  lemma {:induction false} ItemsReadAs(c: Conversions, items: seq<Item>, rest: bytes, acc: seq<Value>)
    requires items != [] && LegalItems(c, items)
    ensures ParseItems(c, WrittenItems(c, items) + rest, acc) == Ok(acc + ItemMeanings(c, items), rest)
    decreases items, 0
  {
    var first, after := WrittenItem(c, items[0]), ItemsAfter(c, items);
    var v, tail := Meaning(c, items[0].value), items[0].after + (after + rest);
    ItemReadsAs(c, items[0], after + rest);
    Assoc(first, after, rest);
    if |items| == 1 {
      ItemStep(c, first + (after + rest), acc, v, tail, rest);
      assert ItemMeanings(c, items) == [v];
    } else {
      var more := WrittenItems(c, items[1..]);
      Assoc([COMMA], more, rest);
      ItemStep(c, first + (after + rest), acc, v, tail, more + rest);
      ItemsReadAs(c, items[1..], rest, acc + [v]);
      Assoc(acc, [v], ItemMeanings(c, items[1..]));
    }
  }

  /** White space before the first item, and then no closing bracket. */
  lemma ItemsStartAs(c: Conversions, items: seq<Item>, rest: bytes)
    requires items != [] && LegalItems(c, items)
    ensures var u := SkipWs(WrittenItems(c, items) + rest); u != [] && u[0] != RBRACKET
  {
    var item, after := items[0], ItemsAfter(c, items);
    var t := Written(c, item.value);
    SpellingStarts(c, item.value);
    Assoc(WrittenItem(c, item), after, rest);
    Nested(item.before, t, item.after, after + rest);
    SkipsWs(item.before, t + (item.after + (after + rest)));
    SkipWsKeeps(t, item.after + (after + rest));
  }

  lemma ListReadsAs(c: Conversions, items: seq<Item>, rest: bytes)
    requires items != [] && LegalItems(c, items)
    requires ParseItems(c, WrittenItems(c, items) + rest, []) == Ok([] + ItemMeanings(c, items), rest)
    ensures ParseValue(c, [LBRACKET] + WrittenItems(c, items) + rest) == Ok(Arr(ItemMeanings(c, items)), rest)
  {
    var text := WrittenItems(c, items) + rest;
    ItemsStartAs(c, items, rest);
    SkippingTwice(text);
    ItemsIgnoreWs(c, SkipWs(text), text, []);
    Assoc([LBRACKET], WrittenItems(c, items), rest);
    assert ([LBRACKET] + text)[1..] == text;
    assert [] + ItemMeanings(c, items) == ItemMeanings(c, items);
  }

  lemma {:induction false} FieldReadsAs(c: Conversions, field: Field, tail: bytes)
    requires LegalField(c, field) && Follows(tail)
    ensures ParseMember(c, WrittenField(c, field) + tail) == Ok(FieldMeaning(c, field), field.item.after + tail)
    ensures SkipWs(field.item.after + tail) == tail
    decreases field, 0
  {
    var key, item := QuotedText(field.key), WrittenItem(c, field.item) + tail;
    var colon := [COLON] + item;
    ItemReadsAs(c, field.item, tail);
    FieldRegroups(field.before, key, field.beforeColon, [COLON], WrittenItem(c, field.item), tail);
    SkipsWs(field.before, key + (field.beforeColon + colon));
    SkipWsKeeps(key, field.beforeColon + colon);
    QuotedTextReads(field.key, field.beforeColon + colon);
    SkipsWs(field.beforeColon, colon);
    assert colon[1..] == item;
  }

  lemma FieldRegroups(a: bytes, b: bytes, c: bytes, d: bytes, e: bytes, f: bytes)
    ensures a + b + (c + (d + e)) + f == a + (b + (c + (d + (e + f))))
  {
  }

  lemma {:induction false} FieldsReadAs(c: Conversions, fields: seq<Field>, rest: bytes, acc: seq<Member>)
    requires fields != [] && LegalFields(c, fields)
    ensures ParseMembers(c, WrittenFields(c, fields) + rest, acc) == Ok(acc + FieldMeanings(c, fields), rest)
    decreases fields, 0
  {
    var first, after := WrittenField(c, fields[0]), FieldsAfter(c, fields);
    var m, tail := FieldMeaning(c, fields[0]), fields[0].item.after + (after + rest);
    FieldReadsAs(c, fields[0], after + rest);
    Assoc(first, after, rest);
    if |fields| == 1 {
      MemberStep(c, first + (after + rest), acc, m, tail, rest);
      assert FieldMeanings(c, fields) == [m];
    } else {
      var more := WrittenFields(c, fields[1..]);
      Assoc([COMMA], more, rest);
      MemberStep(c, first + (after + rest), acc, m, tail, more + rest);
      FieldsReadAs(c, fields[1..], rest, acc + [m]);
      Assoc(acc, [m], FieldMeanings(c, fields[1..]));
    }
  }

  lemma FieldsStartAs(c: Conversions, fields: seq<Field>, rest: bytes)
    requires fields != [] && LegalFields(c, fields)
    ensures var u := SkipWs(WrittenFields(c, fields) + rest); u != [] && u[0] != RBRACE
  {
    var field, after := fields[0], FieldsAfter(c, fields);
    var key, more := QuotedText(field.key), field.beforeColon + ([COLON] + WrittenItem(c, field.item));
    Assoc(WrittenField(c, field), after, rest);
    Nested(field.before, key, more, after + rest);
    SkipsWs(field.before, key + (more + (after + rest)));
    SkipWsKeeps(key, more + (after + rest));
  }

  lemma MapReadsAs(c: Conversions, fields: seq<Field>, rest: bytes)
    requires fields != [] && LegalFields(c, fields)
    requires ParseMembers(c, WrittenFields(c, fields) + rest, []) == Ok([] + FieldMeanings(c, fields), rest)
    ensures ParseValue(c, [LBRACE] + WrittenFields(c, fields) + rest) == Ok(Obj(FieldMeanings(c, fields)), rest)
  {
    var text := WrittenFields(c, fields) + rest;
    FieldsStartAs(c, fields, rest);
    SkippingTwice(text);
    MembersIgnoreWs(c, SkipWs(text), text, []);
    Assoc([LBRACE], WrittenFields(c, fields), rest);
    assert ([LBRACE] + text)[1..] == text;
    assert [] + FieldMeanings(c, fields) == FieldMeanings(c, fields);
  }

  // ---- whatever is read is a spelling ----

  lemma WordOf(s: bytes)
    requires ParseWord(s).Ok?
    ensures var v := ParseWord(s).value; (v.Null? || v.Bool?) && s == WordText(v) + ParseWord(s).rest
  {
    SplitAt(s, if StartsWith(s, FALSE_TEXT) then 5 else 4);
  }

  lemma QuotedTextOf(s: bytes) returns (chars: seq<Char>)
    requires ParseString(s).Ok?
    ensures LegalChars(chars) && s == QuotedText(chars) + ParseString(s).rest
    ensures ParseString(s).value == CharsMeaning(chars)
  {
    var rest := ParseString(s).rest;
    chars := CharsOf(s[1..], []);
    SplitAt(s, 1);
    assert s[..1] == [QUOTE];
    Nested([QUOTE], CharsText(chars), [QUOTE], rest);
    assert [] + CharsMeaning(chars) == CharsMeaning(chars);
  }

  /** Whatever is read as a value is white space and a spelling of that value. */
  lemma {:induction false} ValueOf(c: Conversions, s: bytes) returns (ws: bytes, sp: Spelling)
    requires ParseValue(c, s).Ok?
    ensures AllWs(ws) && Legal(c, sp) && Meaning(c, sp) == ParseValue(c, s).value
    ensures s == ws + (Written(c, sp) + ParseValue(c, s).rest)
    decreases |s|, 0
  {
    ws := WsApart(s);
    var t := SkipWs(s);
    if t[0] == LBRACE {
      sp := MapOf(c, t[1..]);
      SplitAt(t, 1);
      assert t[..1] == [LBRACE];
    } else if t[0] == LBRACKET {
      sp := ListOf(c, t[1..]);
      SplitAt(t, 1);
      assert t[..1] == [LBRACKET];
    } else if t[0] == QUOTE {
      var chars := QuotedTextOf(t);
      sp := Text(chars);
    } else if t[0] == MINUS || IsDigit(t[0]) {
      var f := NumberOf(c, t);
      sp := Number(f);
    } else {
      WordOf(t);
      sp := Word(ParseWord(t).value);
    }
  }

  lemma {:induction false} ItemOf(c: Conversions, s: bytes) returns (item: Item)
    requires ParseValue(c, s).Ok?
    ensures LegalItem(c, item) && Meaning(c, item.value) == ParseValue(c, s).value
    ensures s == WrittenItem(c, item) + SkipWs(ParseValue(c, s).rest)
    decreases |s|, 1
  {
    var rest := ParseValue(c, s).rest;
    var before, sp := ValueOf(c, s);
    var after := WsApart(rest);
    item := Item(before, sp, after);
    Nested(before, Written(c, sp), after, SkipWs(rest));
  }

  lemma {:induction false} ItemsOf(c: Conversions, s: bytes, acc: seq<Value>) returns (items: seq<Item>)
    requires ParseItems(c, s, acc).Ok?
    ensures items != [] && LegalItems(c, items)
    ensures ParseItems(c, s, acc).value == acc + ItemMeanings(c, items)
    ensures s == WrittenItems(c, items) + ParseItems(c, s, acc).rest
    decreases |s|, 2
  {
    var v, t := ParseValue(c, s).value, SkipWs(ParseValue(c, s).rest);
    var item := ItemOf(c, s);
    SplitAt(t, 1);
    items := [item];
    if t[0] == COMMA {
      var more := ItemsOf(c, t[1..], acc + [v]);
      items := [item] + more;
      assert items[1..] == more && t[..1] == [COMMA];
      Nested(WrittenItem(c, item), [COMMA], WrittenItems(c, more), ParseItems(c, s, acc).rest);
      Assoc(acc, [v], ItemMeanings(c, more));
    } else {
      assert t[..1] == [RBRACKET];
      Assoc(WrittenItem(c, item), [RBRACKET], t[1..]);
      assert ItemMeanings(c, items) == [v];
    }
  }

  lemma {:induction false} ListOf(c: Conversions, s: bytes) returns (sp: Spelling)
    requires ParseArray(c, s).Ok?
    ensures Legal(c, sp) && Meaning(c, sp) == ParseArray(c, s).value
    ensures [LBRACKET] + s == Written(c, sp) + ParseArray(c, s).rest
    decreases |s|, 3
  {
    var u := SkipWs(s);
    var rest := ParseArray(c, s).rest;
    if u != [] && u[0] == RBRACKET {
      var gap := WsApart(s);
      sp := List(gap, []);
      SplitAt(u, 1);
      assert u[..1] == [RBRACKET];
      Nested([LBRACKET], gap, [RBRACKET], rest);
    } else {
      SkippingTwice(s);
      ItemsIgnoreWs(c, u, s, []);
      var items := ItemsOf(c, s, []);
      sp := List([], items);
      assert [] + ItemMeanings(c, items) == ItemMeanings(c, items);
      Assoc([LBRACKET], WrittenItems(c, items), rest);
    }
  }

  lemma {:induction false} FieldOf(c: Conversions, s: bytes) returns (field: Field)
    requires ParseMember(c, s).Ok?
    ensures LegalField(c, field) && FieldMeaning(c, field) == ParseMember(c, s).value
    ensures s == WrittenField(c, field) + SkipWs(ParseMember(c, s).rest)
    decreases |s|, 1
  {
    var before := WsApart(s);
    var t := SkipWs(s);
    var key := QuotedTextOf(t);
    var afterKey := ParseString(t).rest;
    var beforeColon := WsApart(afterKey);
    var colon := SkipWs(afterKey);
    var item := ItemOf(c, colon[1..]);
    SplitAt(colon, 1);
    assert colon[..1] == [COLON];
    field := Field(before, key, beforeColon, item);
    FieldRegroups(before, QuotedText(key), beforeColon, [COLON], WrittenItem(c, item),
                  SkipWs(ParseMember(c, s).rest));
  }

  lemma {:induction false} FieldsOf(c: Conversions, s: bytes, acc: seq<Member>) returns (fields: seq<Field>)
    requires ParseMembers(c, s, acc).Ok?
    ensures fields != [] && LegalFields(c, fields)
    ensures ParseMembers(c, s, acc).value == acc + FieldMeanings(c, fields)
    ensures s == WrittenFields(c, fields) + ParseMembers(c, s, acc).rest
    decreases |s|, 2
  {
    var m, t := ParseMember(c, s).value, SkipWs(ParseMember(c, s).rest);
    var field := FieldOf(c, s);
    SplitAt(t, 1);
    fields := [field];
    if t[0] == COMMA {
      var more := FieldsOf(c, t[1..], acc + [m]);
      fields := [field] + more;
      assert fields[1..] == more && t[..1] == [COMMA];
      Nested(WrittenField(c, field), [COMMA], WrittenFields(c, more), ParseMembers(c, s, acc).rest);
      Assoc(acc, [m], FieldMeanings(c, more));
    } else {
      assert t[..1] == [RBRACE];
      Assoc(WrittenField(c, field), [RBRACE], t[1..]);
      assert FieldMeanings(c, fields) == [m];
    }
  }

  lemma {:induction false} MapOf(c: Conversions, s: bytes) returns (sp: Spelling)
    requires ParseObject(c, s).Ok?
    ensures Legal(c, sp) && Meaning(c, sp) == ParseObject(c, s).value
    ensures [LBRACE] + s == Written(c, sp) + ParseObject(c, s).rest
    decreases |s|, 3
  {
    var u := SkipWs(s);
    var rest := ParseObject(c, s).rest;
    if u != [] && u[0] == RBRACE {
      var gap := WsApart(s);
      sp := Map(gap, []);
      SplitAt(u, 1);
      assert u[..1] == [RBRACE];
      Nested([LBRACE], gap, [RBRACE], rest);
    } else {
      SkippingTwice(s);
      MembersIgnoreWs(c, u, s, []);
      var fields := FieldsOf(c, s, []);
      sp := Map([], fields);
      assert [] + FieldMeanings(c, fields) == FieldMeanings(c, fields);
      Assoc([LBRACE], WrittenFields(c, fields), rest);
    }
  }

  // ---- documents ----

  /** A document: a spelling between white space, nothing else. */
  predicate Spells(c: Conversions, s: bytes, item: Item) {
    LegalItem(c, item) && s == WrittenItem(c, item)
  }

  /** A document is accepted with a value exactly when it is a spelling of that value. */
  lemma ParsesExactly(c: Conversions, s: bytes, v: Value)
    ensures ParseDocument(c, s) == Ok(v, []) <==>
            exists item :: Spells(c, s, item) && Meaning(c, item.value) == v
  {
    if ParseDocument(c, s) == Ok(v, []) {
      var item := ItemOf(c, s);
      assert WrittenItem(c, item) + [] == WrittenItem(c, item);
      assert Spells(c, s, item);
    }
    if item :| Spells(c, s, item) && Meaning(c, item.value) == v {
      SpellingIsRead(c, s, item);
    }
  }

  lemma SpellingIsRead(c: Conversions, s: bytes, item: Item)
    requires Spells(c, s, item)
    ensures ParseDocument(c, s) == Ok(Meaning(c, item.value), [])
  {
    var t := Written(c, item.value);
    WsThenTail(item.after, []);
    assert item.after + [] == item.after;
    SpellingReads(c, item.value, item.after);
    Assoc(item.before, t, item.after);
    SkipsWs(item.before, t + item.after);
    LeadingWsIgnored(c, t + item.after);
    LeadingWsIgnored(c, s);
  }

  /** Everything else is refused. */
  lemma RefusesExactly(c: Conversions, s: bytes)
    ensures ParseDocument(c, s) == Fail <==> !exists item :: Spells(c, s, item)
  {
    var r := ParseDocument(c, s);
    if r != Fail {
      ParsesExactly(c, s, r.value);
    }
    if item :| Spells(c, s, item) {
      SpellingIsRead(c, s, item);
    }
  }
}
