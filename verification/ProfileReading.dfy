/** What a reader of the dump finds: each line split at its spaces into keys and values, each value under the
    key that names it. */
module ProfileReading {
  import opened Basics
  import opened ProfileDump
  import opened ProfileRuns
  import opened RpcProfile

  /** A text split at every separator. */
  function Pieces(s: string, sep: char): (pieces: seq<string>)
    ensures pieces != []
  {
    if s == "" then [""]
    else
      var front, last := Pieces(s[..|s| - 1], sep), s[|s| - 1];
      if last == sep then front + [""] else front[..|front| - 1] + [front[|front| - 1] + [last]]
  }

  lemma {:induction false} PiecesOneMore(s: string, sep: char, piece: string)
    requires sep !in piece
    ensures Pieces(s + [sep] + piece, sep) == Pieces(s, sep) + [piece]
    decreases |piece|
  {
    var t := s + [sep] + piece;
    if piece == "" {
      assert t[..|t| - 1] == s;
    } else {
      var n := |piece| - 1;
      PiecesOneMore(s, sep, piece[..n]);
      assert t[..|t| - 1] == s + [sep] + piece[..n];
      assert piece == piece[..n] + [piece[n]];
    }
  }

  lemma {:induction false} OnePiece(piece: string, sep: char)
    requires sep !in piece
    ensures Pieces(piece, sep) == [piece]
    decreases |piece|
  {
    if piece != "" {
      var n := |piece| - 1;
      OnePiece(piece[..n], sep);
      assert piece == piece[..n] + [piece[n]];
    }
  }

  // ---- numbers ----

  function Number(s: string): int {
    if s == "" then 0 else Number(s[..|s| - 1]) * 10 + (s[|s| - 1] as int - '0' as int)
  }

  lemma {:induction false} DigitsRead(n: nat)
    ensures Number(Digits(n)) == n
    ensures forall i | 0 <= i < |Digits(n)| :: '0' <= Digits(n)[i] <= '9'
  {
    var s := Digits(n);
    if n < 10 {
      assert s[..|s| - 1] == "";
    } else {
      DigitsRead(n / 10);
      assert s[..|s| - 1] == Digits(n / 10);
    }
  }

  lemma NoneInDigits(n: nat, sep: char)
    requires !('0' <= sep <= '9')
    ensures sep !in Digits(n)
  {
    DigitsRead(n);
  }

  function Numbers(pieces: seq<string>): seq<int> {
    seq(|pieces|, i requires 0 <= i < |pieces| => Number(pieces[i]))
  }

  /** The list of numbers reads back. */
  lemma {:induction false} CommaListReads(values: seq<u32>)
    requires values != []
    ensures Numbers(Pieces(CommaList(values), ',')) == values
    decreases |values|
  {
    var n := |values| - 1;
    NoneInDigits(values[n], ',');
    DigitsRead(values[n]);
    if n == 0 {
      OnePiece(Digits(values[0]), ',');
    } else {
      var front := CommaList(values[..n]);
      CommaListReads(values[..n]);
      PiecesOneMore(front, ',', Digits(values[n]));
      assert front + "," + Digits(values[n]) == front + [','] + Digits(values[n]);
      assert Numbers(Pieces(front, ',')) == values[..n];
      assert values == values[..n] + [values[n]];
    }
  }

  lemma {:induction false} NoSpaceInList(values: seq<u32>)
    ensures ' ' !in CommaList(values)
    decreases |values|
  {
    if values != [] {
      var n := |values| - 1;
      NoneInDigits(values[n], ' ');
      NoSpaceInList(values[..n]);
    }
  }

  // ---- keys and values ----

  datatype Field = Field(key: string, value: string)

  /** Where the key ends: at the first equals sign. */
  function KeyEnd(word: string): (n: nat)
    ensures n <= |word|
  {
    if word == "" || word[0] == '=' then 0 else 1 + KeyEnd(word[1..])
  }

  function FieldOf(word: string): Field {
    var n := KeyEnd(word);
    Field(word[..n], if n < |word| then word[n + 1..] else "")
  }

  lemma {:induction false} KeyEndIs(key: string, value: string)
    requires '=' !in key
    ensures KeyEnd(key + "=" + value) == |key|
    decreases |key|
  {
    var word := key + "=" + value;
    if key == "" {
      assert word[0] == '=';
    } else {
      KeyEndIs(key[1..], value);
      assert word[1..] == key[1..] + "=" + value;
    }
  }

  lemma FieldReads(key: string, value: string)
    requires '=' !in key
    ensures FieldOf(key + "=" + value) == Field(key, value)
  {
    KeyEndIs(key, value);
  }

  function FieldsOf(words: seq<string>): seq<Field> {
    seq(|words|, i requires 0 <= i < |words| => FieldOf(words[i]))
  }

  /** A line's keys and values, after the word that starts every line. */
  function ReadLine(line: string): seq<Field> {
    FieldsOf(Pieces(line, ' ')[1..])
  }

  /** How a key stands in a line. */
  predicate Keyed(text: string, key: string) {
    text == " " + key + "=" && ' ' !in key && '=' !in key
  }

  /** One more key and value at the end of a line. */
  lemma More(line: string, text: string, key: string, value: string)
    requires Keyed(text, key) && ' ' !in value
    ensures ReadLine(line + text + value) == ReadLine(line) + [Field(key, value)]
  {
    var word := key + "=" + value;
    assert line + text + value == line + [' '] + word;
    PiecesOneMore(line, ' ', word);
    FieldReads(key, value);
    var before := Pieces(line, ' ');
    assert (before + [word])[1..] == before[1..] + [word];
    assert FieldsOf(before[1..] + [word]) == FieldsOf(before[1..]) + [FieldOf(word)];
  }

  /** A number under its key. */
  function Counter(key: string, n: nat): (f: Field)
    ensures f.key == key && Number(f.value) == n
  {
    DigitsRead(n);
    Field(key, Digits(n))
  }

  lemma MoreDigits(line: string, text: string, key: string, n: nat)
    requires Keyed(text, key)
    ensures ReadLine(line + text + Digits(n)) == ReadLine(line) + [Counter(key, n)]
  {
    NoneInDigits(n, ' ');
    More(line, text, key, Digits(n));
  }

  lemma ThreeMore(line: string, t1: string, k1: string, n1: nat, t2: string, k2: string, n2: nat,
                  t3: string, k3: string, n3: nat)
    requires Keyed(t1, k1) && Keyed(t2, k2) && Keyed(t3, k3)
    ensures ReadLine(line + t1 + Digits(n1) + t2 + Digits(n2) + t3 + Digits(n3))
            == ReadLine(line) + [Counter(k1, n1), Counter(k2, n2), Counter(k3, n3)]
  {
    var s1 := line + t1 + Digits(n1);
    var s2 := s1 + t2 + Digits(n2);
    MoreDigits(line, t1, k1, n1);
    MoreDigits(s1, t2, k2, n2);
    MoreDigits(s2, t3, k3, n3);
  }

  // ---- the lines ----

  function End(worker: bool): Field {
    Field("end", if worker then "worker" else "client")
  }

  lemma FirstField(start: string, text: string, key: string, value: string)
    requires ' ' !in start && Keyed(text, key) && ' ' !in value
    ensures ReadLine(start + text + value) == [Field(key, value)]
  {
    OnePiece(start, ' ');
    More(start, text, key, value);
  }

  lemma HeadWords()
    ensures "VKRELAY2-PROFILE" + " end=" == "VKRELAY2-PROFILE end=" && ' ' !in "VKRELAY2-PROFILE"
  {
  }

  lemma EndWords(worker: bool)
    ensures Keyed(" end=", "end") && ' ' !in End(worker).value
  {
  }

  lemma HeadReads(worker: bool)
    ensures ReadLine(Head(worker)) == [End(worker)]
  {
    HeadWords();
    EndWords(worker);
    FirstField("VKRELAY2-PROFILE", " end=", "end", End(worker).value);
  }

  /** The least time as it is printed: 0 before there is one. */
  function Least(count: nat, us: u64): u64 {
    if count > 0 then us else 0
  }

  lemma CountKeys()
    ensures Keyed(" count=", "count") && Keyed(" bytes_out=", "bytes_out") && Keyed(" bytes_in=", "bytes_in")
  {
  }

  lemma TimeKeys()
    ensures Keyed(" total_us=", "total_us") && Keyed(" min_us=", "min_us") && Keyed(" max_us=", "max_us")
  {
  }

  lemma CountsRead(line: string, s: Stats)
    ensures ReadLine(WithCounts(line, s))
            == ReadLine(line) + [Counter("count", s.count), Counter("bytes_out", s.bytesOut),
                                 Counter("bytes_in", s.bytesIn)]
  {
    CountKeys();
    ThreeMore(line, " count=", "count", s.count, " bytes_out=", "bytes_out", s.bytesOut,
              " bytes_in=", "bytes_in", s.bytesIn);
  }

  lemma TimesRead(line: string, s: Stats)
    ensures ReadLine(WithTimes(line, s))
            == ReadLine(line) + [Counter("total_us", s.totalUs), Counter("min_us", Least(s.count, s.minUs)),
                                 Counter("max_us", s.maxUs)]
  {
    TimeKeys();
    ThreeMore(line, " total_us=", "total_us", s.totalUs, " min_us=", "min_us", Least(s.count, s.minUs),
              " max_us=", "max_us", s.maxUs);
  }

  lemma NameReads(worker: bool, name: string)
    requires ' ' !in name
    ensures ReadLine(Head(worker) + " op=" + name) == [End(worker), Field("op", name)]
  {
    HeadReads(worker);
    More(Head(worker), " op=", "op", name);
  }

  lemma MoreNumbers(line: string, text: string, key: string, values: seq<u32>)
    requires Keyed(text, key)
    ensures ReadLine(line + text + CommaList(values)) == ReadLine(line) + [Field(key, CommaList(values))]
  {
    NoSpaceInList(values);
    More(line, text, key, CommaList(values));
  }

  lemma ListKeys()
    ensures Keyed(" hist=", "hist") && Keyed(" frame_ring_us=", "frame_ring_us")
  {
  }

  /** The line of an operation tells its name and its counters, each under its key. The numbers of the last
      field are the histogram (`CommaListReads`). */
  lemma OpLineTells(worker: bool, name: string, s: Stats)
    requires ' ' !in name
    ensures ReadLine(OpLine(worker, name, s))
            == [End(worker), Field("op", name)]
               + [Counter("count", s.count), Counter("bytes_out", s.bytesOut), Counter("bytes_in", s.bytesIn)]
               + [Counter("total_us", s.totalUs), Counter("min_us", Least(s.count, s.minUs)),
                  Counter("max_us", s.maxUs)]
               + [Field("hist", CommaList(s.hist))]
  {
    var named := Head(worker) + " op=" + name;
    NameReads(worker, name);
    CountsRead(named, s);
    TimesRead(WithCounts(named, s), s);
    ListKeys();
    MoreNumbers(WithTimes(WithCounts(named, s), s), " hist=", "hist", s.hist);
  }

  lemma FrameKeys()
    ensures Keyed(" frames=", "frames") && Keyed(" frame_us_total=", "frame_us_total")
    ensures Keyed(" frame_us_min=", "frame_us_min")
  {
  }

  lemma MoreFrameKeys()
    ensures Keyed(" frame_us_max=", "frame_us_max") && Keyed(" frame_ops_total=", "frame_ops_total")
  {
  }

  lemma LastFrameKey()
    ensures Keyed(" frame_bytes_total=", "frame_bytes_total")
  {
  }

  /** The frame line likewise. */
  lemma FramesLineTells(worker: bool, f: Frames)
    ensures ReadLine(FramesLine(worker, f))
            == [End(worker)]
               + [Counter("frames", f.frames), Counter("frame_us_total", f.usTotal),
                  Counter("frame_us_min", Least(f.frames, f.usMin))]
               + [Counter("frame_us_max", f.usMax), Counter("frame_ops_total", f.opsTotal),
                  Counter("frame_bytes_total", f.bytesTotal)]
  {
    FrameKeys();
    MoreFrameKeys();
    LastFrameKey();
    HeadReads(worker);
    var first := Head(worker) + " frames=" + Digits(f.frames) + " frame_us_total=" + Digits(f.usTotal)
      + " frame_us_min=" + Digits(Least(f.frames, f.usMin));
    ThreeMore(Head(worker), " frames=", "frames", f.frames, " frame_us_total=", "frame_us_total", f.usTotal,
              " frame_us_min=", "frame_us_min", Least(f.frames, f.usMin));
    ThreeMore(first, " frame_us_max=", "frame_us_max", f.usMax, " frame_ops_total=", "frame_ops_total", f.opsTotal,
              " frame_bytes_total=", "frame_bytes_total", f.bytesTotal);
  }

  lemma PhaseKeys()
    ensures Keyed(" record_phases=", "record_phases") && Keyed(" commands=", "commands")
    ensures Keyed(" json_parse_us=", "json_parse_us")
  {
  }

  lemma MorePhaseKeys()
    ensures Keyed(" decode_us=", "decode_us") && Keyed(" validate_us=", "validate_us")
    ensures Keyed(" replay_us=", "replay_us") && Keyed(" execute_us=", "execute_us")
  {
  }

  /** The worker's phases. */
  lemma PhasesLineTells(worker: bool, p: Phases)
    ensures ReadLine(PhasesLine(worker, p))
            == [End(worker)]
               + [Counter("record_phases", p.count), Counter("commands", p.commands),
                  Counter("json_parse_us", p.jsonParseUs)]
               + [Counter("decode_us", p.decodeUs), Counter("validate_us", p.validateUs),
                  Counter("replay_us", p.replayUs)]
               + [Counter("execute_us", p.executeUs)]
  {
    PhaseKeys();
    MorePhaseKeys();
    HeadReads(worker);
    var first := Head(worker) + " record_phases=" + Digits(p.count) + " commands=" + Digits(p.commands)
      + " json_parse_us=" + Digits(p.jsonParseUs);
    ThreeMore(Head(worker), " record_phases=", "record_phases", p.count, " commands=", "commands", p.commands,
              " json_parse_us=", "json_parse_us", p.jsonParseUs);
    var second := first + " decode_us=" + Digits(p.decodeUs) + " validate_us=" + Digits(p.validateUs)
      + " replay_us=" + Digits(p.replayUs);
    ThreeMore(first, " decode_us=", "decode_us", p.decodeUs, " validate_us=", "validate_us", p.validateUs,
              " replay_us=", "replay_us", p.replayUs);
    MoreDigits(second, " execute_us=", "execute_us", p.executeUs);
  }

  lemma SweepKeys()
    ensures Keyed(" upload_sweep=", "upload_sweep") && Keyed(" scan_bytes=", "scan_bytes")
    ensures Keyed(" sweep_us=", "sweep_us")
  {
  }

  lemma MoreSweepKeys()
    ensures Keyed(" filtered_bytes=", "filtered_bytes") && Keyed(" payload_bytes=", "payload_bytes")
  {
  }

  /** The client's upload sweep. */
  lemma SweepLineTells(worker: bool, u: Sweep)
    ensures ReadLine(SweepLine(worker, u))
            == [End(worker)]
               + [Counter("upload_sweep", u.count), Counter("scan_bytes", u.scanBytes),
                  Counter("filtered_bytes", u.filteredBytes)]
               + [Counter("payload_bytes", u.payloadBytes)] + [Counter("sweep_us", u.us)]
  {
    SweepKeys();
    MoreSweepKeys();
    HeadReads(worker);
    var first := Head(worker) + " upload_sweep=" + Digits(u.count) + " scan_bytes=" + Digits(u.scanBytes)
      + " filtered_bytes=" + Digits(u.filteredBytes);
    ThreeMore(Head(worker), " upload_sweep=", "upload_sweep", u.count, " scan_bytes=", "scan_bytes", u.scanBytes,
              " filtered_bytes=", "filtered_bytes", u.filteredBytes);
    MoreDigits(first, " payload_bytes=", "payload_bytes", u.payloadBytes);
    MoreDigits(first + " payload_bytes=" + Digits(u.payloadBytes), " sweep_us=", "sweep_us", u.us);
  }

  /** The last frame times, for every run that shows them. */
  lemma RingLineTells(events: seq<Event>) returns (values: seq<u32>)
    requires RingShown(Run(Empty(true), events))
    ensures var s := Run(Empty(true), events);
            ReadLine(RingLine(s)) == [End(s.worker)] + [Field("frame_ring_us", CommaList(values))]
    ensures Numbers(Pieces(CommaList(values), ',')) == values
    ensures var times := FrameTimes(Presents(events));
            W64(|times|) <= |times| && values == LastOf(times, Min(W64(|times|), RING))
  {
    var s := Run(Empty(true), events);
    values := RingValues(s);
    HeadReads(s.worker);
    ListKeys();
    MoreNumbers(Head(s.worker), " frame_ring_us=", "frame_ring_us", values);
    assert |values| == Min(s.ringTotal, RING);
    CommaListReads(values);
    RingListsLastFrames(events);
  }

  // ---- the whole dump ----

  predicate OneLine(line: string) {
    '\n' !in line
  }

  /** The dump splits into its lines at the line breaks. */
  lemma {:induction false} TextReads(lines: seq<string>)
    requires forall i | 0 <= i < |lines| :: OneLine(lines[i])
    ensures Pieces(Text(lines), '\n') == lines + [""]
    decreases |lines|
  {
    if lines != [] {
      var n := |lines| - 1;
      var front, last := Text(lines[..n]), lines[n];
      TextReads(lines[..n]);
      PiecesAfterBreak(front, lines[..n], last);
      var text := front + last + "\n";
      assert text[..|text| - 1] == front + last;
      assert lines == lines[..n] + [last];
    }
  }

  lemma {:induction false} PiecesAfterBreak(front: string, before: seq<string>, line: string)
    requires OneLine(line) && Pieces(front, '\n') == before + [""]
    ensures Pieces(front + line, '\n') == before + [line]
    decreases |line|
  {
    var s := front + line;
    if line == "" {
      assert s == front;
    } else {
      var n := |line| - 1;
      PiecesAfterBreak(front, before, line[..n]);
      assert s[..|s| - 1] == front + line[..n];
      assert line == line[..n] + [line[n]];
    }
  }
}
