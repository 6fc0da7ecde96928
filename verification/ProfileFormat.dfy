/** The dump into a fixed buffer, through a cursor that never writes past its end. */
module ProfileFormat {
  import opened Basics
  import opened RpcProfile
  import opened ProfileRuns
  import opened ProfileDump

  const MAX_DIGITS := 20

  function Pow10(n: nat): nat {
    if n == 0 then 1 else 10 * Pow10(n - 1)
  }

  function Reversed(s: string): string {
    if s == "" then "" else [s[|s| - 1]] + Reversed(s[..|s| - 1])
  }

  /** The digits of the part of a number that is left, if any is. */
  function DigitsLeft(n: nat): string {
    if n == 0 then "" else Digits(n)
  }

  lemma DigitMoves(v: nat, done: string)
    requires v > 0
    ensures DigitsLeft(v) + Reversed(done) == DigitsLeft(v / 10) + Reversed(done + [DigitChar(v % 10)])
  {
    var more := done + [DigitChar(v % 10)];
    assert more[..|done|] == done;
    if v >= 10 {
      assert Digits(v) + Reversed(done) == Digits(v / 10) + ([DigitChar(v % 10)] + Reversed(done));
    }
  }

  lemma {:induction false} PowAdds(a: nat, b: nat)
    ensures Pow10(a + b) == Pow10(a) * Pow10(b)
  {
    if b > 0 {
      PowAdds(a, b - 1);
      assert Pow10(a + b) == 10 * Pow10(a + (b - 1));
    }
  }

  lemma {:induction false} FewDigits(v: nat, k: nat)
    requires v < Pow10(k) && k > 0
    ensures |Digits(v)| <= k
  {
    if v >= 10 {
      FewDigits(v / 10, k - 1);
    }
  }

  lemma U64HasTwentyDigits(v: u64)
    ensures |Digits(v)| <= MAX_DIGITS
  {
    assert Pow10(5) == 100000;
    PowAdds(5, 5);
    PowAdds(10, 10);
    FewDigits(v, MAX_DIGITS);
  }

  /** Some digits of the number are left exactly as long as fewer than all are done. */
  lemma DigitsToGo(v: nat, left: nat, done: string)
    requires DigitsLeft(left) + Reversed(done) == Digits(v)
    ensures |done| <= |Digits(v)| && (left != 0 ==> |done| < |Digits(v)|)
  {
    ReversedLength(done);
    assert |DigitsLeft(left)| + |Reversed(done)| == |Digits(v)|;
  }

  /** The decimal digits of a number, last one first. */
  method ToDigits(v: u64) returns (tmp: array<char>, n: nat)
    ensures fresh(tmp) && 0 < n <= tmp.Length && Reversed(tmp[..n]) == Digits(v)
  {
    U64HasTwentyDigits(v);
    tmp := new char[MAX_DIGITS];
    tmp[0] := DigitChar(v % 10);
    var left: nat := v / 10;
    n := 1;
    FirstDigit(v, tmp[..1]);
    while left != 0
      invariant 0 < n <= tmp.Length
      invariant DigitsLeft(left) + Reversed(tmp[..n]) == Digits(v)
    {
      DigitsToGo(v, left, tmp[..n]);
      DigitMoves(left, tmp[..n]);
      tmp[n] := DigitChar(left % 10);
      assert tmp[..n + 1] == tmp[..n] + [tmp[n]];
      left := left / 10;
      n := n + 1;
    }
  }

  lemma FirstDigit(v: nat, first: string)
    requires first == [DigitChar(v % 10)]
    ensures DigitsLeft(v / 10) + Reversed(first) == Digits(v)
  {
    assert first[..0] == "";
    assert Reversed(first) == [first[0]] + Reversed(first[..0]);
  }

  class Cursor {
    const buf: array<char>
    var len: nat
    var overflow: bool
    // What was in the buffer when the current line began, and what has been put since.
    ghost var base: string
    ghost var line: string

    constructor (buf: array<char>)
      ensures this.buf == buf && Ready() && Value() == Emitted("", false)
    {
      this.buf := buf;
      len := 0;
      overflow := false;
      base := "";
      line := "";
    }

    ghost predicate Ready()
      reads this
    {
      len <= buf.Length
    }

    ghost function Value(): Emitted
      requires Ready()
      reads this, buf
    {
      Emitted(buf[..len], overflow)
    }

    /** In the middle of a line: the overflow flag is up exactly when the line so far does not fit. */
    ghost predicate InLine()
      reads this, buf
    {
      && |base| <= len <= buf.Length && buf[..|base|] == base
      && overflow == (|base| + |line| > buf.Length)
      && (!overflow ==> buf[..len] == base + line)
    }

    method Put(s: string)
      requires InLine()
      modifies this`len, this`overflow, this`line, buf
      ensures InLine() && base == old(base) && line == old(line) + s
    {
      line := line + s;
      if overflow || len + |s| > buf.Length {
        overflow := true;
        return;
      }
      Copy(s);
      assert base + old(line) + s == base + line;
    }

    method Copy(s: string)
      requires len + |s| <= buf.Length
      modifies this`len, buf
      ensures len == old(len) + |s| && buf[..len] == old(buf[..len]) + s
    {
      for i := 0 to |s|
        invariant len == old(len) && buf[..len + i] == old(buf[..len]) + s[..i]
      {
        buf[len + i] := s[i];
        assert buf[..len + i + 1] == buf[..len + i] + [s[i]];
        assert s[..i + 1] == s[..i] + [s[i]];
      }
      len := len + |s|;
    }

    method PutNumber(v: u64)
      requires InLine()
      modifies this`len, this`overflow, this`line, buf
      ensures InLine() && base == old(base) && line == old(line) + Digits(v)
    {
      var tmp, n := ToDigits(v);
      ghost var digits := Reversed(tmp[..n]);
      ReversedLength(tmp[..n]);
      line := line + digits;
      if overflow || len + n > buf.Length {
        overflow := true;
        return;
      }
      CopyBack(tmp, n);
      assert base + old(line) + digits == base + line;
    }

    /** Writes the first `n` characters last one first. */
    method CopyBack(tmp: array<char>, n: nat)
      requires n <= tmp.Length && len + n <= buf.Length && tmp != buf
      modifies this`len, buf
      ensures len == old(len) + n && buf[..len] == old(buf[..len]) + Reversed(tmp[..n])
    {
      var k := n;
      while k > 0
        invariant 0 <= k <= n && len == old(len) + n - k
        invariant buf[..len] + Reversed(tmp[..k]) == old(buf[..len]) + Reversed(tmp[..n])
      {
        ghost var written := buf[..len];
        k := k - 1;
        buf[len] := tmp[k];
        len := len + 1;
        assert buf[..len] == written + [tmp[k]];
        assert tmp[..k + 1][..k] == tmp[..k];
        assert written + ([tmp[k]] + Reversed(tmp[..k])) == buf[..len] + Reversed(tmp[..k]);
      }
      assert tmp[..0] == "" && buf[..len] + "" == buf[..len];
    }

    /** Starts a line where the cursor is. */
    ghost method Begin()
      requires Ready() && !overflow
      modifies this`base, this`line
      ensures InLine() && base == buf[..len] && line == ""
    {
      base := buf[..len];
      line := "";
    }

    /** Ends the line; one that does not fit is taken back. */
    method Finish(mark: nat)
      requires InLine() && mark == |base|
      modifies this`len, this`overflow, this`line, buf
      ensures Ready() && Value() == Emit(Emitted(old(base), false), buf.Length, old(line))
    {
      Put("\n");
      if overflow {
        len := mark;
      }
      assert !overflow ==> base + (old(line) + "\n") == base + old(line) + "\n";
    }
  }

  lemma {:induction false} ReversedLength(s: string)
    ensures |Reversed(s)| == |s|
  {
    if s != "" {
      ReversedLength(s[..|s| - 1]);
    }
  }

  // ---- one line ----

  method PutHead(c: Cursor, worker: bool)
    requires c.InLine() && c.line == ""
    modifies c`len, c`overflow, c`line, c.buf
    ensures c.InLine() && c.base == old(c.base) && c.line == Head(worker)
  {
    c.Put("VKRELAY2-PROFILE end=");
    c.Put(if worker then "worker" else "client");
    assert "" + "VKRELAY2-PROFILE end=" == "VKRELAY2-PROFILE end=";
  }

  method PutField(c: Cursor, key: string, v: u64)
    requires c.InLine()
    modifies c`len, c`overflow, c`line, c.buf
    ensures c.InLine() && c.base == old(c.base) && c.line == old(c.line) + key + Digits(v)
  {
    c.Put(key);
    c.PutNumber(v);
  }

  method PutList(c: Cursor, values: seq<u32>)
    requires c.InLine()
    modifies c`len, c`overflow, c`line, c.buf
    ensures c.InLine() && c.base == old(c.base) && c.line == old(c.line) + CommaList(values)
  {
    ghost var start := c.line;
    for i := 0 to |values|
      invariant c.InLine() && c.base == old(c.base) && c.line == start + CommaList(values[..i])
    {
      if i > 0 {
        c.Put(",");
      }
      c.PutNumber(values[i]);
      ListGrows(start, values, i);
    }
    assert values[..|values|] == values;
  }

  lemma ListGrows(start: string, values: seq<u32>, i: nat)
    requires i < |values|
    ensures start + CommaList(values[..i + 1])
            == start + CommaList(values[..i]) + (if i > 0 then "," else "") + Digits(values[i])
  {
    assert values[..i + 1][..i] == values[..i];
    if i == 0 {
      assert values[..0] == [] && start + "" + "" == start;
    } else {
      assert start + (CommaList(values[..i]) + "," + Digits(values[i]))
             == start + CommaList(values[..i]) + "," + Digits(values[i]);
    }
  }

  method PutName(c: Cursor, names: Names, op: nat)
    requires c.InLine() && op < MAX_OPS
    modifies c`len, c`overflow, c`line, c.buf
    ensures c.InLine() && c.base == old(c.base) && c.line == old(c.line) + OpName(names, op)
  {
    var name := names(op);
    if name.Some? {
      c.Put(name.value);
    } else {
      c.Put("op_");
      c.PutNumber(op);
      assert old(c.line) + "op_" + Digits(op) == old(c.line) + ("op_" + Digits(op));
    }
  }

  method PutStats(c: Cursor, s: Stats)
    requires c.InLine()
    modifies c`len, c`overflow, c`line, c.buf
    ensures c.InLine() && c.base == old(c.base)
    ensures c.line == WithTimes(WithCounts(old(c.line), s), s) + " hist=" + CommaList(s.hist)
  {
    PutField(c, " count=", s.count);
    PutField(c, " bytes_out=", s.bytesOut);
    PutField(c, " bytes_in=", s.bytesIn);
    PutField(c, " total_us=", s.totalUs);
    PutField(c, " min_us=", if s.count > 0 then s.minUs else 0);
    PutField(c, " max_us=", s.maxUs);
    c.Put(" hist=");
    PutList(c, s.hist);
  }

  /** An operation's line, if it was called and nothing has been refused before. */
  method EmitOp(c: Cursor, worker: bool, names: Names, op: nat, unknown: bool, s: Stats)
    requires c.Ready() && op < MAX_OPS
    modifies c, c.buf
    ensures c.Ready()
    ensures c.Value() == if s.count == 0 then old(c.Value())
                         else Emit(old(c.Value()), c.buf.Length,
                                   OpLine(worker, if unknown then "unknown" else OpName(names, op), s))
  {
    if s.count == 0 || c.overflow {
      return;
    }
    var mark := c.len;
    c.Begin();
    PutHead(c, worker);
    c.Put(" op=");
    if unknown {
      c.Put("unknown");
    } else {
      PutName(c, names, op);
    }
    PutStats(c, s);
    c.Finish(mark);
  }

  method EmitPhases(c: Cursor, worker: bool, r: Phases)
    requires c.Ready()
    modifies c, c.buf
    ensures c.Ready()
    ensures c.Value() == if r.count == 0 then old(c.Value())
                         else Emit(old(c.Value()), c.buf.Length, PhasesLine(worker, r))
  {
    if c.overflow || r.count == 0 {
      return;
    }
    var mark := c.len;
    c.Begin();
    PutHead(c, worker);
    PutField(c, " record_phases=", r.count);
    PutField(c, " commands=", r.commands);
    PutField(c, " json_parse_us=", r.jsonParseUs);
    PutField(c, " decode_us=", r.decodeUs);
    PutField(c, " validate_us=", r.validateUs);
    PutField(c, " replay_us=", r.replayUs);
    PutField(c, " execute_us=", r.executeUs);
    c.Finish(mark);
  }

  method EmitSweep(c: Cursor, worker: bool, u: Sweep)
    requires c.Ready()
    modifies c, c.buf
    ensures c.Ready()
    ensures c.Value() == if u.count == 0 then old(c.Value())
                         else Emit(old(c.Value()), c.buf.Length, SweepLine(worker, u))
  {
    if c.overflow || u.count == 0 {
      return;
    }
    var mark := c.len;
    c.Begin();
    PutHead(c, worker);
    PutField(c, " upload_sweep=", u.count);
    PutField(c, " scan_bytes=", u.scanBytes);
    PutField(c, " filtered_bytes=", u.filteredBytes);
    PutField(c, " payload_bytes=", u.payloadBytes);
    PutField(c, " sweep_us=", u.us);
    c.Finish(mark);
  }

  method EmitFrames(c: Cursor, worker: bool, f: Frames)
    requires c.Ready()
    modifies c, c.buf
    ensures c.Ready()
    ensures c.Value() == Emit(old(c.Value()), c.buf.Length, FramesLine(worker, f))
  {
    if c.overflow {
      return;
    }
    var mark := c.len;
    c.Begin();
    PutHead(c, worker);
    PutField(c, " frames=", f.frames);
    PutField(c, " frame_us_total=", f.usTotal);
    PutField(c, " frame_us_min=", if f.frames > 0 then f.usMin else 0);
    PutField(c, " frame_us_max=", f.usMax);
    PutField(c, " frame_ops_total=", f.opsTotal);
    PutField(c, " frame_bytes_total=", f.bytesTotal);
    c.Finish(mark);
  }

  /** The retained frame times, oldest first. */
  method PutRing(c: Cursor, p: Profile)
    requires c.InLine() && p.Valid()
    modifies c`len, c`overflow, c`line, c.buf
    ensures c.InLine() && c.base == old(c.base) && c.line == old(c.line) + CommaList(RingValues(p.Value()))
  {
    ghost var line, values := c.line, RingValues(p.Value());
    var n := if p.ringTotal < RING then p.ringTotal else RING;
    var start := p.ringTotal - n;
    for i := 0 to n
      invariant c.InLine() && c.base == old(c.base) && c.line == line + CommaList(values[..i])
    {
      if i > 0 {
        c.Put(",");
      }
      c.PutNumber(p.ring[(start + i) % RING]);
      ListGrows(line, values, i);
    }
    assert values[..n] == values;
  }

  method EmitRing(c: Cursor, p: Profile)
    requires c.Ready() && p.Valid()
    modifies c, c.buf
    ensures c.Ready()
    ensures c.Value() == if RingShown(p.Value()) then Emit(old(c.Value()), c.buf.Length, RingLine(p.Value()))
                         else old(c.Value())
  {
    if c.overflow || !p.ringEnabled || p.ringTotal == 0 {
      return;
    }
    var mark := c.len;
    c.Begin();
    PutHead(c, p.worker);
    c.Put(" frame_ring_us=");
    PutRing(c, p);
    c.Finish(mark);
  }

  // ---- the whole dump ----

  lemma EmitWhen(lines: seq<string>, cap: nat, condition: bool, line: string)
    ensures EmitAll(lines + When(condition, line), cap)
            == if condition then Emit(EmitAll(lines, cap), cap, line) else EmitAll(lines, cap)
  {
    if condition {
      EmitOneMore(lines, cap, line);
    } else {
      assert lines + [] == lines;
    }
  }

  method FormatOp(c: Cursor, worker: bool, names: Names, op: nat, unknown: bool, st: Stats, ghost lines: seq<string>)
    requires c.Ready() && op < MAX_OPS && c.Value() == EmitAll(lines, c.buf.Length)
    modifies c, c.buf
    ensures var name := if unknown then "unknown" else OpName(names, op);
            c.Ready() && c.Value() == EmitAll(lines + When(st.count > 0, OpLine(worker, name, st)), c.buf.Length)
  {
    ghost var name := if unknown then "unknown" else OpName(names, op);
    EmitWhen(lines, c.buf.Length, st.count > 0, OpLine(worker, name, st));
    EmitOp(c, worker, names, op, unknown, st);
  }

  method FormatSlot(c: Cursor, p: Profile, names: Names, op: nat)
    requires c.Ready() && p.Valid() && op < p.perOp.Length
    requires c.Value() == EmitAll(OpLines(p.Value(), names, op), c.buf.Length)
    modifies c, c.buf
    ensures c.Ready() && c.Value() == EmitAll(OpLines(p.Value(), names, op + 1), c.buf.Length)
  {
    FormatOp(c, p.worker, names, op, false, p.perOp[op], OpLines(p.Value(), names, op));
  }

  method FormatOps(c: Cursor, p: Profile, names: Names)
    requires c.Ready() && c.Value() == Emitted("", false) && p.Valid()
    modifies c, c.buf
    ensures c.Ready() && c.Value() == EmitAll(OpLines(p.Value(), names, |p.Value().perOp|), c.buf.Length)
  {
    ghost var s := p.Value();
    for op := 0 to p.perOp.Length
      invariant c.Ready() && c.Value() == EmitAll(OpLines(s, names, op), c.buf.Length)
    {
      FormatSlot(c, p, names, op);
    }
  }

  method FormatPhases(c: Cursor, worker: bool, phases: Phases, ghost lines: seq<string>)
    requires c.Ready() && c.Value() == EmitAll(lines, c.buf.Length)
    modifies c, c.buf
    ensures c.Ready()
    ensures c.Value() == EmitAll(lines + When(phases.count > 0, PhasesLine(worker, phases)), c.buf.Length)
  {
    EmitWhen(lines, c.buf.Length, phases.count > 0, PhasesLine(worker, phases));
    EmitPhases(c, worker, phases);
  }

  method FormatSweep(c: Cursor, worker: bool, sweep: Sweep, ghost lines: seq<string>)
    requires c.Ready() && c.Value() == EmitAll(lines, c.buf.Length)
    modifies c, c.buf
    ensures c.Ready()
    ensures c.Value() == EmitAll(lines + When(sweep.count > 0, SweepLine(worker, sweep)), c.buf.Length)
  {
    EmitWhen(lines, c.buf.Length, sweep.count > 0, SweepLine(worker, sweep));
    EmitSweep(c, worker, sweep);
  }

  method FormatFrames(c: Cursor, worker: bool, frames: Frames, ghost lines: seq<string>)
    requires c.Ready() && c.Value() == EmitAll(lines, c.buf.Length)
    modifies c, c.buf
    ensures c.Ready() && c.Value() == EmitAll(lines + [FramesLine(worker, frames)], c.buf.Length)
  {
    EmitOneMore(lines, c.buf.Length, FramesLine(worker, frames));
    EmitFrames(c, worker, frames);
  }

  method FormatRing(c: Cursor, p: Profile, ghost lines: seq<string>)
    requires c.Ready() && p.Valid() && c.Value() == EmitAll(lines, c.buf.Length)
    modifies c, c.buf
    ensures c.Ready() && c.Value() == EmitAll(lines + When(RingShown(p.Value()), RingLine(p.Value())), c.buf.Length)
  {
    EmitWhen(lines, c.buf.Length, RingShown(p.Value()), RingLine(p.Value()));
    EmitRing(c, p);
  }

  method FormatCalls(c: Cursor, p: Profile, names: Names)
    requires c.Ready() && c.Value() == Emitted("", false) && p.Valid()
    modifies c, c.buf
    ensures c.Ready() && c.Value() == EmitAll(CallLines(p.Value(), names), c.buf.Length)
  {
    ghost var s := p.Value();
    FormatOps(c, p, names);
    FormatOp(c, p.worker, names, 0, true, p.unknown, OpLines(s, names, |s.perOp|));
  }

  method FormatMeasured(c: Cursor, p: Profile, ghost lines: seq<string>)
    requires c.Ready() && p.Valid() && c.Value() == EmitAll(lines, c.buf.Length)
    modifies c, c.buf
    ensures c.Ready() && c.Value() == EmitAll(WithMeasured(lines, p.Value()), c.buf.Length)
  {
    FormatPhases(c, p.worker, p.phases, lines);
    FormatSweep(c, p.worker, p.sweep, lines + When(p.phases.count > 0, PhasesLine(p.worker, p.phases)));
  }

  method FormatFramesAndRing(c: Cursor, p: Profile, ghost lines: seq<string>)
    requires c.Ready() && p.Valid() && c.Value() == EmitAll(lines, c.buf.Length)
    modifies c, c.buf
    ensures c.Ready() && c.Value() == EmitAll(WithFrames(lines, p.Value()), c.buf.Length)
  {
    FormatFrames(c, p.worker, p.frames, lines);
    FormatRing(c, p, lines + [FramesLine(p.worker, p.frames)]);
  }

  method FormatLines(c: Cursor, p: Profile, names: Names)
    requires c.Ready() && c.Value() == Emitted("", false) && p.Valid()
    modifies c, c.buf
    ensures c.Ready() && c.Value() == EmitAll(Lines(p.Value(), names), c.buf.Length)
  {
    ghost var s := p.Value();
    FormatCalls(c, p, names);
    FormatMeasured(c, p, CallLines(s, names));
    FormatFramesAndRing(c, p, WithMeasured(CallLines(s, names), s));
  }

  /** The buffer receives the longest prefix of whole lines of the dump that fits: the first `k`. */
  method FormatDump(p: Profile, names: Names, buf: array<char>) returns (n: nat, ghost k: nat)
    requires p.Valid()
    modifies buf
    ensures n <= buf.Length && LongestPrefix(Lines(p.Value(), names), buf.Length, k)
    ensures buf[..n] == Text(Lines(p.Value(), names)[..k])
  {
    ghost var s := p.Value();
    ghost var lines := Lines(s, names);
    var c := new Cursor(buf);
    FormatLines(c, p, names);
    assert p.Value() == s;
    n := c.len;
    k := EmitsLongestPrefix(lines, buf.Length);
  }

  /** The dump without a bound, as a list of lines. */
  method Dump(p: Profile, names: Names) returns (lines: seq<string>)
    requires p.Valid()
    ensures lines == Lines(p.Value(), names)
  {
    lines := DumpCalls(p, names);
    lines := DumpMeasured(p, lines);
    lines := lines + [FramesLine(p.worker, p.frames)];
    if p.ringEnabled && p.ringTotal > 0 {
      var times := RingTimes(p);
      lines := lines + [Head(p.worker) + " frame_ring_us=" + CommaList(times)];
    }
  }

  method DumpMeasured(p: Profile, before: seq<string>) returns (lines: seq<string>)
    requires p.Valid()
    ensures lines == WithMeasured(before, p.Value())
  {
    lines := before;
    if p.phases.count > 0 {
      lines := lines + [PhasesLine(p.worker, p.phases)];
    }
    if p.sweep.count > 0 {
      lines := lines + [SweepLine(p.worker, p.sweep)];
    }
  }

  method DumpOp(p: Profile, names: Names, op: nat, before: seq<string>) returns (lines: seq<string>)
    requires p.Valid() && op < p.perOp.Length && before == OpLines(p.Value(), names, op)
    ensures lines == OpLines(p.Value(), names, op + 1)
  {
    lines := before;
    if p.perOp[op].count != 0 {
      lines := lines + [OpLine(p.worker, OpName(names, op), p.perOp[op])];
    }
  }

  method DumpOps(p: Profile, names: Names) returns (lines: seq<string>)
    requires p.Valid()
    ensures lines == OpLines(p.Value(), names, |p.Value().perOp|)
  {
    lines := [];
    for op := 0 to p.perOp.Length
      invariant lines == OpLines(p.Value(), names, op)
    {
      lines := DumpOp(p, names, op, lines);
    }
  }

  method DumpCalls(p: Profile, names: Names) returns (lines: seq<string>)
    requires p.Valid()
    ensures lines == CallLines(p.Value(), names)
  {
    lines := DumpOps(p, names);
    if p.unknown.count != 0 {
      lines := lines + [OpLine(p.worker, "unknown", p.unknown)];
    }
  }

  method RingTimes(p: Profile) returns (times: seq<u32>)
    requires p.Valid()
    ensures times == RingValues(p.Value())
  {
    ghost var values := RingValues(p.Value());
    var n := if p.ringTotal < RING then p.ringTotal else RING;
    var start := p.ringTotal - n;
    times := [];
    for i := 0 to n
      invariant times == values[..i]
    {
      times := times + [p.ring[(start + i) % RING]];
      assert values[..i + 1] == values[..i] + [values[i]];
    }
    assert values[..n] == values;
  }
}
