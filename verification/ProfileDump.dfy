/** Printing a profile: line by line without a bound, and into a fixed buffer without allocation. */
module ProfileDump {
  import opened Basics
  import opened RpcProfile
  import opened ProfileRuns

  /** The wire names of the operations that have one. */
  type Names = nat -> Option<string>

  // ---- the lines ----

  function Digits(n: nat): (s: string)
    ensures s != ""
  {
    if n < 10 then [DigitChar(n)] else Digits(n / 10) + [DigitChar(n % 10)]
  }

  function DigitChar(d: nat): char
    requires d < 10
  {
    '0' + d as char
  }

  function CommaList(values: seq<u32>): string {
    if values == [] then ""
    else if |values| == 1 then Digits(values[0])
    else CommaList(values[..|values| - 1]) + "," + Digits(values[|values| - 1])
  }

  function Head(worker: bool): string {
    "VKRELAY2-PROFILE end=" + (if worker then "worker" else "client")
  }

  function OpName(names: Names, op: nat): string {
    match names(op)
    case Some(name) => name
    case None => "op_" + Digits(op)
  }

  function WithCounts(line: string, s: Stats): string {
    line + " count=" + Digits(s.count) + " bytes_out=" + Digits(s.bytesOut) + " bytes_in=" + Digits(s.bytesIn)
  }

  function WithTimes(line: string, s: Stats): string {
    line + " total_us=" + Digits(s.totalUs) + " min_us=" + Digits(if s.count > 0 then s.minUs else 0) +
    " max_us=" + Digits(s.maxUs)
  }

  function OpLine(worker: bool, name: string, s: Stats): string {
    WithTimes(WithCounts(Head(worker) + " op=" + name, s), s) + " hist=" + CommaList(s.hist)
  }

  function PhasesLine(worker: bool, r: Phases): string {
    Head(worker) + " record_phases=" + Digits(r.count) + " commands=" + Digits(r.commands) +
    " json_parse_us=" + Digits(r.jsonParseUs) + " decode_us=" + Digits(r.decodeUs) +
    " validate_us=" + Digits(r.validateUs) + " replay_us=" + Digits(r.replayUs) + " execute_us=" + Digits(r.executeUs)
  }

  function SweepLine(worker: bool, u: Sweep): string {
    Head(worker) + " upload_sweep=" + Digits(u.count) + " scan_bytes=" + Digits(u.scanBytes) +
    " filtered_bytes=" + Digits(u.filteredBytes) + " payload_bytes=" + Digits(u.payloadBytes) +
    " sweep_us=" + Digits(u.us)
  }

  function FramesLine(worker: bool, f: Frames): string {
    Head(worker) + " frames=" + Digits(f.frames) + " frame_us_total=" + Digits(f.usTotal) +
    " frame_us_min=" + Digits(if f.frames > 0 then f.usMin else 0) + " frame_us_max=" + Digits(f.usMax) +
    " frame_ops_total=" + Digits(f.opsTotal) + " frame_bytes_total=" + Digits(f.bytesTotal)
  }

  function RingLine(s: State): string
    requires Ok(s)
  {
    Head(s.worker) + " frame_ring_us=" + CommaList(RingValues(s))
  }

  /** The lines of the first `n` operations that were called. */
  function OpLines(s: State, names: Names, n: nat): seq<string>
    requires Ok(s) && n <= |s.perOp|
  {
    if n == 0 then []
    else
      OpLines(s, names, n - 1) + When(s.perOp[n - 1].count > 0, OpLine(s.worker, OpName(names, n - 1), s.perOp[n - 1]))
  }

  /** A line that is there under a condition. */
  function When(condition: bool, line: string): seq<string> {
    if condition then [line] else []
  }

  predicate RingShown(s: State) {
    s.ringEnabled && s.ringTotal > 0
  }

  /** The lines of all operations, known or not. */
  function CallLines(s: State, names: Names): seq<string>
    requires Ok(s)
  {
    OpLines(s, names, |s.perOp|) + When(s.unknown.count > 0, OpLine(s.worker, "unknown", s.unknown))
  }

  /** And then the worker's and the client's own measurements. */
  function WithMeasured(lines: seq<string>, s: State): seq<string> {
    lines + When(s.phases.count > 0, PhasesLine(s.worker, s.phases)) +
    When(s.sweep.count > 0, SweepLine(s.worker, s.sweep))
  }

  /** And then the frames. */
  function WithFrames(lines: seq<string>, s: State): seq<string>
    requires Ok(s)
  {
    lines + [FramesLine(s.worker, s.frames)] + When(RingShown(s), RingLine(s))
  }

  /** The dump, line by line. */
  function Lines(s: State, names: Names): seq<string>
    requires Ok(s)
  {
    WithFrames(WithMeasured(CallLines(s, names), s), s)
  }

  // ---- the part that fits ----

  datatype Emitted = Emitted(text: string, full: bool)

  function Emit(e: Emitted, cap: nat, line: string): Emitted {
    if e.full || |e.text| + |line| + 1 > cap then Emitted(e.text, true) else Emitted(e.text + line + "\n", false)
  }

  function EmitAll(lines: seq<string>, cap: nat): Emitted {
    if lines == [] then Emitted("", false) else Emit(EmitAll(lines[..|lines| - 1], cap), cap, lines[|lines| - 1])
  }

  /** Lines, each ended by a line break. */
  function Text(lines: seq<string>): string {
    if lines == [] then "" else Text(lines[..|lines| - 1]) + lines[|lines| - 1] + "\n"
  }

  lemma EmitOneMore(lines: seq<string>, cap: nat, line: string)
    ensures EmitAll(lines + [line], cap) == Emit(EmitAll(lines, cap), cap, line)
  {
    assert (lines + [line])[..|lines|] == lines;
  }

  /** What fits: the first `k` lines, and one more would not. */
  predicate LongestPrefix(lines: seq<string>, cap: nat, k: nat) {
    k <= |lines| && |Text(lines[..k])| <= cap && (k < |lines| ==> |Text(lines[..k + 1])| > cap)
  }

  lemma {:induction false} TextGrows(lines: seq<string>, k: nat)
    requires k <= |lines|
    ensures |Text(lines[..k])| <= |Text(lines)|
    decreases |lines|
  {
    if k < |lines| {
      TextGrows(lines[..|lines| - 1], k);
      assert lines[..|lines| - 1][..k] == lines[..k];
    } else {
      assert lines[..k] == lines;
    }
  }

  /** There is only one such prefix, and it is the longest that fits. */
  lemma PrefixIsLongest(lines: seq<string>, cap: nat, k: nat, j: nat)
    requires LongestPrefix(lines, cap, k) && j <= |lines|
    ensures |Text(lines[..j])| <= cap <==> j <= k
  {
    if j <= k {
      TextGrows(lines[..k], j);
      assert lines[..k][..j] == lines[..j];
    } else {
      TextGrows(lines[..j], k + 1);
      assert lines[..j][..k + 1] == lines[..k + 1];
    }
  }

  /** Emitting line after line ends with the longest prefix of whole lines that fits. */
  lemma {:induction false} EmitsLongestPrefix(lines: seq<string>, cap: nat) returns (k: nat)
    ensures LongestPrefix(lines, cap, k)
    ensures EmitAll(lines, cap) == Emitted(Text(lines[..k]), k < |lines|)
    decreases |lines|
  {
    if lines == [] {
      k := 0;
    } else {
      var n := |lines| - 1;
      var front := lines[..n];
      var j := EmitsLongestPrefix(front, cap);
      assert front[..j] == lines[..j];
      if j < n {
        k := j;
        assert front[..j + 1] == lines[..j + 1];
      } else {
        assert lines[..n + 1] == lines && front[..j] == front;
        k := if |Text(lines)| <= cap then n + 1 else n;
      }
    }
  }
}
