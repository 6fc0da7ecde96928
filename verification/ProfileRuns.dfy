/** What a profile holds after any sequence of calls and presents. */
module ProfileRuns {
  import opened Basics
  import opened RpcProfile

  datatype Event = Call(op: u32, bytesOut: u64, bytesIn: u64, us: u64) | Present(now: u64)

  function Next(s: State, e: Event): (r: State)
    requires Ok(s)
    ensures Ok(r)
  {
    match e
    case Call(op, bytesOut, bytesIn, us) => Recorded(s, op, bytesOut, bytesIn, us)
    case Present(now) => Marked(s, now)
  }

  function Run(s: State, events: seq<Event>): (r: State)
    requires Ok(s)
    ensures Ok(r)
  {
    if events == [] then s else Next(Run(s, events[..|events| - 1]), events[|events| - 1])
  }

  // ---- frames ----

  /** What happened after the first present. */
  function SinceFirst(events: seq<Event>): seq<Event> {
    if events == [] then [] else if events[0].Present? then events[1..] else SinceFirst(events[1..])
  }

  predicate Presented(events: seq<Event>) {
    exists i | 0 <= i < |events| :: events[i].Present?
  }

  function CallCount(events: seq<Event>): nat {
    if events == [] then 0 else CallCount(events[..|events| - 1]) + (if events[|events| - 1].Call? then 1 else 0)
  }

  function CallBytes(events: seq<Event>): nat {
    if events == [] then 0
    else
      var last := events[|events| - 1];
      CallBytes(events[..|events| - 1]) + (if last.Call? then last.bytesOut as int + last.bytesIn as int else 0)
  }

  lemma {:induction false} SinceFirstGrows(events: seq<Event>, e: Event)
    ensures SinceFirst(events + [e]) == if Presented(events) then SinceFirst(events) + [e] else []
  {
    var s := events + [e];
    if events == [] {
      assert s[1..] == [];
    } else {
      assert s[1..] == events[1..] + [e];
      if events[0].Present? {
        assert Presented(events);
      } else {
        SinceFirstGrows(events[1..], e);
        assert Presented(events) <==> Presented(events[1..]) by {
          if Presented(events) {
            var i :| 0 <= i < |events| && events[i].Present?;
            assert events[1..][i - 1].Present?;
          }
        }
      }
    }
  }

  lemma PresentedGrows(events: seq<Event>, e: Event)
    ensures Presented(events + [e]) <==> Presented(events) || e.Present?
  {
    var s := events + [e];
    if Presented(events) {
      var i :| 0 <= i < |events| && events[i].Present?;
      assert s[i].Present?;
    }
    if e.Present? {
      assert s[|events|].Present?;
    }
  }

  lemma CountsGrow(events: seq<Event>, e: Event)
    ensures CallCount(events + [e]) == CallCount(events) + (if e.Call? then 1 else 0)
    ensures CallBytes(events + [e]) == CallBytes(events) + (if e.Call? then e.bytesOut as int + e.bytesIn as int else 0)
  {
    assert (events + [e])[..|events|] == events;
  }

  lemma W64Adds(a: int, b: int, c: int)
    requires W64(a) == W64(b)
    ensures W64(a + c) == W64(b + c)
  {
  }

  lemma W64Sum(a: int, b: int)
    ensures W64(a + W64(b)) == W64(a + b)
  {
  }

  /** All calls counted in frames, closed or open. */
  function Ops(f: Frames): u64 {
    W64(f.opsTotal as int + f.openOps as int)
  }

  function Bytes(f: Frames): u64 {
    W64(f.bytesTotal as int + f.openBytes as int)
  }

  lemma W64Nests(a: int, b: int, c: int)
    ensures W64(a + W64(b + W64(c))) == W64(a + b + c)
  {
    W64Sum(b, c);
    W64Sum(a, b + c);
  }

  lemma CallConserves(f: Frames, bytesOut: u64, bytesIn: u64)
    ensures var g := WithCall(f, bytesOut, bytesIn);
            && Ops(g) == W64(f.opsTotal as int + f.openOps as int + 1)
            && Bytes(g) == W64(f.bytesTotal as int + f.openBytes as int + (bytesOut as int + bytesIn as int))
  {
    W64Sum(f.opsTotal, f.openOps + 1);
    W64Nests(f.bytesTotal, f.openBytes, bytesOut as int + bytesIn as int);
  }

  lemma PresentConserves(f: Frames, now: u64)
    requires f.open
    ensures Ops(Closed(f, now)) == Ops(f) && Bytes(Closed(f, now)) == Bytes(f)
  {
    W64Sum(0, f.opsTotal as int + f.openOps as int);
    W64Sum(0, f.bytesTotal as int + f.openBytes as int);
  }

  /** Calls in closed frames and in the open frame are together the calls since the first present, and
      so are their bytes. Before the first present no frame has been counted. */
  predicate Conserved(f: Frames, events: seq<Event>) {
    && f.open == Presented(events)
    && (f.open ==> Ops(f) == W64(CallCount(SinceFirst(events))) && Bytes(f) == W64(CallBytes(SinceFirst(events))))
    && (!f.open ==> f.opsTotal == 0 && f.bytesTotal == 0)
  }

  lemma CallKeepsConserved(f: Frames, events: seq<Event>, e: Event)
    requires Conserved(f, events) && e.Call?
    ensures Conserved(WithCall(f, e.bytesOut, e.bytesIn), events + [e])
  {
    var since := SinceFirst(events);
    CallConserves(f, e.bytesOut, e.bytesIn);
    SinceFirstGrows(events, e);
    PresentedGrows(events, e);
    CountsGrow(since, e);
    if f.open {
      W64Adds(f.opsTotal as int + f.openOps as int, CallCount(since), 1);
      W64Adds(f.bytesTotal as int + f.openBytes as int, CallBytes(since), e.bytesOut as int + e.bytesIn as int);
    }
  }

  lemma PresentKeepsConserved(f: Frames, events: seq<Event>, e: Event)
    requires Conserved(f, events) && e.Present?
    ensures Conserved(Closed(f, e.now), events + [e])
  {
    SinceFirstGrows(events, e);
    PresentedGrows(events, e);
    CountsGrow(SinceFirst(events), e);
    if f.open {
      PresentConserves(f, e.now);
    }
  }

  lemma {:induction false} FramesConserveCalls(ringEnabled: bool, events: seq<Event>)
    ensures Conserved(Run(Empty(ringEnabled), events).frames, events)
    decreases |events|
  {
    if events != [] {
      var front, e := events[..|events| - 1], events[|events| - 1];
      assert events == front + [e];
      var s := Run(Empty(ringEnabled), front);
      FramesConserveCalls(ringEnabled, front);
      if e.Call? {
        CallKeepsConserved(s.frames, front, e);
      } else {
        PresentKeepsConserved(s.frames, front, e);
      }
    }
  }

  // ---- the ring of frame times ----

  /** The times of the presents. */
  function Presents(events: seq<Event>): seq<u64> {
    if events == [] then []
    else
      var front, last := Presents(events[..|events| - 1]), events[|events| - 1];
      if last.Present? then front + [last.now] else front
  }

  function Gap(before: u64, after: u64): u64 {
    W64(after - before)
  }

  /** The time from each present to the next. */
  function Durations(presents: seq<u64>): (times: seq<u64>)
    ensures |times| == if presents == [] then 0 else |presents| - 1
  {
    if |presents| < 2 then []
    else
      var n := |presents|;
      Durations(presents[..n - 1]) + [Gap(presents[n - 2], presents[n - 1])]
  }

  /** The same as far as 32 bits hold them. */
  function FrameTimes(presents: seq<u64>): (times: seq<u32>)
    ensures |times| == |Durations(presents)|
  {
    var d := Durations(presents);
    seq(|d|, i requires 0 <= i < |d| => Saturated(d[i]))
  }

  function Total(times: seq<u64>): nat {
    if times == [] then 0 else Total(times[..|times| - 1]) + times[|times| - 1]
  }

  /** The least and the greatest of some times. */
  ghost predicate Bounds(least: u64, greatest: u64, times: seq<u64>) {
    && (forall i | 0 <= i < |times| :: least <= times[i] <= greatest)
    && (times != [] ==> least in times && greatest in times)
    && (times == [] ==> least == U64_MAX && greatest == 0)
  }

  ghost predicate Measures(frames: u64, usTotal: u64, usMin: u64, usMax: u64, times: seq<u64>) {
    frames == W64(|times|) && usTotal == W64(Total(times)) && Bounds(usMin, usMax, times)
  }

  /** The frame counters tell about these presents what their names say. */
  ghost predicate Tells(f: Frames, presents: seq<u64>) {
    && f.open == (presents != []) && (f.open ==> f.lastPresentUs == presents[|presents| - 1])
    && Measures(f.frames, f.usTotal, f.usMin, f.usMax, Durations(presents))
  }

  lemma DurationsGrow(presents: seq<u64>, now: u64)
    requires presents != []
    ensures Durations(presents + [now]) == Durations(presents) + [Gap(presents[|presents| - 1], now)]
  {
    var after, n := presents + [now], |presents|;
    assert after[..n] == presents && after[n] == now && after[n - 1] == presents[n - 1];
  }

  lemma TotalGrows(times: seq<u64>, us: u64)
    ensures Total(times + [us]) == Total(times) + us
  {
    assert (times + [us])[..|times|] == times;
  }

  lemma BoundsFollow(least: u64, greatest: u64, times: seq<u64>, us: u64)
    requires Bounds(least, greatest, times)
    ensures Bounds(if us < least then us else least, if us > greatest then us else greatest, times + [us])
  {
    var more := times + [us];
    assert more[|times|] == us;
    if times != [] {
      assert least in more && greatest in more;
    }
  }

  lemma OneMoreMeasured(frames: u64, usTotal: u64, usMin: u64, usMax: u64, times: seq<u64>, us: u64)
    requires Measures(frames, usTotal, usMin, usMax, times)
    ensures Measures(W64(frames + 1), W64(usTotal + us), if us < usMin then us else usMin,
                     if us > usMax then us else usMax, times + [us])
  {
    SumFollows(frames, |times|, 1);
    SumFollows(usTotal, Total(times), us);
    TotalGrows(times, us);
    BoundsFollow(usMin, usMax, times, us);
  }

  lemma TellsWhenClosed(f: Frames, g: Frames, presents: seq<u64>, times: seq<u64>)
    requires presents != [] && times == Durations(presents)
    requires g == f.(openOps := 0, openBytes := 0, open := true, lastPresentUs := presents[|presents| - 1])
    requires Measures(f.frames, f.usTotal, f.usMin, f.usMax, times)
    ensures Tells(g, presents)
  {
  }

  lemma PresentTells(f: Frames, presents: seq<u64>, now: u64)
    requires Tells(f, presents)
    ensures Tells(Closed(f, now), presents + [now])
  {
    var times := Durations(presents);
    if f.open {
      var us := Elapsed(f, now);
      assert us == Gap(presents[|presents| - 1], now);
      DurationsGrow(presents, now);
      OneMoreMeasured(f.frames, f.usTotal, f.usMin, f.usMax, times, us);
      TellsWhenClosed(Counted(f, us), Closed(f, now), presents + [now], times + [us]);
    } else {
      TellsWhenClosed(f, Closed(f, now), presents + [now], times);
    }
  }

  lemma NextTells(s: State, e: Event, presents: seq<u64>)
    requires Ok(s) && Tells(s.frames, presents)
    ensures Tells(Next(s, e).frames, if e.Present? then presents + [e.now] else presents)
  {
    if e.Present? {
      PresentTells(s.frames, presents, e.now);
    }
  }

  /** After any run the frame counters are those of the times between presents: how many, their total, the
      shortest and the longest. */
  lemma {:induction false} FramesTellPresents(ringEnabled: bool, events: seq<Event>)
    ensures Tells(Run(Empty(ringEnabled), events).frames, Presents(events))
    decreases |events|
  {
    if events != [] {
      var front, e := events[..|events| - 1], events[|events| - 1];
      FramesTellPresents(ringEnabled, front);
      NextTells(Run(Empty(ringEnabled), front), e, Presents(front));
    }
  }

  predicate RingHolds(s: State, times: seq<u32>)
    requires Ok(s)
  {
    && s.ringTotal == W64(|times|)
    && forall j | 0 <= j < |times| && |times| - RING <= j :: s.ring[j % RING] == times[j]
  }

  lemma SlotOfWrapped(n: nat)
    ensures W64(n) % RING == n % RING
  {
    var q := n / 0x1_0000_0000_0000_0000;
    assert n == q * 0x1_0000_0000_0000_0000 + W64(n);
    assert 0x1_0000_0000_0000_0000 == 0x80_0000_0000_0000 * RING;
    SlotShift(W64(n), q * 0x80_0000_0000_0000);
    assert q * 0x1_0000_0000_0000_0000 == q * 0x80_0000_0000_0000 * RING;
  }

  lemma SlotShift(a: nat, k: nat)
    ensures (a + k * RING) % RING == a % RING
  {
    if k > 0 {
      SlotShift(a, k - 1);
      assert a + k * RING == (a + (k - 1) * RING) + RING;
    }
  }

  /** Different frames of the window have different slots. */
  lemma SlotsDiffer(i: nat, j: nat)
    requires i < j < i + RING
    ensures i % RING != j % RING
  {
  }

  lemma PushHolds(s: State, times: seq<u32>, now: u64)
    requires Ok(s) && RingHolds(s, times) && s.frames.open && s.ringEnabled
    ensures RingHolds(Marked(s, now), times + [Saturated(Elapsed(s.frames, now))])
  {
    var t := Marked(s, now);
    var more := times + [Saturated(Elapsed(s.frames, now))];
    var n := |times|;
    SlotOfWrapped(n);
    W64Sum(1, n);
    forall j | 0 <= j < |more| && |more| - RING <= j
      ensures t.ring[j % RING] == more[j]
    {
      if j < n {
        SlotsDiffer(j, n);
        assert s.ring[j % RING] == times[j];
      }
    }
  }

  /** The ring agrees with the presents so far. */
  predicate Follows(s: State, presents: seq<u64>)
    requires Ok(s)
  {
    && s.ringEnabled && s.frames.open == (presents != [])
    && (s.frames.open ==> s.frames.lastPresentUs == presents[|presents| - 1])
    && RingHolds(s, FrameTimes(presents))
  }

  lemma PresentFollows(s: State, presents: seq<u64>, now: u64)
    requires Ok(s) && Follows(s, presents)
    ensures Follows(Marked(s, now), presents + [now])
  {
    var after := presents + [now];
    if s.frames.open {
      DurationsGrow(presents, now);
      PushHolds(s, FrameTimes(presents), now);
      assert FrameTimes(after) == FrameTimes(presents) + [Saturated(Elapsed(s.frames, now))];
    }
  }

  lemma {:induction false} RingFollows(events: seq<Event>)
    ensures Follows(Run(Empty(true), events), Presents(events))
    decreases |events|
  {
    if events != [] {
      var front, e := events[..|events| - 1], events[|events| - 1];
      RingFollows(front);
      if e.Present? {
        PresentFollows(Run(Empty(true), front), Presents(front), e.now);
      }
    }
  }

  /** The frame times the ring gives out, oldest first. */
  function RingValues(s: State): seq<u32>
    requires Ok(s)
  {
    var n := Min(s.ringTotal, RING);
    seq(n, i requires 0 <= i < n => s.ring[(s.ringTotal - n + i) % RING])
  }

  function LastOf<T>(s: seq<T>, n: nat): seq<T>
    requires n <= |s|
  {
    s[|s| - n..]
  }

  lemma WrappedIsSmaller(n: nat)
    ensures W64(n) <= n && (n - W64(n)) % RING == 0
  {
    var q := n / 0x1_0000_0000_0000_0000;
    assert n - W64(n) == q * 0x80_0000_0000_0000 * RING;
    SlotShift(0, q * 0x80_0000_0000_0000);
  }

  lemma SlotHolds(s: State, times: seq<u32>, n: nat, i: nat)
    requires Ok(s) && RingHolds(s, times) && n <= s.ringTotal <= |times| && i < n <= RING
    ensures s.ring[(s.ringTotal - n + i) % RING] == times[|times| - n + i]
  {
    WrappedIsSmaller(|times|);
    var j := |times| - n + i;
    var k := (|times| - s.ringTotal) / RING;
    assert |times| - s.ringTotal == k * RING;
    SlotShift(s.ringTotal - n + i, k);
    assert j == s.ringTotal - n + i + k * RING;
    assert s.ring[j % RING] == times[j];
  }

  lemma ValuesAreLast(s: State, times: seq<u32>)
    requires Ok(s) && RingHolds(s, times) && s.ringTotal <= |times|
    ensures RingValues(s) == LastOf(times, Min(s.ringTotal, RING))
  {
    var n := Min(s.ringTotal, RING);
    var values, last := RingValues(s), LastOf(times, n);
    assert |values| == n && |last| == n;
    forall i | 0 <= i < n
      ensures values[i] == last[i]
    {
      SlotHolds(s, times, n, i);
    }
  }

  /** The ring line lists the last frame times in order: at most 512 of them, all of them while there
      are fewer, whatever the run. */
  lemma RingListsLastFrames(events: seq<Event>)
    ensures var times := FrameTimes(Presents(events));
            W64(|times|) <= |times|
            && RingValues(Run(Empty(true), events)) == LastOf(times, Min(W64(|times|), RING))
  {
    var s := Run(Empty(true), events);
    var times := FrameTimes(Presents(events));
    RingFollows(events);
    WrappedIsSmaller(|times|);
    ValuesAreLast(s, times);
  }

  // ---- counters of one operation ----

  /** Where an operation is counted: in its own slot, or past the table with all unknown ones. */
  function Slot(op: u32): nat {
    if op < MAX_OPS then op else MAX_OPS
  }

  function StatsIn(s: State, slot: nat): Stats
    requires Ok(s) && slot <= MAX_OPS
  {
    if slot < MAX_OPS then s.perOp[slot] else s.unknown
  }

  function CallsIn(events: seq<Event>, slot: nat): (calls: seq<Event>)
    ensures forall i | 0 <= i < |calls| :: calls[i].Call?
  {
    if events == [] then []
    else
      var front, last := CallsIn(events[..|events| - 1], slot), events[|events| - 1];
      if last.Call? && Slot(last.op) == slot then front + [last] else front
  }

  function InBucketCount(calls: seq<Event>, b: nat): nat
    requires Calls(calls)
  {
    if calls == [] then 0
    else
      InBucketCount(calls[..|calls| - 1], b) + (if InBucket(calls[|calls| - 1].us, b) then 1 else 0)
  }

  predicate Calls(calls: seq<Event>) {
    forall i | 0 <= i < |calls| :: calls[i].Call?
  }

  ghost predicate Distributes(s: Stats, calls: seq<Event>)
    requires StatsOk(s) && Calls(calls)
  {
    forall b | 0 <= b < BUCKETS :: s.hist[b] == W32(InBucketCount(calls, b))
  }

  ghost predicate Spans(s: Stats, calls: seq<Event>)
    requires Calls(calls)
  {
    && (forall i | 0 <= i < |calls| :: s.minUs <= calls[i].us <= s.maxUs)
    && (calls != [] ==> (exists i | 0 <= i < |calls| :: calls[i].us == s.minUs)
                        && (exists i | 0 <= i < |calls| :: calls[i].us == s.maxUs))
    && (calls == [] ==> s.minUs == U64_MAX && s.maxUs == 0)
  }

  function BytesOut(calls: seq<Event>): nat
    requires Calls(calls)
  {
    if calls == [] then 0 else BytesOut(calls[..|calls| - 1]) + calls[|calls| - 1].bytesOut
  }

  function BytesIn(calls: seq<Event>): nat
    requires Calls(calls)
  {
    if calls == [] then 0 else BytesIn(calls[..|calls| - 1]) + calls[|calls| - 1].bytesIn
  }

  function Micros(calls: seq<Event>): nat
    requires Calls(calls)
  {
    if calls == [] then 0 else Micros(calls[..|calls| - 1]) + calls[|calls| - 1].us
  }

  ghost predicate Totals(s: Stats, calls: seq<Event>)
    requires Calls(calls)
  {
    && s.count == W64(|calls|) && s.bytesOut == W64(BytesOut(calls))
    && s.bytesIn == W64(BytesIn(calls)) && s.totalUs == W64(Micros(calls))
  }

  /** The counters tell about these calls what their names say. */
  ghost predicate Summarizes(s: Stats, calls: seq<Event>)
    requires StatsOk(s) && Calls(calls)
  {
    Totals(s, calls) && Distributes(s, calls) && Spans(s, calls)
  }

  lemma W32Counts(n: nat)
    ensures W32(W32(n) as int + 1) == W32(n + 1)
  {
  }

  lemma BucketCountGrows(calls: seq<Event>, e: Event, k: nat, b: nat)
    requires Calls(calls) && e.Call? && InBucket(e.us, k)
    ensures InBucketCount(calls + [e], b) == InBucketCount(calls, b) + (if b == k then 1 else 0)
  {
    assert (calls + [e])[..|calls|] == calls;
    if InBucket(e.us, b) {
      BucketIsUnique(e.us, b, k);
    }
  }

  lemma HistCounts(hist: seq<u32>, k: nat, b: nat, before: nat, after: nat)
    requires |hist| == BUCKETS && b < BUCKETS && k < BUCKETS
    requires hist[b] == W32(before) && after == before + (if b == k then 1 else 0)
    ensures hist[k := W32(hist[k] as int + 1)][b] == W32(after)
  {
    if b == k {
      W32Counts(before);
    }
  }

  lemma ExtremesFollow(s: Stats, calls: seq<Event>, e: Event)
    requires StatsOk(s) && Calls(calls) && e.Call? && Spans(s, calls)
    ensures Spans(Added(s, e.bytesOut, e.bytesIn, e.us), calls + [e])
  {
    var r, more := Added(s, e.bytesOut, e.bytesIn, e.us), calls + [e];
    var n := |calls|;
    assert more[n] == e && forall i | 0 <= i < n :: more[i] == calls[i];
    if calls != [] {
      var i :| 0 <= i < n && calls[i].us == s.minUs;
      var j :| 0 <= j < n && calls[j].us == s.maxUs;
      assert more[i].us == s.minUs && more[j].us == s.maxUs;
    }
    assert more[n].us == e.us;
  }

  lemma HistogramFollows(s: Stats, calls: seq<Event>, e: Event)
    requires StatsOk(s) && Calls(calls) && e.Call? && Distributes(s, calls)
    ensures Distributes(Added(s, e.bytesOut, e.bytesIn, e.us), calls + [e])
  {
    var r, k := Added(s, e.bytesOut, e.bytesIn, e.us), Bucket(e.us);
    forall b | 0 <= b < BUCKETS
      ensures r.hist[b] == W32(InBucketCount(calls + [e], b))
    {
      BucketCountGrows(calls, e, k, b);
      HistCounts(s.hist, k, b, InBucketCount(calls, b), InBucketCount(calls + [e], b));
    }
  }

  /** Adding to a wrapped sum wraps the sum. */
  lemma SumFollows(total: u64, sum: nat, more: u64)
    requires total == W64(sum)
    ensures W64(total + more) == W64(sum + more)
  {
    W64Sum(more, sum);
  }

  lemma SumsGrow(calls: seq<Event>, e: Event)
    requires Calls(calls) && e.Call?
    ensures BytesOut(calls + [e]) == BytesOut(calls) + e.bytesOut
    ensures BytesIn(calls + [e]) == BytesIn(calls) + e.bytesIn
    ensures Micros(calls + [e]) == Micros(calls) + e.us
  {
    assert (calls + [e])[..|calls|] == calls;
  }

  lemma AddedSums(s: Stats, e: Event)
    requires StatsOk(s) && e.Call?
    ensures var r := Added(s, e.bytesOut, e.bytesIn, e.us);
            && r.count == W64(s.count + 1) && r.bytesOut == W64(s.bytesOut + e.bytesOut)
            && r.bytesIn == W64(s.bytesIn + e.bytesIn) && r.totalUs == W64(s.totalUs + e.us)
  {
  }

  lemma TotalsOneMore(s: Stats, r: Stats, calls: seq<Event>, e: Event)
    requires Calls(calls) && e.Call? && Totals(s, calls)
    requires r.count == W64(s.count + 1) && r.bytesOut == W64(s.bytesOut + e.bytesOut)
    requires r.bytesIn == W64(s.bytesIn + e.bytesIn) && r.totalUs == W64(s.totalUs + e.us)
    ensures Totals(r, calls + [e])
  {
    SumsGrow(calls, e);
    SumFollows(s.count, |calls|, 1);
    SumFollows(s.bytesOut, BytesOut(calls), e.bytesOut);
    SumFollows(s.bytesIn, BytesIn(calls), e.bytesIn);
    SumFollows(s.totalUs, Micros(calls), e.us);
  }

  lemma TotalsFollow(s: Stats, calls: seq<Event>, e: Event)
    requires StatsOk(s) && Calls(calls) && e.Call? && Totals(s, calls)
    ensures Totals(Added(s, e.bytesOut, e.bytesIn, e.us), calls + [e])
  {
    AddedSums(s, e);
    TotalsOneMore(s, Added(s, e.bytesOut, e.bytesIn, e.us), calls, e);
  }

  lemma AddedSummarizes(s: Stats, calls: seq<Event>, e: Event)
    requires StatsOk(s) && Calls(calls) && e.Call? && Summarizes(s, calls)
    ensures Summarizes(Added(s, e.bytesOut, e.bytesIn, e.us), calls + [e])
  {
    TotalsFollow(s, calls, e);
    ExtremesFollow(s, calls, e);
    HistogramFollows(s, calls, e);
  }

  lemma NoCallsSummarized(s: Stats, calls: seq<Event>)
    requires s == NO_CALLS && calls == []
    ensures StatsOk(s) && Summarizes(s, calls)
  {
  }

  lemma SlotsStartEmpty(ringEnabled: bool, slot: nat)
    requires slot <= MAX_OPS
    ensures StatsIn(Empty(ringEnabled), slot) == NO_CALLS
  {
  }

  /** An event is counted in its own slot and in no other. */
  lemma NextInSlot(s: State, e: Event, slot: nat)
    requires Ok(s) && slot <= MAX_OPS
    ensures StatsIn(Next(s, e), slot)
            == if e.Call? && Slot(e.op) == slot then Added(StatsIn(s, slot), e.bytesOut, e.bytesIn, e.us)
               else StatsIn(s, slot)
  {
  }

  lemma NextSummarizes(s: State, calls: seq<Event>, e: Event, slot: nat)
    requires Ok(s) && slot <= MAX_OPS && Calls(calls) && Summarizes(StatsIn(s, slot), calls)
    ensures Summarizes(StatsIn(Next(s, e), slot), if e.Call? && Slot(e.op) == slot then calls + [e] else calls)
  {
    NextInSlot(s, e, slot);
    if e.Call? && Slot(e.op) == slot {
      AddedSummarizes(StatsIn(s, slot), calls, e);
    }
  }

  /** After any run each slot counts exactly the calls of its operations: how many, their bytes and time
      in total, in which buckets, the shortest and the longest. */
  lemma {:induction false} SlotsSummarize(ringEnabled: bool, events: seq<Event>, slot: nat)
    requires slot <= MAX_OPS
    ensures Summarizes(StatsIn(Run(Empty(ringEnabled), events), slot), CallsIn(events, slot))
    decreases |events|
  {
    if events == [] {
      SlotsStartEmpty(ringEnabled, slot);
      NoCallsSummarized(StatsIn(Run(Empty(ringEnabled), events), slot), CallsIn(events, slot));
    } else {
      var front, e := events[..|events| - 1], events[|events| - 1];
      SlotsSummarize(ringEnabled, front, slot);
      NextSummarizes(Run(Empty(ringEnabled), front), CallsIn(front, slot), e, slot);
    }
  }
}
