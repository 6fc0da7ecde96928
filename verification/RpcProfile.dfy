/** The profile of remote calls: counters for each operation and frame, updated in place. Counters
    are 64-bit and wrap around. */
module RpcProfile {
  import opened Basics
  const U32_MAX: u32 := 0xFFFF_FFFF
  const U64_MAX: u64 := 0xFFFF_FFFF_FFFF_FFFF
  const MAX_OPS := 128
  const BUCKETS := 12
  const RING := 512

  function W32(n: int): u32 { n % 0x1_0000_0000 }

  function W64(n: int): u64 { n % 0x1_0000_0000_0000_0000 }

  datatype Stats = Stats(count: u64, bytesOut: u64, bytesIn: u64, totalUs: u64, minUs: u64, maxUs: u64, hist: seq<u32>)
  datatype Phases = Phases(count: u64, commands: u64, jsonParseUs: u64, decodeUs: u64, validateUs: u64, replayUs: u64,
                           executeUs: u64)
  datatype Sweep = Sweep(count: u64, scanBytes: u64, filteredBytes: u64, payloadBytes: u64, us: u64)
  datatype Frames = Frames(frames: u64, opsTotal: u64, bytesTotal: u64, usTotal: u64, usMin: u64, usMax: u64,
                           openOps: u64, openBytes: u64, open: bool, lastPresentUs: u64)

  /** Everything a profile holds. */
  datatype State = State(perOp: seq<Stats>, unknown: Stats, phases: Phases, sweep: Sweep, worker: bool, frames: Frames,
                         ringEnabled: bool, ringTotal: u64, ring: seq<u32>)

  predicate StatsOk(s: Stats) {
    |s.hist| == BUCKETS
  }

  predicate Ok(s: State) {
    && |s.perOp| == MAX_OPS && |s.ring| == RING && StatsOk(s.unknown)
    && forall i | 0 <= i < |s.perOp| :: StatsOk(s.perOp[i])
  }

  // ---- one call ----

  function Edge(i: nat): nat {
    if i == 0 then 64 else 2 * Edge(i - 1)
  }

  lemma {:induction false} EdgesGrow(i: nat, j: nat)
    requires i <= j
    ensures Edge(i) <= Edge(j)
    decreases j
  {
    if i < j {
      EdgesGrow(i, j - 1);
    }
  }

  /** The bucket of a duration: bucket i holds what is below 64 * 2^i and not below the edge before;
      the last holds the rest. */
  predicate InBucket(us: u64, i: nat) {
    i < BUCKETS && (i > 0 ==> Edge(i - 1) <= us) && (i + 1 < BUCKETS ==> us < Edge(i))
  }

  /** Every duration has one bucket. */
  lemma BucketIsUnique(us: u64, i: nat, j: nat)
    requires InBucket(us, i) && InBucket(us, j)
    ensures i == j
  {
    if i < j {
      EdgesGrow(i, j - 1);
    } else if j < i {
      EdgesGrow(j, i - 1);
    }
  }

  function Bucket(us: u64): (i: nat)
    ensures InBucket(us, i)
  {
    BucketFrom(us, 0)
  }

  function BucketFrom(us: u64, i: nat): (b: nat)
    requires i < BUCKETS && (i > 0 ==> Edge(i - 1) <= us)
    ensures InBucket(us, b)
    decreases BUCKETS - i
  {
    if i + 1 == BUCKETS || us < Edge(i) then i else BucketFrom(us, i + 1)
  }

  method FindBucket(us: u64) returns (b: nat)
    ensures InBucket(us, b) && b == Bucket(us)
  {
    var edge := 64;
    b := 0;
    while b + 1 < BUCKETS
      invariant b < BUCKETS && edge == Edge(b) && (b > 0 ==> Edge(b - 1) <= us)
    {
      if us < edge {
        BucketIsUnique(us, b, Bucket(us));
        return;
      }
      edge := edge * 2;
      b := b + 1;
    }
    BucketIsUnique(us, b, Bucket(us));
  }

  function Added(s: Stats, bytesOut: u64, bytesIn: u64, us: u64): (r: Stats)
    requires StatsOk(s)
    ensures StatsOk(r)
  {
    Stats(W64(s.count + 1), W64(s.bytesOut + bytesOut), W64(s.bytesIn + bytesIn), W64(s.totalUs + us),
          if us < s.minUs then us else s.minUs, if us > s.maxUs then us else s.maxUs,
          s.hist[Bucket(us) := W32(s.hist[Bucket(us)] as int + 1)])
  }

  /** One call counted, its bucket found by the search. */
  method CountCall(s: Stats, bytesOut: u64, bytesIn: u64, us: u64) returns (r: Stats)
    requires StatsOk(s)
    ensures r == Added(s, bytesOut, bytesIn, us)
  {
    r := s.(count := W64(s.count + 1), bytesOut := W64(s.bytesOut + bytesOut), bytesIn := W64(s.bytesIn + bytesIn),
            totalUs := W64(s.totalUs + us));
    if us < r.minUs {
      r := r.(minUs := us);
    }
    if us > r.maxUs {
      r := r.(maxUs := us);
    }
    var b := FindBucket(us);
    r := r.(hist := r.hist[b := W32(r.hist[b] as int + 1)]);
  }

  function WithCall(f: Frames, bytesOut: u64, bytesIn: u64): Frames {
    f.(openOps := W64(f.openOps + 1), openBytes := W64(f.openBytes + W64(bytesOut + bytesIn)))
  }

  function Recorded(s: State, op: u32, bytesOut: u64, bytesIn: u64, us: u64): (r: State)
    requires Ok(s)
    ensures Ok(r)
  {
    var frames := WithCall(s.frames, bytesOut, bytesIn);
    if op < MAX_OPS then s.(perOp := s.perOp[op := Added(s.perOp[op], bytesOut, bytesIn, us)], frames := frames)
    else s.(unknown := Added(s.unknown, bytesOut, bytesIn, us), frames := frames)
  }

  // ---- one present ----

  function Saturated(us: u64): u32 {
    if us > U32_MAX then U32_MAX else us
  }

  function Elapsed(f: Frames, now: u64): u64 {
    W64(now - f.lastPresentUs)
  }

  /** The open frame added to the totals. */
  function Counted(f: Frames, us: u64): Frames {
    f.(frames := W64(f.frames + 1), opsTotal := W64(f.opsTotal + f.openOps),
       bytesTotal := W64(f.bytesTotal + f.openBytes),
       usTotal := W64(f.usTotal + us), usMin := if us < f.usMin then us else f.usMin,
       usMax := if us > f.usMax then us else f.usMax)
  }

  function Closed(f: Frames, now: u64): Frames {
    var counted := if f.open then Counted(f, Elapsed(f, now)) else f;
    counted.(openOps := 0, openBytes := 0, open := true, lastPresentUs := now)
  }

  function Marked(s: State, now: u64): (r: State)
    requires Ok(s)
    ensures Ok(r)
  {
    var t := s.(frames := Closed(s.frames, now));
    if s.frames.open && s.ringEnabled
    then t.(ring := s.ring[s.ringTotal % RING := Saturated(Elapsed(s.frames, now))], ringTotal := W64(s.ringTotal + 1))
    else t
  }

  class Profile {
    const perOp: array<Stats>
    var unknown: Stats
    var phases: Phases
    var sweep: Sweep
    var worker: bool
    var frames: Frames
    var ringEnabled: bool
    var ringTotal: u64
    const ring: array<u32>

    ghost predicate Valid()
      reads this, perOp, ring
    {
      Ok(Value())
    }

    ghost function Value(): State
      reads this, perOp, ring
    {
      State(perOp[..], unknown, phases, sweep, worker, frames, ringEnabled, ringTotal, ring[..])
    }

    constructor (ringEnabled: bool)
      ensures Valid() && fresh(perOp) && fresh(ring) && Value() == Empty(ringEnabled)
    {
      perOp := new Stats[MAX_OPS](_ => NO_CALLS);
      ring := new u32[RING](_ => 0);
      unknown := NO_CALLS;
      phases := Phases(0, 0, 0, 0, 0, 0, 0);
      sweep := Sweep(0, 0, 0, 0, 0);
      worker := false;
      frames := NO_FRAMES;
      this.ringEnabled := ringEnabled;
      ringTotal := 0;
      new;
      assert perOp[..] == seq(MAX_OPS, _ => NO_CALLS);
      assert ring[..] == seq(RING, _ => 0);
    }

    method Record(op: u32, bytesOut: u64, bytesIn: u64, us: u64)
      requires Valid()
      modifies this`unknown, this`frames, perOp
      ensures Valid() && Value() == Recorded(old(Value()), op, bytesOut, bytesIn, us)
    {
      if op < MAX_OPS {
        assert StatsOk(Value().perOp[op]);
        perOp[op] := CountCall(perOp[op], bytesOut, bytesIn, us);
      } else {
        unknown := CountCall(unknown, bytesOut, bytesIn, us);
      }
      frames := WithCall(frames, bytesOut, bytesIn);
    }

    method CountFrame(us: u64)
      modifies this`frames
      ensures frames == Counted(old(frames), us)
    {
      frames := frames.(frames := W64(frames.frames + 1), usTotal := W64(frames.usTotal + us));
      if us < frames.usMin {
        frames := frames.(usMin := us);
      }
      if us > frames.usMax {
        frames := frames.(usMax := us);
      }
      frames := frames.(opsTotal := W64(frames.opsTotal + frames.openOps));
      frames := frames.(bytesTotal := W64(frames.bytesTotal + frames.openBytes));
    }

    /** Puts a frame time in the ring, over the oldest. */
    method PushFrame(us: u64)
      requires ring.Length == RING
      modifies this`ringTotal, ring
      ensures ring[..] == old(ring[..])[old(ringTotal) % RING := Saturated(us)]
      ensures ringTotal == W64(old(ringTotal) + 1)
    {
      ring[ringTotal % RING] := if us > U32_MAX then U32_MAX else us;
      ringTotal := W64(ringTotal + 1);
    }

    method FrameMark(now: u64)
      requires Valid()
      modifies this`frames, this`ringTotal, ring
      ensures Valid() && Value() == Marked(old(Value()), now)
    {
      if frames.open {
        var us := W64(now - frames.lastPresentUs);
        CountFrame(us);
        if ringEnabled {
          PushFrame(us);
        }
      }
      frames := frames.(open := true, lastPresentUs := now, openOps := 0, openBytes := 0);
      assert frames == Closed(old(frames), now);
    }
  }

  const NO_CALLS: Stats := Stats(0, 0, 0, 0, U64_MAX, 0, [0, 0, 0, 0, 0, 0, 0, 0, 0, 0, 0, 0])
  const NO_FRAMES: Frames := Frames(0, 0, 0, 0, U64_MAX, 0, 0, 0, false, 0)

  function Empty(ringEnabled: bool): (s: State)
    ensures Ok(s)
  {
    State(seq(MAX_OPS, _ => NO_CALLS), NO_CALLS, Phases(0, 0, 0, 0, 0, 0, 0), Sweep(0, 0, 0, 0, 0), false, NO_FRAMES,
          ringEnabled, 0, seq(RING, _ => 0))
  }
}
