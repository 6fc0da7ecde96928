/** The input ring over whole runs, polled by a sidecar that feeds the returned cursor back. */
module InputRuns {
  import opened Basics
  import opened InputQueue
  import opened Sequences

  /** The ring, the poller's cursor, and what has happened so far: the protected events admitted,
      those delivered, the sequence numbers of those given up at the hard ceiling, and how many of
      the latter no poll has reported yet. */
  datatype Session = Session(
    ring: Ring,
    cursor: nat,
    admitted: seq<Event>,
    delivered: seq<Event>,
    lost: set<nat>,
    unreported: nat)

  datatype Action =
    | Input(xid: nat, epoch: nat, kind: nat, payload: Payload)
    | Poll

  const FRESH := Session(EMPTY_RING, 0, [], [], {}, 0)

  function Protected(events: seq<Event>): seq<Event> {
    if events == [] then []
    else if IsMotion(events[0]) then Protected(events[1..])
    else [events[0]] + Protected(events[1..])
  }

  /** An incoming protected event finds the ring at its ceiling with nothing disposable in it. */
  predicate AtCeiling(r: Ring, kind: nat) {
    kind != MOTION && |r.events| >= HARD_CEILING && FirstMotion(r.events, 0) == |r.events|
  }

  function Act(s: Session, a: Action): Session {
    match a
    case Input(xid, epoch, kind, payload) =>
      if xid == 0 || !ValidKind(kind) then s
      else
        var s' := s.(ring := Push(s.ring, xid, epoch, kind, payload));
        if kind == MOTION then s'
        else
          var ev := Event(xid, epoch, s.ring.nextSeq + 1, kind, payload);
          var s'' := s'.(admitted := s.admitted + [ev]);
          if AtCeiling(s.ring, kind)
          then s''.(lost := s.lost + {s.ring.events[0].seqNo}, unreported := s.unreported + 1)
          else s''
    case Poll =>
      var p := Drain(s.ring, s.cursor);
      s.(ring := p.ring, cursor := p.cursor, delivered := s.delivered + Protected(p.out),
         unreported := if p.dropped then 0 else s.unreported)
  }

  function Execute(actions: seq<Action>): Session {
    if actions == [] then FRESH
    else Act(Execute(actions[..|actions| - 1]), actions[|actions| - 1])
  }

  /** The events of a list that were not given up. */
  function Kept(events: seq<Event>, lost: set<nat>): seq<Event> {
    if events == [] then []
    else if events[0].seqNo in lost then Kept(events[1..], lost)
    else [events[0]] + Kept(events[1..], lost)
  }

  // ---- the shape of the ring ----

  ghost predicate Ascending(events: seq<Event>) {
    forall i, j | 0 <= i < j < |events| :: events[i].seqNo < events[j].seqNo
  }

  ghost predicate OneMotionEach(events: seq<Event>) {
    forall i, j | 0 <= i < j < |events| && IsMotion(events[i]) && IsMotion(events[j]) ::
      events[i].xid != events[j].xid
  }

  ghost predicate NoMotion(events: seq<Event>) {
    forall i | 0 <= i < |events| :: !IsMotion(events[i])
  }

  ghost predicate EventsOk(events: seq<Event>, nextSeq: nat) {
    && Ascending(events) && OneMotionEach(events)
    && (forall i | 0 <= i < |events| :: events[i].seqNo <= nextSeq)
    && |events| <= HARD_CEILING
    && (|events| > SOFT_CAP ==> NoMotion(events))
  }

  ghost predicate RingOk(r: Ring) {
    EventsOk(r.events, r.nextSeq)
  }

  /** What is in one part of an ascending list is not in the other. */
  lemma AscendingApart(front: seq<Event>, back: seq<Event>, ev: Event)
    requires Ascending(front + back) && ev in front
    ensures ev !in back
  {
    var i :| 0 <= i < |front| && front[i] == ev;
    forall j | 0 <= j < |back|
      ensures back[j] != ev
    {
      assert (front + back)[i].seqNo < (front + back)[|front| + j].seqNo;
    }
  }

  lemma RemoveKeepsOrder(events: seq<Event>, i: nat)
    requires i < |events| && Ascending(events) && OneMotionEach(events)
    ensures Ascending(RemoveAt(events, i)) && OneMotionEach(RemoveAt(events, i))
    ensures forall j | 0 <= j < |RemoveAt(events, i)| :: RemoveAt(events, i)[j] in events
  {
    var rest := RemoveAt(events, i);
    forall j | 0 <= j < |rest|
      ensures rest[j] == events[if j < i then j else j + 1]
    {
    }
  }

  /** A replaced motion makes its own room: the ring is then below the soft cap. */
  lemma PendingMakesRoom(r: Ring, ev: Event)
    requires RingOk(r)
    ensures var events := WithoutPending(r.events, ev);
            && Ascending(events) && OneMotionEach(events) && |events| <= |r.events|
            && (forall j | 0 <= j < |events| :: events[j] in r.events)
            && (IsMotion(ev) ==> forall j | 0 <= j < |events| && IsMotion(events[j]) :: events[j].xid != ev.xid)
            && (events != r.events ==> |events| < SOFT_CAP)
            && (|events| > SOFT_CAP ==> NoMotion(events))
  {
    var i := LastMotionOf(r.events, ev.xid, |r.events|);
    if IsMotion(ev) && i < |r.events| {
      RemoveKeepsOrder(r.events, i);
      var events := RemoveAt(r.events, i);
      forall j | 0 <= j < |events| && IsMotion(events[j])
        ensures events[j].xid != ev.xid
      {
        assert events[j] == r.events[if j < i then j else j + 1];
      }
    }
  }

  /** What admission leaves behind is still in order, and has room for the incoming event. */
  lemma AdmitKeepsOrder(events: seq<Event>, disposable: bool)
    requires Ascending(events) && OneMotionEach(events) && |events| <= HARD_CEILING
    requires |events| > SOFT_CAP ==> NoMotion(events)
    ensures var a := Admit(events, disposable);
            && Ascending(a.events) && OneMotionEach(a.events)
            && (forall j | 0 <= j < |a.events| :: a.events[j] in events)
            && (if a.admitted then |a.events| < HARD_CEILING else |a.events| <= HARD_CEILING)
            && (a.admitted && disposable ==> |a.events| < SOFT_CAP)
            && (|a.events| >= SOFT_CAP ==> NoMotion(a.events))
  {
    var i := FirstMotion(events, 0);
    if |events| >= SOFT_CAP && i < |events| {
      RemoveKeepsOrder(events, i);
    }
  }

  lemma AppendKeepsRing(events: seq<Event>, ev: Event)
    requires Ascending(events) && OneMotionEach(events) && |events| < HARD_CEILING
    requires IsMotion(ev) ==> |events| < SOFT_CAP
    requires |events| >= SOFT_CAP ==> NoMotion(events)
    requires forall j | 0 <= j < |events| :: events[j].seqNo < ev.seqNo
    requires IsMotion(ev) ==> forall j | 0 <= j < |events| && IsMotion(events[j]) :: events[j].xid != ev.xid
    ensures EventsOk(events + [ev], ev.seqNo)
  {
  }

  /** Everything an incoming event is admitted behind is older, and no motion of its own toplevel. */
  lemma AdmittedBehindOlder(r: Ring, ev: Event)
    requires RingOk(r) && ev.seqNo == r.nextSeq + 1
    ensures var a := Admit(WithoutPending(r.events, ev), IsMotion(ev));
            forall j | 0 <= j < |a.events| ::
              a.events[j].seqNo <= r.nextSeq &&
              (IsMotion(ev) && IsMotion(a.events[j]) ==> a.events[j].xid != ev.xid)
  {
    PendingMakesRoom(r, ev);
    var events := WithoutPending(r.events, ev);
    AdmitKeepsOrder(events, IsMotion(ev));
    var a := Admit(events, IsMotion(ev));
    forall j | 0 <= j < |a.events|
      ensures a.events[j].seqNo <= r.nextSeq
      ensures IsMotion(ev) && IsMotion(a.events[j]) ==> a.events[j].xid != ev.xid
    {
      assert a.events[j] in events;
      assert a.events[j] in r.events;
    }
  }

  lemma ArrivalKeepsRing(r: Ring, ev: Event)
    requires RingOk(r) && ev.seqNo == r.nextSeq + 1
    ensures EventsOk(Arrived(r.events, ev), ev.seqNo)
  {
    var events := WithoutPending(r.events, ev);
    var a := Admit(events, IsMotion(ev));
    AdmittedBehindOlder(r, ev);
    PendingMakesRoom(r, ev);
    AdmitKeepsOrder(events, IsMotion(ev));
    if a.admitted {
      AppendKeepsRing(a.events, ev);
    }
  }

  lemma PushKeepsRing(r: Ring, xid: nat, epoch: nat, kind: nat, payload: Payload)
    requires RingOk(r)
    ensures RingOk(Push(r, xid, epoch, kind, payload))
  {
    if xid != 0 && ValidKind(kind) {
      var ev := Event(xid, epoch, r.nextSeq + 1, kind, payload);
      var r' := Push(r, xid, epoch, kind, payload);
      assert r'.events == Arrived(r.events, ev) && r'.nextSeq == ev.seqNo;
      ArrivalKeepsRing(r, ev);
    }
  }

  lemma DrainKeepsRing(r: Ring, cursor: nat)
    requires RingOk(r)
    ensures RingOk(Drain(r, cursor).ring)
  {
  }

  /** Replacing a pending motion never loses both: the new one is admitted at the back. */
  lemma ReplacingNeverLosesBoth(r: Ring, xid: nat, epoch: nat, payload: Payload, i: nat)
    requires RingOk(r) && xid != 0
    requires i < |r.events| && IsMotion(r.events[i]) && r.events[i].xid == xid
    ensures var r' := Push(r, xid, epoch, MOTION, payload);
            && r'.events == RemoveAt(r.events, i) + [Event(xid, epoch, r.nextSeq + 1, MOTION, payload)]
            && r'.dropped == r.dropped
  {
    assert LastMotionOf(r.events, xid, |r.events|) == i;
  }

  // ---- what becomes of a motion ----

  /** A newer motion of the same toplevel takes the place of a pending one. */
  predicate Supersedes(newcomer: Event, ev: Event) {
    IsMotion(newcomer) && newcomer.xid == ev.xid
  }

  /** At the soft cap a newcomer costs the oldest motion its place. */
  predicate Evicts(events: seq<Event>, newcomer: Event, ev: Event) {
    var rest := WithoutPending(events, newcomer);
    var i := FirstMotion(rest, 0);
    |rest| >= SOFT_CAP && i < |rest| && rest[i] == ev
  }

  /** At the soft cap, with protected events only, a motion is not let in. */
  predicate RefusesMotion(r: Ring) {
    |r.events| >= SOFT_CAP && FirstMotion(r.events, 0) == |r.events|
  }

  lemma RemovesOnlyOne(events: seq<Event>, i: nat, ev: Event)
    requires Ascending(events) && i < |events| && ev in events
    ensures ev in RemoveAt(events, i) <==> ev != events[i]
  {
    var j :| 0 <= j < |events| && events[j] == ev;
    var rest := RemoveAt(events, i);
    if j != i {
      assert rest[if j < i then j else j - 1] == ev;
    }
    forall k | 0 <= k < |rest|
      ensures rest[k] != events[i]
    {
      assert rest[k] == events[if k < i then k else k + 1];
    }
  }

  lemma PendingIsSuperseded(r: Ring, newcomer: Event, ev: Event)
    requires RingOk(r) && ev in r.events && IsMotion(ev)
    ensures ev in WithoutPending(r.events, newcomer) <==> !Supersedes(newcomer, ev)
  {
    var i := LastMotionOf(r.events, newcomer.xid, |r.events|);
    if IsMotion(newcomer) && i < |r.events| {
      RemovesOnlyOne(r.events, i, ev);
      var j :| 0 <= j < |r.events| && r.events[j] == ev;
      assert i != j ==> r.events[i].xid != r.events[j].xid;
    }
  }

  lemma OldestIsEvicted(events: seq<Event>, disposable: bool, ev: Event)
    requires Ascending(events) && ev in events && IsMotion(ev)
    ensures ev in Admit(events, disposable).events
            <==> !(|events| >= SOFT_CAP && FirstMotion(events, 0) < |events| && events[FirstMotion(events, 0)] == ev)
  {
    var i := FirstMotion(events, 0);
    assert i < |events|;
    if |events| >= SOFT_CAP {
      RemovesOnlyOne(events, i, ev);
    }
  }

  /** A pending motion outlasts an arrival exactly when it is neither superseded nor evicted. */
  lemma MotionOutlastsExactly(r: Ring, newcomer: Event, ev: Event)
    requires RingOk(r) && newcomer.seqNo == r.nextSeq + 1 && ev in r.events && IsMotion(ev)
    ensures ev in Arrived(r.events, newcomer) <==> !Supersedes(newcomer, ev) && !Evicts(r.events, newcomer, ev)
  {
    var rest := WithoutPending(r.events, newcomer);
    PendingIsSuperseded(r, newcomer, ev);
    PendingMakesRoom(r, newcomer);
    assert ev != newcomer;
    if ev in rest {
      OldestIsEvicted(rest, IsMotion(newcomer), ev);
    } else {
      AdmitKeepsOrder(rest, IsMotion(newcomer));
    }
  }

  /** A motion is let in exactly when the ring has room, or a motion to give up. */
  lemma MotionLetInExactly(r: Ring, ev: Event)
    requires RingOk(r) && ev.seqNo == r.nextSeq + 1 && IsMotion(ev)
    ensures ev in Arrived(r.events, ev) <==> !RefusesMotion(r)
  {
    var rest := WithoutPending(r.events, ev);
    PendingMakesRoom(r, ev);
    if RefusesMotion(r) {
      assert rest == r.events && ev !in r.events;
    } else {
      assert Admit(rest, true).admitted;
    }
  }

  // ---- conservation of protected events ----

  lemma {:induction false} ProtectedConcat(a: seq<Event>, b: seq<Event>)
    ensures Protected(a + b) == Protected(a) + Protected(b)
  {
    if a == [] {
      assert a + b == b;
    } else {
      assert (a + b)[1..] == a[1..] + b;
      ProtectedConcat(a[1..], b);
    }
  }

  lemma ProtectedOne(ev: Event)
    ensures Protected([ev]) == if IsMotion(ev) then [] else [ev]
  {
    assert [ev][1..] == [];
  }

  lemma {:induction false} ProtectedWithoutMotion(events: seq<Event>)
    requires NoMotion(events)
    ensures Protected(events) == events
  {
    if events != [] {
      ProtectedWithoutMotion(events[1..]);
    }
  }

  lemma ProtectedSkipsMotion(front: seq<Event>, ev: Event, back: seq<Event>)
    requires IsMotion(ev)
    ensures Protected(front + [ev] + back) == Protected(front + back)
  {
    ProtectedConcat(front + [ev], back);
    ProtectedConcat(front, [ev]);
    ProtectedConcat(front, back);
    ProtectedOne(ev);
    assert Protected(front) + [] == Protected(front);
  }

  lemma RemovingMotionKeepsProtected(events: seq<Event>, i: nat)
    requires i < |events| && IsMotion(events[i])
    ensures Protected(RemoveAt(events, i)) == Protected(events)
  {
    assert events == events[..i] + [events[i]] + events[i + 1..];
    ProtectedSkipsMotion(events[..i], events[i], events[i + 1..]);
  }

  /** What admission does to the protected events: nothing, except at the ceiling. */
  lemma AdmitConserves(events: seq<Event>, disposable: bool)
    ensures var a := Admit(events, disposable);
            && (!disposable ==> a.admitted)
            && (if !disposable && |events| >= HARD_CEILING && FirstMotion(events, 0) == |events|
                then a.overflow && Protected(events) == events && Protected(a.events) == events[1..]
                else Protected(a.events) == Protected(events))
  {
    var i := FirstMotion(events, 0);
    if i < |events| {
      RemovingMotionKeepsProtected(events, i);
    } else {
      ProtectedWithoutMotion(events);
      if events != [] {
        ProtectedWithoutMotion(events[1..]);
      }
    }
  }

  lemma ReplacementConserves(events: seq<Event>, ev: Event)
    ensures Protected(WithoutPending(events, ev)) == Protected(events)
    ensures !IsMotion(ev) ==> WithoutPending(events, ev) == events
  {
    var p := LastMotionOf(events, ev.xid, |events|);
    if IsMotion(ev) && p < |events| {
      RemovingMotionKeepsProtected(events, p);
    }
  }

  /** What a push does to the protected events: it appends the incoming one if it is protected, and
      at the ceiling, and only there, gives up the oldest. */
  lemma PushConserves(r: Ring, xid: nat, epoch: nat, kind: nat, payload: Payload)
    requires xid != 0 && ValidKind(kind)
    ensures var ev := Event(xid, epoch, r.nextSeq + 1, kind, payload);
            var r' := Push(r, xid, epoch, kind, payload);
            && (AtCeiling(r, kind) ==> r'.dropped && Protected(r.events) == r.events)
            && (r.dropped ==> r'.dropped)
            && Protected(r'.events) ==
               (if AtCeiling(r, kind) then r.events[1..] else Protected(r.events)) +
               (if IsMotion(ev) then [] else [ev])
  {
    var ev := Event(xid, epoch, r.nextSeq + 1, kind, payload);
    ReplacementConserves(r.events, ev);
    var events := WithoutPending(r.events, ev);
    AdmitConserves(events, IsMotion(ev));
    ProtectedConcat(Admit(events, IsMotion(ev)).events, [ev]);
    ProtectedOne(ev);
  }

  lemma {:induction false} KeptConcat(a: seq<Event>, b: seq<Event>, lost: set<nat>)
    ensures Kept(a + b, lost) == Kept(a, lost) + Kept(b, lost)
  {
    if a == [] {
      assert a + b == b;
    } else {
      assert (a + b)[1..] == a[1..] + b;
      KeptConcat(a[1..], b, lost);
    }
  }

  lemma {:induction false} KeptUnlost(events: seq<Event>, lost: set<nat>)
    requires forall i | 0 <= i < |events| :: events[i].seqNo !in lost
    ensures Kept(events, lost) == events
  {
    if events != [] {
      KeptUnlost(events[1..], lost);
    }
  }

  /** Giving up one more event is giving it up among those kept so far. */
  lemma {:induction false} KeptOneLess(events: seq<Event>, lost: set<nat>, n: nat)
    ensures Kept(events, lost + {n}) == Kept(Kept(events, lost), {n})
  {
    if events != [] {
      KeptOneLess(events[1..], lost, n);
      var rest := Kept(events[1..], lost);
      assert ([events[0]] + rest)[1..] == rest;
    }
  }

  lemma {:induction false} KeptIsAscending(events: seq<Event>, lost: set<nat>)
    requires Ascending(events)
    ensures Ascending(Kept(events, lost))
    ensures forall ev | ev in Kept(events, lost) :: ev in events
  {
    if events != [] {
      assert Ascending(events[1..]);
      KeptIsAscending(events[1..], lost);
      var rest := Kept(events[1..], lost);
      forall i | 0 <= i < |rest| ensures events[0].seqNo < rest[i].seqNo {
        assert rest[i] in rest && rest[i] in events[1..];
      }
      if events[0].seqNo !in lost {
        assert Kept(events, lost) == [events[0]] + rest;
      }
    }
  }

  /** In an ascending list a sequence number picks out one event. */
  lemma KeptDropsOne(front: seq<Event>, ev: Event, back: seq<Event>)
    requires Ascending(front + [ev] + back)
    ensures Kept(front + [ev] + back, {ev.seqNo}) == front + back
  {
    var all := front + [ev] + back;
    assert all[|front|] == ev;
    forall i | 0 <= i < |front|
      ensures front[i].seqNo < ev.seqNo
    {
      assert all[i] == front[i];
    }
    forall i | 0 <= i < |back|
      ensures ev.seqNo < back[i].seqNo
    {
      assert all[|front| + 1 + i] == back[i];
    }
    KeptConcat(front + [ev], back, {ev.seqNo});
    KeptConcat(front, [ev], {ev.seqNo});
    KeptUnlost(front, {ev.seqNo});
    KeptUnlost(back, {ev.seqNo});
    assert [ev][1..] == [];
    assert Kept([ev], {ev.seqNo}) == [];
  }

  // ---- whole runs ----

  ghost predicate HistoryOk(s: Session) {
    && Ascending(s.admitted)
    && (forall i | 0 <= i < |s.admitted| :: s.admitted[i].seqNo <= s.ring.nextSeq)
    && (forall n | n in s.lost :: n <= s.ring.nextSeq)
    && Kept(s.admitted, s.lost) == s.delivered + Protected(s.ring.events)
  }

  ghost predicate CursorOk(s: Session) {
    s.cursor <= s.ring.nextSeq && forall i | 0 <= i < |s.ring.events| :: s.ring.events[i].seqNo > s.cursor
  }

  ghost predicate SessionOk(s: Session) {
    RingOk(s.ring) && CursorOk(s) && HistoryOk(s) && (s.unreported > 0 ==> s.ring.dropped)
  }

  lemma NothingElseArrives(r: Ring, ev: Event)
    requires RingOk(r)
    ensures forall e | e in Arrived(r.events, ev) :: e == ev || e in r.events
  {
    var events := WithoutPending(r.events, ev);
    PendingMakesRoom(r, ev);
    AdmitKeepsOrder(events, IsMotion(ev));
    forall e | e in Arrived(r.events, ev) && e != ev
      ensures e in r.events
    {
      assert e in Admit(events, IsMotion(ev)).events;
      assert e in events;
    }
  }

  lemma ArrivedBehindCursor(before: seq<Event>, after: seq<Event>, ev: Event, cursor: nat)
    requires forall i | 0 <= i < |before| :: before[i].seqNo > cursor
    requires ev.seqNo > cursor && forall e | e in after :: e == ev || e in before
    ensures forall i | 0 <= i < |after| :: after[i].seqNo > cursor
  {
    forall i | 0 <= i < |after| ensures after[i].seqNo > cursor {
      assert after[i] in after;
    }
  }

  lemma InputPushes(s: Session, a: Action)
    requires a.Input? && a.xid != 0 && ValidKind(a.kind)
    ensures Act(s, a).ring == Push(s.ring, a.xid, a.epoch, a.kind, a.payload) && Act(s, a).cursor == s.cursor
  {
  }

  lemma PushArrives(r: Ring, ev: Event)
    requires ev.xid != 0 && ValidKind(ev.kind) && ev.seqNo == r.nextSeq + 1
    ensures var r' := Push(r, ev.xid, ev.epoch, ev.kind, ev.payload);
            r'.events == Arrived(r.events, ev) && r'.nextSeq == r.nextSeq + 1
  {
  }

  lemma PushKeepsCursor(r: Ring, ev: Event, cursor: nat)
    requires RingOk(r) && ev.xid != 0 && ValidKind(ev.kind) && ev.seqNo == r.nextSeq + 1 && cursor <= r.nextSeq
    requires forall i | 0 <= i < |r.events| :: r.events[i].seqNo > cursor
    ensures var r' := Push(r, ev.xid, ev.epoch, ev.kind, ev.payload);
            cursor <= r'.nextSeq && forall i | 0 <= i < |r'.events| :: r'.events[i].seqNo > cursor
  {
    PushArrives(r, ev);
    NothingElseArrives(r, ev);
    ArrivedBehindCursor(r.events, Arrived(r.events, ev), ev, cursor);
  }

  lemma InputKeepsCursor(s: Session, a: Action)
    requires a.Input? && SessionOk(s)
    ensures CursorOk(Act(s, a))
  {
    if a.xid != 0 && ValidKind(a.kind) {
      InputPushes(s, a);
      PushKeepsCursor(s.ring, Event(a.xid, a.epoch, s.ring.nextSeq + 1, a.kind, a.payload), s.cursor);
    }
  }

  /** A protected event joins the history and the ring alike. */
  lemma JoinKeepsHistory(admitted: seq<Event>, lost: set<nat>, delivered: seq<Event>, held: seq<Event>, ev: Event)
    requires Kept(admitted, lost) == delivered + held && ev.seqNo !in lost
    ensures Kept(admitted + [ev], lost) == delivered + (held + [ev])
  {
    KeptConcat(admitted, [ev], lost);
    KeptUnlost([ev], lost);
    assert delivered + held + [ev] == delivered + (held + [ev]);
  }

  lemma InputKeepsKept(s: Session, a: Action)
    requires a.Input? && SessionOk(s) && a.xid != 0 && ValidKind(a.kind) && a.kind != MOTION
    ensures var s' := Act(s, a); Kept(s'.admitted, s'.lost) == s'.delivered + Protected(s'.ring.events)
  {
    PushConserves(s.ring, a.xid, a.epoch, a.kind, a.payload);
    var ev := Event(a.xid, a.epoch, s.ring.nextSeq + 1, a.kind, a.payload);
    if AtCeiling(s.ring, a.kind) {
      CeilingKeepsHistory(s);
      JoinKeepsHistory(s.admitted, s.lost + {s.ring.events[0].seqNo}, s.delivered, s.ring.events[1..], ev);
    } else {
      JoinKeepsHistory(s.admitted, s.lost, s.delivered, Protected(s.ring.events), ev);
    }
  }

  lemma AscendingOneMore(events: seq<Event>, ev: Event, n: nat)
    requires Ascending(events) && ev.seqNo == n + 1 && forall i | 0 <= i < |events| :: events[i].seqNo <= n
    ensures Ascending(events + [ev])
    ensures forall i | 0 <= i < |events + [ev]| :: (events + [ev])[i].seqNo <= n + 1
  {
  }

  lemma MotionKeepsHistory(s: Session, a: Action)
    requires a.Input? && SessionOk(s) && a.xid != 0 && a.kind == MOTION
    ensures HistoryOk(Act(s, a))
  {
    var s' := Act(s, a);
    PushConserves(s.ring, a.xid, a.epoch, a.kind, a.payload);
    assert s'.ring.nextSeq == s.ring.nextSeq + 1;
    assert s'.admitted == s.admitted && s'.lost == s.lost && s'.delivered == s.delivered;
    assert Protected(s'.ring.events) == Protected(s.ring.events);
  }

  lemma ProtectedKeepsHistory(s: Session, a: Action)
    requires a.Input? && SessionOk(s) && a.xid != 0 && ValidKind(a.kind) && a.kind != MOTION
    ensures HistoryOk(Act(s, a))
  {
    var s' := Act(s, a);
    InputKeepsKept(s, a);
    var ev := Event(a.xid, a.epoch, s.ring.nextSeq + 1, a.kind, a.payload);
    assert s'.ring.nextSeq == s.ring.nextSeq + 1 && s'.admitted == s.admitted + [ev];
    AscendingOneMore(s.admitted, ev, s.ring.nextSeq);
    forall n | n in s'.lost ensures n <= s'.ring.nextSeq {
      if n !in s.lost {
        assert n == s.ring.events[0].seqNo;
      }
    }
  }

  lemma InputKeepsHistory(s: Session, a: Action)
    requires a.Input? && SessionOk(s)
    ensures HistoryOk(Act(s, a))
  {
    if a.xid != 0 && ValidKind(a.kind) {
      if a.kind == MOTION {
        MotionKeepsHistory(s, a);
      } else {
        ProtectedKeepsHistory(s, a);
      }
    }
  }

  /** The event given up at the ceiling is the oldest undelivered one. */
  lemma CeilingKeepsHistory(s: Session)
    requires HistoryOk(s) && s.ring.events != [] && Protected(s.ring.events) == s.ring.events
    ensures Kept(s.admitted, s.lost + {s.ring.events[0].seqNo}) == s.delivered + s.ring.events[1..]
  {
    var first := s.ring.events[0];
    KeptOneLess(s.admitted, s.lost, first.seqNo);
    KeptIsAscending(s.admitted, s.lost);
    assert s.delivered + s.ring.events == s.delivered + [first] + s.ring.events[1..];
    KeptDropsOne(s.delivered, first, s.ring.events[1..]);
  }

  lemma {:induction false} StragglersAreOld(events: seq<Event>, cursor: nat)
    requires Ascending(events)
    ensures forall i | 0 <= i < |events| :: events[i].seqNo <= cursor <==> i < Stragglers(events, cursor)
    decreases |events|
  {
    if events != [] && events[0].seqNo <= cursor {
      StragglersAreOld(events[1..], cursor);
      assert forall i | 0 < i < |events| :: events[i] == events[1..][i - 1];
    }
  }

  lemma InRest(events: seq<Event>, n: nat, ev: Event)
    requires n <= |events|
    ensures ev in events[n..] <==> exists i | n <= i < |events| :: events[i] == ev
  {
    var rest := events[n..];
    if i :| n <= i < |events| && events[i] == ev {
      assert rest[i - n] == ev;
    }
    if i :| 0 <= i < |rest| && rest[i] == ev {
      assert events[n + i] == ev;
    }
  }

  lemma BeyondStragglers(events: seq<Event>, cursor: nat, ev: Event)
    requires Ascending(events)
    ensures ev in events[Stragglers(events, cursor)..] <==> ev in events && ev.seqNo > cursor
  {
    StragglersAreOld(events, cursor);
    InRest(events, Stragglers(events, cursor), ev);
  }

  /** From any cursor, a poll hands out the oldest events beyond it, as many as it may, and moves the cursor
      to the last of them; the others beyond it stay. */
  lemma PollHandsOutNewer(r: Ring, cursor: nat, ev: Event)
    requires Ascending(r.events)
    ensures var p := Drain(r, cursor);
            var beyond := p.out + p.ring.events;
            && Ascending(beyond) && (ev in beyond <==> ev in r.events && ev.seqNo > cursor)
            && |p.out| == Min(|beyond|, POLL_CAP)
            && p.cursor == (if p.out == [] then cursor else p.out[|p.out| - 1].seqNo)
  {
    var beyond := r.events[Stragglers(r.events, cursor)..];
    BeyondStragglers(r.events, cursor, ev);
    assert Ascending(beyond);
    SplitAt(beyond, Min(|beyond|, POLL_CAP));
  }

  // ---- the overflow flag ----

  /** The input finds no room below the soft cap, after the motion it replaces has made its own. */
  predicate Crowds(r: Ring, a: Action) {
    a.Input? && a.xid != 0 && ValidKind(a.kind) &&
    |WithoutPending(r.events, Event(a.xid, a.epoch, r.nextSeq + 1, a.kind, a.payload))| >= SOFT_CAP
  }

  /** An input at `i` that found no room, with no poll after it. */
  predicate Overflows(actions: seq<Action>, i: nat)
    requires i < |actions|
  {
    Crowds(Execute(actions[..i]).ring, actions[i]) && forall j | i < j < |actions| :: !actions[j].Poll?
  }

  ghost predicate OverflowedSincePoll(actions: seq<Action>) {
    exists i | 0 <= i < |actions| :: Overflows(actions, i)
  }

  lemma OverflowsStill(actions: seq<Action>, a: Action, i: nat)
    requires i < |actions|
    ensures Overflows(actions + [a], i) <==> Overflows(actions, i) && !a.Poll?
  {
    var more := actions + [a];
    assert more[..i] == actions[..i] && more[i] == actions[i] && more[|actions|] == a;
    assert forall j | i < j < |actions| :: more[j] == actions[j];
  }

  lemma OverflowsNow(actions: seq<Action>, a: Action)
    ensures Overflows(actions + [a], |actions|) <==> Crowds(Execute(actions).ring, a)
  {
    var more := actions + [a];
    assert more[..|actions|] == actions && more[|actions|] == a;
  }

  lemma OverflowOneMore(actions: seq<Action>, a: Action)
    ensures OverflowedSincePoll(actions + [a]) <==>
            Crowds(Execute(actions).ring, a) || (!a.Poll? && OverflowedSincePoll(actions))
  {
    OverflowsNow(actions, a);
    forall i | 0 <= i < |actions|
      ensures Overflows(actions + [a], i) <==> Overflows(actions, i) && !a.Poll?
    {
      OverflowsStill(actions, a, i);
    }
  }

  lemma DroppedOneMore(s: Session, a: Action)
    ensures Act(s, a).ring.dropped <==> Crowds(s.ring, a) || (!a.Poll? && s.ring.dropped)
  {
  }

  /** Over every run a poll reports an overflow exactly when an input since the poll before found no room. */
  lemma {:induction false} DroppedExactly(actions: seq<Action>)
    ensures Execute(actions).ring.dropped <==> OverflowedSincePoll(actions)
    decreases |actions|
  {
    if actions != [] {
      var front, a := actions[..|actions| - 1], actions[|actions| - 1];
      DroppedExactly(front);
      LastApart(actions);
      OverflowOneMore(front, a);
      DroppedOneMore(Execute(front), a);
    }
  }

  /** A poll hands out the front of the ring; none of it has been handed out before. */
  lemma PollTakesFront(s: Session)
    requires SessionOk(s)
    ensures var n := Min(|s.ring.events|, POLL_CAP);
            var p := Drain(s.ring, s.cursor);
            p.out == s.ring.events[..n] && p.ring.events == s.ring.events[n..]
  {
    assert Stragglers(s.ring.events, s.cursor) == 0;
    assert s.ring.events[0..] == s.ring.events;
  }

  lemma SplitInTwo(events: seq<Event>, n: nat, ev: Event)
    requires Ascending(events) && n <= |events|
    ensures ev in events[n..] <==> ev in events && ev !in events[..n]
    ensures ev in events[..n] ==> ev in events
  {
    SplitAt(events, n);
    if ev in events[..n] {
      AscendingApart(events[..n], events[n..], ev);
    }
  }

  /** What a poll does not hand out waits on. */
  lemma PollSplits(s: Session, ev: Event)
    requires SessionOk(s)
    ensures var p := Drain(s.ring, s.cursor); ev in p.ring.events <==> ev in s.ring.events && ev !in p.out
    ensures ev in Drain(s.ring, s.cursor).out ==> ev in s.ring.events
  {
    PollTakesFront(s);
    SplitInTwo(s.ring.events, Min(|s.ring.events|, POLL_CAP), ev);
  }

  lemma ProtectedSplits(delivered: seq<Event>, events: seq<Event>, n: nat)
    requires n <= |events|
    ensures delivered + Protected(events) == delivered + Protected(events[..n]) + Protected(events[n..])
  {
    SplitAt(events, n);
    ProtectedConcat(events[..n], events[n..]);
    Assoc(delivered, Protected(events[..n]), Protected(events[n..]));
  }

  lemma PollKeepsHistory(s: Session)
    requires SessionOk(s)
    ensures HistoryOk(Act(s, Poll))
  {
    PollTakesFront(s);
    var n := Min(|s.ring.events|, POLL_CAP);
    var after := Act(s, Poll);
    assert after.ring.events == s.ring.events[n..] && after.ring.nextSeq == s.ring.nextSeq;
    assert after.admitted == s.admitted && after.lost == s.lost;
    assert after.delivered == s.delivered + Protected(s.ring.events[..n]);
    ProtectedSplits(s.delivered, s.ring.events, n);
  }

  lemma PollKeepsCursor(s: Session)
    requires SessionOk(s)
    ensures CursorOk(Act(s, Poll))
  {
    PollTakesFront(s);
  }

  lemma PollKeepsSession(s: Session)
    requires SessionOk(s)
    ensures SessionOk(Act(s, Poll))
  {
    DrainKeepsRing(s.ring, s.cursor);
    PollKeepsHistory(s);
    PollKeepsCursor(s);
  }

  lemma ActKeepsSession(s: Session, a: Action)
    requires SessionOk(s)
    ensures SessionOk(Act(s, a))
  {
    match a
    case Poll => PollKeepsSession(s);
    case Input(xid, epoch, kind, payload) =>
      PushKeepsRing(s.ring, xid, epoch, kind, payload);
      InputKeepsCursor(s, a);
      InputKeepsHistory(s, a);
      if xid != 0 && ValidKind(kind) {
        PushConserves(s.ring, xid, epoch, kind, payload);
      }
  }

  lemma {:induction false} SessionsAreOk(actions: seq<Action>)
    ensures SessionOk(Execute(actions))
  {
    if actions != [] {
      SessionsAreOk(actions[..|actions| - 1]);
      ActKeepsSession(Execute(actions[..|actions| - 1]), actions[|actions| - 1]);
    }
  }

  /** Over every run: the protected events drained, followed by those still pending, are exactly the
      protected events admitted, in order and once each, except those given up at the hard ceiling;
      and if any of those is unreported, the next poll reports it. */
  lemma ProtectedEventsAreConserved(actions: seq<Action>)
    ensures var s := Execute(actions);
            && s.delivered + Protected(s.ring.events) == Kept(s.admitted, s.lost)
            && (s.unreported > 0 ==> Drain(s.ring, s.cursor).dropped)
            && Act(s, Poll).unreported == 0
  {
    SessionsAreOk(actions);
  }

  /** The only way to lose a protected event is to leave the ring at its ceiling. */
  lemma NothingLostBelowCeiling(s: Session, a: Action)
    requires |s.ring.events| < HARD_CEILING
    ensures Act(s, a).lost == s.lost
  {
  }

  lemma {:induction false} NoneGivenUp(events: seq<Event>)
    ensures Kept(events, {}) == events
  {
    if events != [] {
      NoneGivenUp(events[1..]);
    }
  }

  lemma {:induction false} UncrowdedLosesNothing(actions: seq<Action>)
    requires forall k | 0 <= k < |actions| :: |Execute(actions[..k]).ring.events| < HARD_CEILING
    ensures Execute(actions).lost == {}
  {
    if actions != [] {
      var front := actions[..|actions| - 1];
      assert forall k | 0 <= k < |front| :: front[..k] == actions[..k];
      UncrowdedLosesNothing(front);
      NothingLostBelowCeiling(Execute(front), actions[|actions| - 1]);
    }
  }

  /** A run that never meets the ceiling delivers or still holds every protected event, in order. */
  lemma UncrowdedRunsKeepAll(actions: seq<Action>)
    requires forall k | 0 <= k < |actions| :: |Execute(actions[..k]).ring.events| < HARD_CEILING
    ensures var s := Execute(actions); s.delivered + Protected(s.ring.events) == s.admitted
  {
    ProtectedEventsAreConserved(actions);
    UncrowdedLosesNothing(actions);
    NoneGivenUp(Execute(actions).admitted);
  }
}
