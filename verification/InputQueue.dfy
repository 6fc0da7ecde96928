/** The bounded input ring between the worker's windows and the sidecar's polls. */
module InputQueue {
  import opened Basics
  const SOFT_CAP: nat := 4096
  const POLL_CAP: nat := 256
  const HARD_CEILING: nat := SOFT_CAP + 1024

  const MOTION: nat := 1             // the only disposable kind
  const GEOMETRY_REQUEST: nat := 7   // the last valid kind

  /** What the event carries besides its routing; the ring never looks at it. */
  datatype Payload = Payload(
    clientX: int, clientY: int, button: int, wheel: int, vk: int, scancode: int, modifiers: nat,
    pressed: bool, rootX: int, rootY: int, reqWidth: nat, reqHeight: nat, hostRequest: nat)

  datatype Event = Event(xid: nat, epoch: nat, seqNo: nat, kind: nat, payload: Payload)

  /** The ring as a value. */
  datatype Ring = Ring(events: seq<Event>, nextSeq: nat, dropped: bool)

  const EMPTY_RING := Ring([], 0, false)

  predicate IsMotion(ev: Event) {
    ev.kind == MOTION
  }

  predicate ValidKind(kind: nat) {
    0 < kind <= GEOMETRY_REQUEST
  }

  function RemoveAt(events: seq<Event>, i: nat): seq<Event>
    requires i < |events|
  {
    events[..i] + events[i + 1..]
  }

  /** Where the last pending motion of `xid` sits, or |events| if there is none. */
  function LastMotionOf(events: seq<Event>, xid: nat, from: nat): (i: nat)
    requires from <= |events|
    ensures i <= |events|
    ensures i < |events| ==> i < from && IsMotion(events[i]) && events[i].xid == xid
    ensures i == |events| ==> forall j | 0 <= j < from :: !(IsMotion(events[j]) && events[j].xid == xid)
  {
    if from == 0 then |events|
    else if IsMotion(events[from - 1]) && events[from - 1].xid == xid then from - 1
    else LastMotionOf(events, xid, from - 1)
  }

  /** Where the oldest motion sits, or |events| if there is none. */
  function FirstMotion(events: seq<Event>, from: nat): (i: nat)
    requires from <= |events|
    ensures from <= i <= |events|
    ensures i < |events| ==> IsMotion(events[i])
    ensures forall j | from <= j < i :: !IsMotion(events[j])
    decreases |events| - from
  {
    if from == |events| || IsMotion(events[from]) then from else FirstMotion(events, from + 1)
  }

  /** Latest-pending-motion-per-toplevel: a new motion takes the place of the pending one. */
  function WithoutPending(events: seq<Event>, ev: Event): seq<Event> {
    var i := LastMotionOf(events, ev.xid, |events|);
    if IsMotion(ev) && i < |events| then RemoveAt(events, i) else events
  }

  /** Whether an incoming event is admitted, the events it is admitted behind, and whether the
      ring overflowed. */
  datatype Admission = Admission(admitted: bool, events: seq<Event>, overflow: bool)

  function Admit(events: seq<Event>, disposable: bool): Admission {
    var i := FirstMotion(events, 0);
    if |events| < SOFT_CAP then Admission(true, events, false)
    else if i < |events| then Admission(true, RemoveAt(events, i), true)
    else if disposable then Admission(false, events, true)
    else if |events| < HARD_CEILING then Admission(true, events, true)
    else Admission(true, events[1..], true)
  }

  /** The ring's events once `ev` has arrived. */
  function Arrived(events: seq<Event>, ev: Event): seq<Event> {
    var a := Admit(WithoutPending(events, ev), IsMotion(ev));
    if a.admitted then a.events + [ev] else a.events
  }

  function Push(r: Ring, xid: nat, epoch: nat, kind: nat, payload: Payload): Ring {
    if xid == 0 || !ValidKind(kind) then r
    else
      var ev := Event(xid, epoch, r.nextSeq + 1, kind, payload);
      Ring(Arrived(r.events, ev), r.nextSeq + 1,
           r.dropped || Admit(WithoutPending(r.events, ev), IsMotion(ev)).overflow)
  }

  /** The first event newer than the cursor. */
  function Stragglers(events: seq<Event>, cursor: nat): (i: nat)
    ensures i <= |events|
  {
    if events == [] || events[0].seqNo > cursor then 0 else 1 + Stragglers(events[1..], cursor)
  }

  datatype Polled = Polled(ring: Ring, out: seq<Event>, cursor: nat, dropped: bool)

  function Drain(r: Ring, cursor: nat): Polled {
    var events := r.events[Stragglers(r.events, cursor)..];
    var n := Min(|events|, POLL_CAP);
    Polled(Ring(events[n..], r.nextSeq, false), events[..n],
           if n == 0 then cursor else events[n - 1].seqNo, r.dropped)
  }

  // ---- the ring as the worker runs it ----

  class InputQueue {
    var events: seq<Event>
    var nextSeq: nat
    var dropped: bool

    ghost function Value(): Ring
      reads this
    {
      Ring(events, nextSeq, dropped)
    }

    constructor ()
      ensures Value() == EMPTY_RING
    {
      events, nextSeq, dropped := [], 0, false;
    }

    method Enqueue(xid: nat, epoch: nat, kind: nat, payload: Payload)
      modifies this
      ensures Value() == Push(old(Value()), xid, epoch, kind, payload)
    {
      if xid == 0 || kind == 0 || kind > GEOMETRY_REQUEST {
        return;
      }
      nextSeq := nextSeq + 1;
      var ev := Event(xid, epoch, nextSeq, kind, payload);
      if kind == MOTION {
        DropPendingMotion(ev);
      }
      if |events| >= SOFT_CAP {
        var evicted := DropOldestMotion();
        if evicted {
        } else if kind == MOTION {
          dropped := true;
          return;
        } else {
          dropped := true;
          if |events| >= HARD_CEILING {
            events := events[1..];
          }
        }
      }
      events := events + [ev];
    }

    method DropPendingMotion(ev: Event)
      requires IsMotion(ev)
      modifies this`events
      ensures events == WithoutPending(old(events), ev)
    {
      var i := |events|;
      while i != 0
        invariant 0 <= i <= |events| && events == old(events)
        invariant LastMotionOf(events, ev.xid, |events|) == LastMotionOf(events, ev.xid, i)
      {
        i := i - 1;
        if events[i].kind == MOTION && events[i].xid == ev.xid {
          events := events[..i] + events[i + 1..];
          return;
        }
      }
    }

    method DropOldestMotion() returns (evicted: bool)
      modifies this`events, this`dropped
      ensures var i := FirstMotion(old(events), 0);
              if i < |old(events)| then evicted && events == RemoveAt(old(events), i) && dropped
              else !evicted && events == old(events) && dropped == old(dropped)
    {
      var i := 0;
      while i < |events|
        invariant 0 <= i <= |events| && events == old(events) && dropped == old(dropped)
        invariant FirstMotion(events, 0) == FirstMotion(events, i)
      {
        if events[i].kind == MOTION {
          events := events[..i] + events[i + 1..];
          dropped := true;
          return true;
        }
        i := i + 1;
      }
      return false;
    }

    method DiscardStragglers(sinceSeq: nat)
      modifies this`events
      ensures events == old(events)[Stragglers(old(events), sinceSeq)..]
    {
      ghost var k := 0;
      while events != [] && events[0].seqNo <= sinceSeq
        invariant k <= |old(events)| && events == old(events)[k..]
        invariant Stragglers(old(events), sinceSeq) == k + Stragglers(events, sinceSeq)
        decreases |events|
      {
        assert old(events)[k..][1..] == old(events)[k + 1..];
        events := events[1..];
        k := k + 1;
      }
    }

    /** Moves events to the caller, oldest first, up to the cap. */
    method TakeBatch(sinceSeq: nat) returns (out: seq<Event>, cursor: nat)
      modifies this`events
      ensures var n := Min(|old(events)|, POLL_CAP);
              out == old(events)[..n] && events == old(events)[n..]
              && cursor == if n == 0 then sinceSeq else old(events)[n - 1].seqNo
    {
      out := [];
      cursor := sinceSeq;
      ghost var n := 0;
      while events != [] && |out| < POLL_CAP
        invariant n == |out| <= |old(events)| && n <= POLL_CAP
        invariant out == old(events)[..n] && events == old(events)[n..]
        invariant cursor == if n == 0 then sinceSeq else old(events)[n - 1].seqNo
        decreases |events|
      {
        assert old(events)[n..][1..] == old(events)[n + 1..];
        cursor := events[0].seqNo;
        out := out + [events[0]];
        events := events[1..];
        n := n + 1;
      }
    }

    method Poll(sinceSeq: nat) returns (out: seq<Event>, cursor: nat, wasDropped: bool)
      modifies this
      ensures Polled(Value(), out, cursor, wasDropped) == Drain(old(Value()), sinceSeq)
    {
      DiscardStragglers(sinceSeq);
      out, cursor := TakeBatch(sinceSeq);
      wasDropped := dropped;
      dropped := false;
    }
  }
}
