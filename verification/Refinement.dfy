/** The ring refines the specification, step by step and over whole runs, across the wrap of
    the 32-bit sequence numbers. */
module Refinement {
  import opened Wire
  import opened Serial
  import opened Ring
  import opened Reassembly
  import S = Stream

  /** Slot i % 16 holds what the window has of message i, for the sixteen indices i of the
      window; the expected sequence number is the expected index cut to 32 bits. */
  ghost predicate Refines(r: Ring, w: S.Window, sender: Sender, session: u16) {
    && r.session == session
    && r.next == w.next % TWO_32
    && S.Bounded(sender, w)
    && forall i :: w.next <= i < w.next + MAX_BUFFERS ==>
         Holds(r.slots[i % MAX_BUFFERS], sender(i), S.Fragments(w, i))
  }

  /** What an event of the specification looks like from outside. */
  function OutputOf(session: u16, sender: Sender, e: S.Event): Output {
    match e
    case Deliver(i) => Callback(Header(session, i % TWO_32, sender(i).meta), Body(sender(i).chunks))
    case Gap(a, b) => GapWarning(a % TWO_32, b % TWO_32)
  }

  function Outputs(session: u16, sender: Sender, events: seq<S.Event>): seq<Output> {
    seq(|events|, k requires 0 <= k < |events| => OutputOf(session, sender, events[k]))
  }

  lemma OutputsConcat(session: u16, sender: Sender, a: seq<S.Event>, b: seq<S.Event>)
    ensures Outputs(session, sender, a + b) == Outputs(session, sender, a) + Outputs(session, sender, b)
  {
  }

  /** Two indices of one window never share a slot. */
  lemma SlotsApart(i: int, j: int)
    requires i != j && -16 < i - j < 16
    ensures i % MAX_BUFFERS != j % MAX_BUFFERS
  {
  }

  lemma SlotInWindow(r: Ring, w: S.Window, sender: Sender, session: u16, i: int)
    requires Refines(r, w, sender, session) && w.next <= i < w.next + MAX_BUFFERS
    ensures Holds(r.At(i % TWO_32), sender(i), S.Fragments(w, i))
    ensures r.At(i % TWO_32).ready <==> S.Complete(sender, w, i)
  {
    SlotOfSeqno(i);
  }

  lemma ProcessRefines(r: Ring, w: S.Window, sender: Sender, session: u16, p: Packet)
    requires Refines(r, w, sender, session) && p.Of(sender)
    requires w.next <= p.index < w.next + MAX_BUFFERS
    ensures var d := DatagramOf(session, sender, p);
      && Refines(Process(r, d.frame, d.payload), S.Add(w, p), sender, session)
      && StoreAsserts(r.At(d.frame.seqno), d.frame)
      && (Completes(r.At(d.frame.seqno), d.frame) <==>
            !S.Complete(sender, w, p.index) && S.Complete(sender, S.Add(w, p), p.index))
  {
    var d := DatagramOf(session, sender, p);
    ProcessSlot(r, w, sender, session, p);
    WithRefines(r, w, sender, session, p, Store(r.At(d.frame.seqno), d.frame, d.payload));
  }

  /** The slot the fragment goes to. */
  lemma ProcessSlot(r: Ring, w: S.Window, sender: Sender, session: u16, p: Packet)
    requires Refines(r, w, sender, session) && p.Of(sender)
    requires w.next <= p.index < w.next + MAX_BUFFERS
    ensures var d := DatagramOf(session, sender, p); var s := r.At(d.frame.seqno);
      && Holds(Store(s, d.frame, d.payload), sender(p.index), S.Fragments(S.Add(w, p), p.index))
      && StoreAsserts(s, d.frame)
      && (Completes(s, d.frame) <==>
            !S.Complete(sender, w, p.index) && S.Complete(sender, S.Add(w, p), p.index))
  {
    var d := DatagramOf(session, sender, p);
    SlotInWindow(r, w, sender, session, p.index);
    StoreHolds(r.At(d.frame.seqno), sender(p.index), S.Fragments(w, p.index), d.frame, d.payload, p.fragment);
  }

  /** The other slots are not affected. */
  lemma WithRefines(r: Ring, w: S.Window, sender: Sender, session: u16, p: Packet, s: Slot)
    requires Refines(r, w, sender, session) && p.Of(sender)
    requires w.next <= p.index < w.next + MAX_BUFFERS
    requires Holds(s, sender(p.index), S.Fragments(S.Add(w, p), p.index))
    ensures Refines(r.With(p.index % TWO_32, s), S.Add(w, p), sender, session)
  {
    forall i | w.next <= i < w.next + MAX_BUFFERS
      ensures Holds(r.With(p.index % TWO_32, s).slots[i % MAX_BUFFERS], sender(i), S.Fragments(S.Add(w, p), i))
    {
      WithSlot(r, p.index, s, i);
    }
    AddBounded(sender, w, p);
  }

  lemma WithSlot(r: Ring, index: int, s: Slot, i: int)
    requires -16 < i - index < 16
    ensures r.With(index % TWO_32, s).slots[i % MAX_BUFFERS] == if i == index then s else r.slots[i % MAX_BUFFERS]
  {
    SlotOfSeqno(index);
    if i != index {
      SlotsApart(i, index);
    }
  }

  lemma AddBounded(sender: Sender, w: S.Window, p: Packet)
    requires S.Bounded(sender, w) && p.Of(sender)
    requires w.next <= p.index < w.next + MAX_BUFFERS
    ensures S.Bounded(sender, S.Add(w, p))
  {
  }

  /** Giving up the slot of the expected index lets it serve the index sixteen later. */
  lemma PassRefines(r: Ring, w: S.Window, sender: Sender, session: u16, s: Slot)
    requires Refines(r, w, sender, session) && Vacant(s)
    ensures Refines(r.With(r.next, s).(next := Plus(r.next, 1)), S.MoveTo(w, w.next + 1), sender, session)
  {
    var r', w' := r.With(r.next, s).(next := Plus(r.next, 1)), S.MoveTo(w, w.next + 1);
    PlusOfIndex(w.next, 1);
    forall i | w'.next <= i < w'.next + MAX_BUFFERS
      ensures Holds(r'.slots[i % MAX_BUFFERS], sender(i), S.Fragments(w', i))
    {
      PassHolds(r, w, sender, session, s, i);
    }
  }

  lemma PassHolds(r: Ring, w: S.Window, sender: Sender, session: u16, s: Slot, i: int)
    requires Refines(r, w, sender, session) && Vacant(s)
    requires w.next < i <= w.next + MAX_BUFFERS
    ensures Holds(r.With(r.next, s).slots[i % MAX_BUFFERS], sender(i), S.Fragments(S.MoveTo(w, w.next + 1), i))
  {
    PassSlot(r, w.next, s, i);
    if i == w.next + MAX_BUFFERS {
      VacantHoldsNothing(s, sender(i));
    }
  }

  /** Which slot the window index i has after the slot of index next is replaced. */
  lemma PassSlot(r: Ring, next: int, s: Slot, i: int)
    requires r.next == next % TWO_32
    requires next < i <= next + MAX_BUFFERS
    ensures r.With(r.next, s).slots[i % MAX_BUFFERS] == if i == next + MAX_BUFFERS then s else r.slots[i % MAX_BUFFERS]
  {
    SlotOfSeqno(next);
    if i == next + MAX_BUFFERS {
      MultipleOfSixteen(next, 1);
    } else {
      SlotsApart(i, next);
    }
  }

  /** Taking the expected message out delivers it. */
  lemma PopRefines(r: Ring, w: S.Window, sender: Sender, session: u16)
    requires Refines(r, w, sender, session) && r.At(r.next).ready
    ensures Refines(Pop(r), S.MoveTo(w, w.next + 1), sender, session)
    ensures NextDelivery(r) == OutputOf(session, sender, S.Deliver(w.next))
  {
    SlotInWindow(r, w, sender, session, w.next);
    ReadyDeliversBody(r.At(r.next), sender(w.next), S.Fragments(w, w.next));
    PassRefines(r, w, sender, session, ResetSlot(r.At(r.next)));
  }

  lemma {:induction false} DrainRefines(r: Ring, w: S.Window, sender: Sender, session: u16)
    requires Refines(r, w, sender, session)
    ensures Refines(Drain(r).ring, S.Drain(sender, w).window, sender, session)
    ensures Drain(r).outs == Outputs(session, sender, S.Drain(sender, w).events)
    decreases ReadySlots(r.slots)
  {
    SlotInWindow(r, w, sender, session, w.next);
    if r.At(r.next).ready {
      var w' := S.MoveTo(w, w.next + 1);
      PopRefines(r, w, sender, session);
      PopShrinks(r);
      DrainRefines(Pop(r), w', sender, session);
      DrainStep(r);
      S.DrainStep(sender, w);
      OutputsCons(session, sender, S.Deliver(w.next), S.Drain(sender, w').events);
    }
  }

  lemma OutputsCons(session: u16, sender: Sender, e: S.Event, rest: seq<S.Event>)
    ensures Outputs(session, sender, [e] + rest) == [OutputOf(session, sender, e)] + Outputs(session, sender, rest)
  {
  }

  lemma OffsetInWindow(r: Ring, w: S.Window, sender: Sender, session: u16, k: nat)
    requires Refines(r, w, sender, session) && k < MAX_BUFFERS
    ensures r.At(Plus(r.next, k)).ready <==> S.Complete(sender, w, w.next + k)
  {
    PlusOfIndex(w.next, k);
    SlotInWindow(r, w, sender, session, w.next + k);
  }

  lemma {:induction false} SuffixRefines(r: Ring, w: S.Window, sender: Sender, session: u16, n: nat)
    requires Refines(r, w, sender, session) && n <= MAX_BUFFERS
    ensures w.next + SuffixStart(r, n) == S.SuffixStart(sender, w, w.next + n)
  {
    if n == 0 {
    } else {
      OffsetInWindow(r, w, sender, session, n - 1);
      SuffixRefines(r, w, sender, session, n - 1);
    }
  }

  lemma OffsetOfIndex(next: int, i: int)
    requires next <= i < next + MAX_BUFFERS
    ensures OffsetOfSlot(next % TWO_32, i % MAX_BUFFERS) == i - next
  {
    var k := 0x1000_0000 * (next / TWO_32) - i / 16;
    assert i % 16 - next % TWO_32 == (i - next) + 16 * k;
    MultipleOfSixteen(i - next, k);
  }

  lemma SkipRefines(r: Ring, w: S.Window, sender: Sender, session: u16, k: nat)
    requires Refines(r, w, sender, session) && k <= MAX_BUFFERS
    ensures Refines(SkipTo(r, k), S.MoveTo(w, w.next + k), sender, session)
  {
    var r', w' := SkipTo(r, k), S.MoveTo(w, w.next + k);
    PlusOfIndex(w.next, k);
    forall i | w'.next <= i < w'.next + MAX_BUFFERS
      ensures Holds(r'.slots[i % MAX_BUFFERS], sender(i), S.Fragments(w', i))
    {
      SkipHolds(r, w, sender, session, k, i);
    }
  }

  lemma SkipHolds(r: Ring, w: S.Window, sender: Sender, session: u16, k: nat, i: int)
    requires Refines(r, w, sender, session) && k <= MAX_BUFFERS
    requires w.next + k <= i < w.next + k + MAX_BUFFERS
    ensures Holds(SkipTo(r, k).slots[i % MAX_BUFFERS], sender(i), S.Fragments(S.MoveTo(w, w.next + k), i))
  {
    if i < w.next + MAX_BUFFERS {
      OffsetOfIndex(w.next, i);
    } else {
      OffsetOfIndex(w.next, i - MAX_BUFFERS);
      assert i % MAX_BUFFERS == (i - MAX_BUFFERS) % MAX_BUFFERS;
      VacantHoldsNothing(ResetSlot(r.slots[i % MAX_BUFFERS]), sender(i));
    }
  }

  /** A ring with only vacant slots, at index s, is the specification started at s. */
  lemma VacantRefines(r: Ring, sender: Sender, session: u16, s: int)
    requires r.session == session && r.next == s % TWO_32
    requires forall k :: 0 <= k < MAX_BUFFERS ==> Vacant(r.slots[k])
    ensures Refines(r, S.Start(s), sender, session)
  {
    forall i | s <= i < s + MAX_BUFFERS
      ensures Holds(r.slots[i % MAX_BUFFERS], sender(i), S.Fragments(S.Start(s), i))
    {
      VacantHoldsNothing(r.slots[i % MAX_BUFFERS], sender(i));
    }
  }

  /** If the expected slot is not ready there is nothing to drain, so it does not matter
      whether the status asks for draining. */
  lemma FinishIsDrain(u: Updated, f: Frame, p: Payload)
    requires !u.status.Dispatch? && (u.status.Buffering? ==> !u.ring.At(u.ring.next).ready)
    ensures Finish(u, f, p) == Received(Drain(u.ring).ring, u.warnings + Drain(u.ring).outs, u.healthy)
  {
    assert u.warnings + [] + Drain(u.ring).outs == u.warnings + Drain(u.ring).outs;
  }

  lemma FinishRefines(u: Updated, f: Frame, p: Payload, w: S.Window, sender: Sender, session: u16)
    requires Refines(u.ring, w, sender, session)
    requires !u.status.Dispatch? && (u.status.Buffering? ==> !S.Complete(sender, w, w.next))
    ensures Refines(Finish(u, f, p).ring, S.Drain(sender, w).window, sender, session)
    ensures Finish(u, f, p).outs == u.warnings + Outputs(session, sender, S.Drain(sender, w).events)
    ensures Finish(u, f, p).healthy == u.healthy
  {
    SlotInWindow(u.ring, w, sender, session, w.next);
    FinishIsDrain(u, f, p);
    DrainRefines(u.ring, w, sender, session);
  }

  // ----- The paths of one call

  /** A single fragment is expected and nothing of it is there, so the slot is vacant. */
  lemma ExpectedSlotVacant(r: Ring, w: S.Window, sender: Sender, session: u16)
    requires Refines(r, w, sender, session) && S.Settled(sender, w)
    requires |sender(w.next).chunks| == 1
    ensures Vacant(r.At(r.next))
  {
    SlotInWindow(r, w, sender, session, w.next);
    IncompleteSingleIsVacant(r.At(r.next), sender(w.next), S.Fragments(w, w.next));
  }

  lemma SingleChunkBody(m: Message)
    requires |m.chunks| == 1
    ensures Body(m.chunks) == m.chunks[0]
  {
    assert m.chunks[..0] == [];
    assert Body(m.chunks[..0]) + m.chunks[0] == m.chunks[0];
  }

  /** Adding the only fragment of the expected message completes it, and draining then takes
      it out again. */
  lemma SingleChunkDrain(sender: Sender, w: S.Window, p: Packet)
    requires S.Bounded(sender, w) && p.Of(sender)
    requires p.index == w.next && |sender(p.index).chunks| == 1
    ensures var d, rest := S.Receive(sender, w, p), S.Drain(sender, S.MoveTo(w, w.next + 1));
      d.window == rest.window && d.events == [S.Deliver(w.next)] + rest.events
  {
    var w' := S.Add(w, p);
    ReceiveInWindow(sender, w, p);
    PopAfterAdd(w, p);
    SingleChunkCompletes(sender, w, p);
    S.DrainStep(sender, w');
  }

  lemma SingleChunkCompletes(sender: Sender, w: S.Window, p: Packet)
    requires p.Of(sender) && |sender(p.index).chunks| == 1
    ensures S.Complete(sender, S.Add(w, p), p.index)
  {
    assert 0 in S.Fragments(S.Add(w, p), p.index);
  }

  lemma PopAfterAdd(w: S.Window, p: Packet)
    requires p.index == w.next
    ensures S.MoveTo(S.Add(w, p), w.next + 1) == S.MoveTo(w, w.next + 1)
  {
  }

  /** Inside the window the specification just adds and drains. */
  lemma ReceiveInWindow(sender: Sender, w: S.Window, p: Packet)
    requires S.Bounded(sender, w) && w.next <= p.index < w.next + MAX_BUFFERS
    ensures S.Receive(sender, w, p) == S.Drain(sender, S.Add(w, p))
  {
    assert S.MoveTo(w, w.next) == w;
    assert [] + S.Drain(sender, S.Add(w, p)).events == S.Drain(sender, S.Add(w, p)).events;
  }

  lemma DirectUpdate(r: Ring, w: S.Window, sender: Sender, session: u16, p: Packet)
    requires Refines(r, w, sender, session) && S.Settled(sender, w) && p.Of(sender)
    requires p.index == w.next && |sender(p.index).chunks| == 1
    ensures var d := DatagramOf(session, sender, p); var u := Update(r, d.frame, d.payload);
      && Refines(u.ring, S.MoveTo(w, w.next + 1), sender, session)
      && u.status == Dispatch && u.warnings == [] && u.healthy
  {
    UnwrapExact(w.next, p.index);
    ExpectedSlotVacant(r, w, sender, session);
    PassRefines(r, w, sender, session, r.At(r.next));
    assert r.With(r.next, r.At(r.next)) == r;
  }

  /** What it means for a result of the ring to be one step of the specification. */
  ghost predicate Simulates(x: Received, w: S.Window, sender: Sender, session: u16, p: Packet) {
    var a := S.Receive(sender, w, p);
    && Refines(x.ring, a.window, sender, session)
    && x.outs == Outputs(session, sender, a.events)
    && x.healthy
  }

  lemma DispatchSimulates(u: Updated, f: Frame, w: S.Window, sender: Sender, session: u16, p: Packet)
    requires S.Bounded(sender, w) && p.Of(sender)
    requires p.index == w.next && |sender(p.index).chunks| == 1
    requires Refines(u.ring, S.MoveTo(w, w.next + 1), sender, session)
    requires u.status == Dispatch && u.warnings == [] && u.healthy
    requires f.session == session && f.seqno == p.index % TWO_32 && f.meta == sender(p.index).meta
    ensures Simulates(Finish(u, f, sender(p.index).chunks[0]), w, sender, session, p)
  {
    var m, w' := sender(p.index), S.MoveTo(w, w.next + 1);
    DrainRefines(u.ring, w', sender, session);
    SingleChunkDrain(sender, w, p);
    SingleChunkBody(m);
    OutputsCons(session, sender, S.Deliver(w.next), S.Drain(sender, w').events);
    FinishDispatch(u, f, m.chunks[0]);
  }

  lemma FinishDispatch(u: Updated, f: Frame, p: Payload)
    requires u.status == Dispatch && u.warnings == []
    ensures Finish(u, f, p) ==
            Received(Drain(u.ring).ring,
                     [Callback(Header(f.session, f.seqno, f.meta), p)] + Drain(u.ring).outs, u.healthy)
  {
  }

  /** The fast path: an unfragmented frame that is expected never touches a slot, yet does
      what storing and draining would do. */
  lemma DirectRefines(r: Ring, w: S.Window, sender: Sender, session: u16, p: Packet)
    requires Refines(r, w, sender, session) && S.Settled(sender, w) && p.Of(sender)
    requires p.index == w.next && |sender(p.index).chunks| == 1
    ensures var d := DatagramOf(session, sender, p); Simulates(Receive(r, d.frame, d.payload), w, sender, session, p)
  {
    var d := DatagramOf(session, sender, p);
    DirectUpdate(r, w, sender, session, p);
    DispatchSimulates(Update(r, d.frame, d.payload), d.frame, w, sender, session, p);
  }

  lemma InWindowUpdate(r: Ring, w: S.Window, sender: Sender, session: u16, p: Packet)
    requires Refines(r, w, sender, session) && S.Settled(sender, w) && p.Of(sender)
    requires w.next <= p.index < w.next + MAX_BUFFERS
    requires p.index != w.next || |sender(p.index).chunks| > 1
    ensures var d := DatagramOf(session, sender, p); var u := Update(r, d.frame, d.payload);
      && Refines(u.ring, S.Add(w, p), sender, session)
      && !u.status.Dispatch? && (u.status.Buffering? ==> !S.Complete(sender, S.Add(w, p), w.next))
      && u.warnings == [] && u.healthy
  {
    UnwrapExact(w.next, p.index);
    ProcessRefines(r, w, sender, session, p);
    if p.index != w.next {
      assert S.Fragments(S.Add(w, p), w.next) == S.Fragments(w, w.next);
    }
  }

  /** A frame beyond the window: both ways of recovering leave room for it. */
  lemma RoomRefines(r: Ring, w: S.Window, sender: Sender, session: u16, i: int) returns (r': Ring)
    requires Refines(r, w, sender, session) && S.Settled(sender, w)
    requires w.next + MAX_BUFFERS <= i && InReach(w.next, i)
    ensures w.next < S.MakeRoom(sender, w, i) <= i < S.MakeRoom(sender, w, i) + MAX_BUFFERS
    ensures Refines(r', S.MoveTo(w, S.MakeRoom(sender, w, i)), sender, session)
    ensures r' == if i == w.next + MAX_BUFFERS then SkipTo(r, SuffixStart(r, MAX_BUFFERS))
                  else r.(next := i % TWO_32, slots := ResetAll(r.slots))
    ensures i == w.next + MAX_BUFFERS ==> SuffixStart(r, MAX_BUFFERS) > 0
  {
    if i == w.next + MAX_BUFFERS {
      var k := SuffixStart(r, MAX_BUFFERS);
      S.SuffixIsLongest(sender, w, i);
      SuffixRefines(r, w, sender, session, MAX_BUFFERS);
      SkipRefines(r, w, sender, session, k);
      r' := SkipTo(r, k);
    } else {
      r' := r.(next := i % TWO_32, slots := ResetAll(r.slots));
      VacantRefines(r', sender, session, i);
      assert S.MoveTo(w, i) == S.Start(i);
    }
  }

  lemma BeyondWindowUpdate(r: Ring, w: S.Window, sender: Sender, session: u16, p: Packet)
    requires Refines(r, w, sender, session) && S.Settled(sender, w) && p.Of(sender)
    requires w.next + MAX_BUFFERS <= p.index && InReach(w.next, p.index)
    ensures var d := DatagramOf(session, sender, p); var u := Update(r, d.frame, d.payload);
      var m := S.MakeRoom(sender, w, p.index); var w' := S.Add(S.MoveTo(w, m), p);
      && m != w.next
      && Refines(u.ring, w', sender, session)
      && !u.status.Dispatch? && (u.status.Buffering? ==> !S.Complete(sender, w', m))
      && u.warnings == [GapWarning(w.next % TWO_32, m % TWO_32)] && u.healthy
  {
    var d := DatagramOf(session, sender, p);
    UnwrapExact(w.next, p.index);
    var m := S.MakeRoom(sender, w, p.index);
    var w' := S.MoveTo(w, m);
    var r' := RoomRefines(r, w, sender, session, p.index);
    ProcessRefines(r', w', sender, session, p);
    assert Update(r, d.frame, d.payload) == Recover(r, d.frame, d.payload);
    if p.index > w.next + MAX_BUFFERS {
      assert 0 !in S.Fragments(w', p.index);
    }
  }

  lemma InWindowSimulates(u: Updated, f: Frame, payload: Payload,
                          w: S.Window, sender: Sender, session: u16, p: Packet)
    requires S.Bounded(sender, w) && w.next <= p.index < w.next + MAX_BUFFERS
    requires Refines(u.ring, S.Add(w, p), sender, session)
    requires !u.status.Dispatch? && (u.status.Buffering? ==> !S.Complete(sender, S.Add(w, p), w.next))
    requires u.warnings == [] && u.healthy
    ensures Simulates(Finish(u, f, payload), w, sender, session, p)
  {
    ReceiveInWindow(sender, w, p);
    FinishRefines(u, f, payload, S.Add(w, p), sender, session);
  }

  lemma InWindowRefines(r: Ring, w: S.Window, sender: Sender, session: u16, p: Packet)
    requires Refines(r, w, sender, session) && S.Settled(sender, w) && p.Of(sender)
    requires w.next <= p.index < w.next + MAX_BUFFERS
    requires p.index != w.next || |sender(p.index).chunks| > 1
    ensures var d := DatagramOf(session, sender, p); Simulates(Receive(r, d.frame, d.payload), w, sender, session, p)
  {
    var d := DatagramOf(session, sender, p);
    InWindowUpdate(r, w, sender, session, p);
    InWindowSimulates(Update(r, d.frame, d.payload), d.frame, d.payload, w, sender, session, p);
  }

  lemma BeyondWindowSimulates(u: Updated, f: Frame, payload: Payload,
                              w: S.Window, sender: Sender, session: u16, p: Packet)
    requires p.index >= w.next && S.MakeRoom(sender, w, p.index) != w.next
    requires var m := S.MakeRoom(sender, w, p.index); var w' := S.Add(S.MoveTo(w, m), p);
      && Refines(u.ring, w', sender, session)
      && !u.status.Dispatch? && (u.status.Buffering? ==> !S.Complete(sender, w', m))
      && u.warnings == [GapWarning(w.next % TWO_32, m % TWO_32)] && u.healthy
    ensures Simulates(Finish(u, f, payload), w, sender, session, p)
  {
    var m := S.MakeRoom(sender, w, p.index);
    var w' := S.Add(S.MoveTo(w, m), p);
    FinishRefines(u, f, payload, w', sender, session);
    ReceiveBeyond(sender, w, p);
    OutputsCons(session, sender, S.Gap(w.next, m), S.Drain(sender, w').events);
  }

  lemma ReceiveBeyond(sender: Sender, w: S.Window, p: Packet)
    requires p.index >= w.next && S.MakeRoom(sender, w, p.index) != w.next
    ensures var m := S.MakeRoom(sender, w, p.index); var d := S.Drain(sender, S.Add(S.MoveTo(w, m), p));
      S.Receive(sender, w, p) == S.Result(d.window, [S.Gap(w.next, m)] + d.events)
  {
  }

  lemma BeyondWindowRefines(r: Ring, w: S.Window, sender: Sender, session: u16, p: Packet)
    requires Refines(r, w, sender, session) && S.Settled(sender, w) && p.Of(sender)
    requires w.next + MAX_BUFFERS <= p.index && InReach(w.next, p.index)
    ensures var d := DatagramOf(session, sender, p); Simulates(Receive(r, d.frame, d.payload), w, sender, session, p)
  {
    var d := DatagramOf(session, sender, p);
    BeyondWindowUpdate(r, w, sender, session, p);
    BeyondWindowSimulates(Update(r, d.frame, d.payload), d.frame, d.payload, w, sender, session, p);
  }

  /** One datagram: the ring does what the specification does, no assert fails, and the buffer
      is never full. */
  lemma ReceiveRefines(r: Ring, w: S.Window, sender: Sender, session: u16, p: Packet)
    requires Refines(r, w, sender, session) && S.Settled(sender, w) && p.Of(sender)
    requires InReach(w.next, p.index)
    ensures var d := DatagramOf(session, sender, p); Simulates(Receive(r, d.frame, d.payload), w, sender, session, p)
  {
    if p.index < w.next {
      UnwrapExact(w.next, p.index);
    } else if p.index == w.next && |sender(p.index).chunks| == 1 {
      DirectRefines(r, w, sender, session, p);
    } else if p.index < w.next + MAX_BUFFERS {
      InWindowRefines(r, w, sender, session, p);
    } else {
      BeyondWindowRefines(r, w, sender, session, p);
    }
  }

  /** A frame from further behind or ahead than 32 bits can tell is taken for the opposite. */
  lemma OutOfReachFails(r: Ring, w: S.Window, sender: Sender, session: u16, p: Packet)
    requires Refines(r, w, sender, session) && S.Settled(sender, w) && p.Of(sender)
    requires !InReach(w.next, p.index) && -TWO_32 + 16 <= p.index - w.next < TWO_32
    ensures var d := DatagramOf(session, sender, p); !Simulates(Receive(r, d.frame, d.payload), w, sender, session, p)
  {
    var d := DatagramOf(session, sender, p);
    DistanceOfIndices(p.index, w.next);
    if p.index < w.next {
      assert Distance(d.frame.seqno, r.next) == p.index - w.next + TWO_32;
      assert Update(r, d.frame, d.payload) == Recover(r, d.frame, d.payload);
      assert Receive(r, d.frame, d.payload).outs != [];
    } else {
      assert Distance(d.frame.seqno, r.next) == p.index - w.next;
      assert Receive(r, d.frame, d.payload).outs == [];
      S.SuffixIsLongest(sender, w, w.next + MAX_BUFFERS);
      ReceiveBeyond(sender, w, p);
    }
  }

  /** Over almost a full cycle of the 32 bits behind and ahead of the expected index, a call is a
      step of the specification exactly for the frames in reach. (Sixteen indices a full cycle
      behind, and all further ones, coincide with others that may happen to have the same effect.) */
  lemma ReceiveRefinesExactly(r: Ring, w: S.Window, sender: Sender, session: u16, p: Packet)
    requires Refines(r, w, sender, session) && S.Settled(sender, w) && p.Of(sender)
    requires -TWO_32 + 16 <= p.index - w.next < TWO_32
    ensures var d := DatagramOf(session, sender, p);
      Simulates(Receive(r, d.frame, d.payload), w, sender, session, p) <==> InReach(w.next, p.index)
  {
    if InReach(w.next, p.index) {
      ReceiveRefines(r, w, sender, session, p);
    } else {
      OutOfReachFails(r, w, sender, session, p);
    }
  }
}
