/** Whole runs of the ring from a clean session start. */
module Runs {
  import opened Wire
  import opened Serial
  import opened Ring
  import opened Refinement
  import opened Delivery
  import S = Stream

  predicate AllVacant(r: Ring) {
    forall k :: 0 <= k < MAX_BUFFERS ==> Vacant(r.slots[k])
  }

  predicate AllOf(sender: Sender, packets: seq<Packet>) {
    forall p :: p in packets ==> p.Of(sender)
  }

  /** Every packet arrives while 32 bits suffice to tell where it belongs. */
  predicate WithinReach(sender: Sender, w: S.Window, packets: seq<Packet>) {
    packets == [] || (
      && WithinReach(sender, w, packets[..|packets| - 1])
      && InReach(S.Run(sender, w, packets[..|packets| - 1]).window.next, packets[|packets| - 1].index))
  }

  lemma RunStep(r: Ring, session: u16, sender: Sender, packets: seq<Packet>)
    requires packets != [] && AllOf(sender, packets)
    ensures var n := |packets| - 1;
      var before := Run(r, DatagramsOf(session, sender, packets[..n]));
      var d := DatagramOf(session, sender, packets[n]);
      var now := Receive(before.ring, d.frame, d.payload);
      Run(r, DatagramsOf(session, sender, packets)) ==
      Received(now.ring, before.outs + now.outs, before.healthy && now.healthy)
  {
    var n := |packets| - 1;
    assert DatagramsOf(session, sender, packets)[..n] == DatagramsOf(session, sender, packets[..n]);
  }

  lemma {:induction false} RunRefines(r: Ring, w: S.Window, sender: Sender, session: u16, packets: seq<Packet>)
    requires Refines(r, w, sender, session) && S.Settled(sender, w)
    requires AllOf(sender, packets) && WithinReach(sender, w, packets)
    ensures var x, a := Run(r, DatagramsOf(session, sender, packets)), S.Run(sender, w, packets);
      && Refines(x.ring, a.window, sender, session)
      && x.outs == Outputs(session, sender, a.events)
      && x.healthy
  {
    if packets == [] {
    } else {
      var n := |packets| - 1;
      RunRefines(r, w, sender, session, packets[..n]);
      S.RunSettles(sender, w, packets[..n]);
      RunStep(r, session, sender, packets);
      var x, a := Run(r, DatagramsOf(session, sender, packets[..n])), S.Run(sender, w, packets[..n]);
      ReceiveRefines(x.ring, a.window, sender, session, packets[n]);
      OutputsConcat(session, sender, a.events, S.Receive(sender, a.window, packets[n]).events);
    }
  }

  predicate Admissible(sender: Sender, packets: seq<Packet>) {
    && packets != []
    && AllOf(sender, packets)
    && WithinReach(sender, S.Start(packets[0].index), packets)
  }

  /** The first frame of a session moves the window before anything else happens. */
  lemma {:induction false} EnterFirst(r: Ring, ds: seq<Datagram>)
    requires ds != []
    ensures Run(r, ds) == Run(Enter(r, ds[0].frame), ds)
  {
    var n := |ds| - 1;
    if n == 0 {
      assert ds[..0] == [];
    } else {
      EnterFirst(r, ds[..n]);
    }
  }

  /** From a clean start, a session's run is the specification's run from the index of the
      first packet: every callback gets exactly the header and the bytes of the original
      message, gaps are reported where the specification has them, no assert fails and the
      buffer is never full. */
  lemma SessionRefines(r: Ring, sender: Sender, session: u16, packets: seq<Packet>)
    requires AllVacant(r) && r.session != session
    requires packets != [] && AllOf(sender, packets)
    requires WithinReach(sender, S.Start(packets[0].index), packets)
    ensures var x := Run(r, DatagramsOf(session, sender, packets));
      var a := S.Run(sender, S.Start(packets[0].index), packets);
      && Refines(x.ring, a.window, sender, session)
      && x.outs == Outputs(session, sender, a.events)
      && x.healthy
  {
    var ds := DatagramsOf(session, sender, packets);
    var s := packets[0].index;
    EnterFirst(r, ds);
    var r' := Enter(r, ds[0].frame);
    VacantRefines(r', sender, session, s);
    S.StartIsSettled(sender, s);
    RunRefines(r', S.Start(s), sender, session, packets);
  }

  /** The callbacks that hand over the sender's messages s, ..., e - 1 as they were sent. */
  function Originals(session: u16, sender: Sender, s: int, e: int): seq<Output>
    requires s <= e
  {
    seq(e - s, k => var m := sender(s + k); Callback(Header(session, (s + k) % TWO_32, m.meta), Body(m.chunks)))
  }

  lemma OriginalsAreOutputs(session: u16, sender: Sender, s: int, e: int)
    requires s <= e
    ensures Outputs(session, sender, Deliveries(s, e)) == Originals(session, sender, s, e)
  {
  }

  /** Online equals batch for the ring: without overflow the callbacks are the original
      messages from the first index up to the first one that did not arrive completely. */
  lemma SessionIsBatch(r: Ring, sender: Sender, session: u16, packets: seq<Packet>)
    requires AllVacant(r) && r.session != session
    requires packets != [] && AllOf(sender, packets)
    requires WithinReach(sender, S.Start(packets[0].index), packets)
    requires NoOverflow(sender, S.Start(packets[0].index), packets)
    ensures var s := packets[0].index; var next := S.Run(sender, S.Start(s), packets).window.next;
      && s <= next
      && (forall i :: s <= i < next ==> CompleteIn(sender, packets, i))
      && !CompleteIn(sender, packets, next)
      && Run(r, DatagramsOf(session, sender, packets)).outs == Originals(session, sender, s, next)
      && Run(r, DatagramsOf(session, sender, packets)).ring.next == next % TWO_32
  {
    var s := packets[0].index;
    SessionRefines(r, sender, session, packets);
    OnlineIsBatch(sender, s, packets);
    OriginalsAreOutputs(session, sender, s, S.Run(sender, S.Start(s), packets).window.next);
  }

  /** Two receivers with different stale bytes that get the same packets of a session in
      different orders, with different duplicates, make the same callbacks. */
  lemma SessionOrderDoesNotMatter(r: Ring, r': Ring, sender: Sender, session: u16, ps: seq<Packet>, qs: seq<Packet>)
    requires AllVacant(r) && AllVacant(r') && session != r.session && session != r'.session
    requires ps != [] && qs != [] && ps[0].index == qs[0].index
    requires AllOf(sender, ps) && (forall p :: p in ps <==> p in qs)
    requires WithinReach(sender, S.Start(ps[0].index), ps) && WithinReach(sender, S.Start(ps[0].index), qs)
    requires NoOverflow(sender, S.Start(ps[0].index), ps) && NoOverflow(sender, S.Start(ps[0].index), qs)
    ensures var x, y := Run(r, DatagramsOf(session, sender, ps)), Run(r', DatagramsOf(session, sender, qs));
      x.outs == y.outs && x.ring.next == y.ring.next
  {
    SessionRefines(r, sender, session, ps);
    SessionRefines(r', sender, session, qs);
    OrderDoesNotMatter(sender, ps[0].index, ps, qs);
  }

  // ----- Recovery from gaps

  /** A frame exactly sixteen ahead: the messages from m on were all ready, the one before m was
      not, a gap up to m is reported, and everything from m on is delivered in order, the
      frame's own message included if it is unfragmented. */
  lemma RingGapOfOne(r: Ring, w: S.Window, sender: Sender, session: u16, p: Packet) returns (m: int, e: int)
    requires Refines(r, w, sender, session) && S.Settled(sender, w) && p.Of(sender)
    requires p.index == w.next + MAX_BUFFERS
    ensures w.next < m <= p.index
    ensures forall i :: m <= i < p.index ==> r.At(i % TWO_32).ready
    ensures !r.At((m - 1) % TWO_32).ready
    ensures e == if |sender(p.index).chunks| == 1 then p.index + 1 else p.index
    ensures var d := DatagramOf(session, sender, p); var x := Receive(r, d.frame, d.payload);
      && x.outs == [GapWarning(w.next % TWO_32, m % TWO_32)] + Originals(session, sender, m, e)
      && x.ring.next == e % TWO_32
      && x.healthy
  {
    m := GapOfOne(sender, w, p);
    e := S.Receive(sender, w, p).window.next;
    ReceiveRefines(r, w, sender, session, p);
    forall i | m - 1 <= i < p.index ensures r.At(i % TWO_32).ready <==> S.Complete(sender, w, i) {
      SlotInWindow(r, w, sender, session, i);
    }
    GapOutputs(session, sender, w.next, m, e);
  }

  /** A frame further ahead: nothing of the window is kept. */
  lemma RingGapOfMany(r: Ring, w: S.Window, sender: Sender, session: u16, p: Packet) returns (e: int)
    requires Refines(r, w, sender, session) && S.Settled(sender, w) && p.Of(sender)
    requires w.next + MAX_BUFFERS < p.index && InReach(w.next, p.index)
    ensures e == if |sender(p.index).chunks| == 1 then p.index + 1 else p.index
    ensures var d := DatagramOf(session, sender, p); var x := Receive(r, d.frame, d.payload);
      && x.outs == [GapWarning(w.next % TWO_32, p.index % TWO_32)] + Originals(session, sender, p.index, e)
      && x.ring.next == e % TWO_32
      && x.healthy
  {
    GapOfMany(sender, w, p);
    e := S.Receive(sender, w, p).window.next;
    ReceiveRefines(r, w, sender, session, p);
    GapOutputs(session, sender, w.next, p.index, e);
  }

  lemma GapOutputs(session: u16, sender: Sender, a: int, m: int, e: int)
    requires m <= e
    ensures Outputs(session, sender, [S.Gap(a, m)] + Deliveries(m, e)) ==
            [GapWarning(a % TWO_32, m % TWO_32)] + Originals(session, sender, m, e)
  {
    OutputsConcat(session, sender, [S.Gap(a, m)], Deliveries(m, e));
    OriginalsAreOutputs(session, sender, m, e);
  }

  /** When the expected message arrives, it is delivered together with all messages after it
      that are waiting complete, up to the first one that is not. */
  lemma HoleFilled(r: Ring, w: S.Window, sender: Sender, session: u16, p: Packet, e: int)
    requires Refines(r, w, sender, session) && S.Settled(sender, w) && p.Of(sender)
    requires p.index == w.next < e && |sender(p.index).chunks| == 1
    requires forall i :: w.next < i < e ==> S.Complete(sender, w, i)
    requires !S.Complete(sender, w, e)
    ensures var d := DatagramOf(session, sender, p);
      Receive(r, d.frame, d.payload).outs == Originals(session, sender, w.next, e)
  {
    ReceiveRefines(r, w, sender, session, p);
    ReceiveInWindow(sender, w, p);
    var w' := S.Add(w, p);
    DrainDelivers(sender, w');
    SingleChunkCompletes(sender, w, p);
    var next := S.Drain(sender, w').window.next;
    SameFragments(sender, w, w', e);
    if next < e {
      SameFragments(sender, w, w', next);
    }
    OriginalsAreOutputs(session, sender, w.next, next);
  }

  /** A sender of messages with n full chunks. */
  function Zeros(n: nat): Message
    requires 1 <= n <= 256
  {
    Message(Meta(0, 0, 0, 0, false), seq(n, _ => seq(MAX_PAYLOAD, _ => 0)))
  }

  function Sends(n: nat): Sender
    requires 1 <= n <= 256
  {
    (_: int) => Zeros(n)
  }

  /** Everything from index 2 on, with 1 missing: the first packet, then 2, ..., n. */
  function Overtaking(n: nat): seq<Packet>
    requires 1 <= n
  {
    if n == 1 then [Packet(0, 0)] else Overtaking(n - 1) + [Packet(n, 0)]
  }

  lemma {:induction false} OvertakingHas(n: nat)
    requires 1 <= n
    ensures AllOf(Sends(1), Overtaking(n)) && Overtaking(n)[0] == Packet(0, 0)
    ensures forall i :: Arrived(Overtaking(n), i, 0) <==> i == 0 || 2 <= i <= n
  {
    if n == 1 {
      assert forall p :: p in Overtaking(n) <==> p == Packet(0, 0);
    } else {
      OvertakingHas(n - 1);
      assert forall p :: p in Overtaking(n) <==> p in Overtaking(n - 1) || p == Packet(n, 0);
      forall i ensures Arrived(Overtaking(n), i, 0) <==> i == 0 || 2 <= i <= n {
        assert Arrived(Overtaking(n), i, 0) <==> Arrived(Overtaking(n - 1), i, 0) || i == n;
      }
    }
  }

  /** The second message stays expected. */
  lemma OvertakingNext(n: nat)
    requires 1 <= n && NoOverflow(Sends(1), S.Start(0), Overtaking(n))
    ensures S.Run(Sends(1), S.Start(0), Overtaking(n)).window.next == 1
  {
    var ps := Overtaking(n);
    OvertakingHas(n);
    OnlineIsBatch(Sends(1), 0, ps);
    assert Arrived(ps, 0, 0) && CompleteIn(Sends(1), ps, 0);
    assert !Arrived(ps, 1, 0) && !CompleteIn(Sends(1), ps, 1);
  }

  /** Up to sixteen nothing overflows. */
  lemma {:induction false} OvertakingFits(n: nat)
    requires 1 <= n <= MAX_BUFFERS
    ensures NoOverflow(Sends(1), S.Start(0), Overtaking(n)) && WithinReach(Sends(1), S.Start(0), Overtaking(n))
  {
    var ps := Overtaking(n);
    if n == 1 {
      assert ps[..0] == [];
      assert NoOverflow(Sends(1), S.Start(0), []) && WithinReach(Sends(1), S.Start(0), []);
    } else {
      OvertakingFits(n - 1);
      OvertakingNext(n - 1);
      assert ps[..|ps| - 1] == Overtaking(n - 1);
    }
  }

  lemma OvertakingComplete(w: S.Window, n: nat)
    requires 1 <= n && w.next == 1 && IsHistory(w, Overtaking(n))
    ensures forall i :: 1 < i <= n ==> S.Complete(Sends(1), w, i)
    ensures !S.Complete(Sends(1), w, n + 1)
  {
    OvertakingHas(n);
    forall i | 1 < i <= n ensures S.Complete(Sends(1), w, i) {
      assert Arrived(Overtaking(n), i, 0);
      assert 0 in S.Fragments(w, i);
    }
    assert !Arrived(Overtaking(n), n + 1, 0);
    assert 0 !in S.Fragments(w, n + 1);
  }

  lemma OvertakingSettled(n: nat)
    requires 1 <= n
    ensures S.Settled(Sends(1), S.Run(Sends(1), S.Start(0), Overtaking(n)).window)
  {
    OvertakingHas(n);
    S.StartIsSettled(Sends(1), 0);
    S.RunSettles(Sends(1), S.Start(0), Overtaking(n));
  }

  lemma OvertakingRefines(session: u16, n: nat)
    requires session != 0 && 1 <= n <= MAX_BUFFERS
    ensures AllOf(Sends(1), Overtaking(n))
    ensures Refines(Run(FreshRing(), DatagramsOf(session, Sends(1), Overtaking(n))).ring,
                    S.Run(Sends(1), S.Start(0), Overtaking(n)).window, Sends(1), session)
  {
    OvertakingHas(n);
    OvertakingFits(n);
    SessionRefines(FreshRing(), Sends(1), session, Overtaking(n));
  }

  lemma OvertakingHistory(n: nat)
    requires 1 <= n <= MAX_BUFFERS
    ensures var w := S.Run(Sends(1), S.Start(0), Overtaking(n)).window;
      w.next == 1 && IsHistory(w, Overtaking(n))
  {
    OvertakingHas(n);
    OvertakingFits(n);
    OvertakingNext(n);
    WindowIsHistory(Sends(1), 0, Overtaking(n));
  }

  /** From a new buffer: messages 0, 2, 3, ..., n and then 1. The last call makes n callbacks,
      for every n up to sixteen, so the bound of sixteen is reached. */
  lemma CallbacksFromNew(session: u16, n: nat)
    requires session != 0 && 1 <= n <= MAX_BUFFERS
    ensures AllOf(Sends(1), Overtaking(n))
    ensures var r := Run(FreshRing(), DatagramsOf(session, Sends(1), Overtaking(n))).ring;
      var d := DatagramOf(session, Sends(1), Packet(1, 0));
      Receive(r, d.frame, d.payload).outs == Originals(session, Sends(1), 1, n + 1)
  {
    var w := S.Run(Sends(1), S.Start(0), Overtaking(n)).window;
    OvertakingRefines(session, n);
    OvertakingHistory(n);
    OvertakingSettled(n);
    OvertakingComplete(w, n);
    var r := Run(FreshRing(), DatagramsOf(session, Sends(1), Overtaking(n))).ring;
    HoleFilled(r, w, Sends(1), session, Packet(1, 0), n + 1);
  }
}
