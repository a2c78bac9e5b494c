/** A change of session does not clear the slots. It is a fresh start exactly if they were
    all vacant. */
module Restart {
  import opened Wire
  import opened Serial
  import opened Ring
  import opened Reassembly
  import opened Runs
  import opened Bisimulation
  import opened Rotation
  import S = Stream

  // ----- What every slot satisfies, whatever frames arrive

  predicate Sane(s: Slot) {
    && s.count == |s.available|
    && (s.count == 0 ==> !s.ready && s.size == 0)
  }

  predicate AllSane(r: Ring) {
    forall k :: 0 <= k < MAX_BUFFERS ==> Sane(r.slots[k])
  }

  lemma StoreSane(s: Slot, f: Frame, p: Payload)
    requires Sane(s)
    ensures Sane(Store(s, f, p))
  {
  }

  lemma {:induction false} DrainSane(r: Ring)
    requires AllSane(r)
    ensures AllSane(Drain(r).ring)
    decreases ReadySlots(r.slots)
  {
    if r.At(r.next).ready {
      PopShrinks(r);
      DrainSane(Pop(r));
    }
  }

  lemma ProcessSane(r: Ring, f: Frame, p: Payload)
    requires AllSane(r)
    ensures AllSane(Process(r, f, p))
  {
    StoreSane(r.At(f.seqno), f, p);
  }

  lemma UpdateSane(r: Ring, f: Frame, p: Payload)
    requires AllSane(r)
    ensures AllSane(Update(r, f, p).ring)
  {
    var r' := Enter(r, f);
    if Distance(f.seqno, r'.next) < MAX_BUFFERS {
      ProcessSane(r', f, p);
    } else if Distance(f.seqno, r'.next) == MAX_BUFFERS {
      ProcessSane(SkipTo(r', SuffixStart(r', MAX_BUFFERS)), f, p);
    } else {
      ProcessSane(r'.(next := f.seqno, slots := ResetAll(r'.slots)), f, p);
    }
  }

  /** The available bits and the count agree after any run of any frames, in any sessions. */
  lemma {:induction false} ReachableIsSane(ds: seq<Datagram>)
    ensures AllSane(Run(FreshRing(), ds).ring)
  {
    if ds == [] {
    } else {
      var n := |ds| - 1;
      ReachableIsSane(ds[..n]);
      var r := Run(FreshRing(), ds[..n]).ring;
      UpdateSane(r, ds[n].frame, ds[n].payload);
      DrainSane(Update(r, ds[n].frame, ds[n].payload).ring);
    }
  }

  // ----- Fresh start

  predicate Begins(session: u16, ds: seq<Datagram>) {
    ds != [] && ds[0].frame.session == session
  }

  /** From the first frame of the session on, the buffer cannot be told from a newly constructed
      one by any datagrams, well-formed or not, in this and any later sessions: the same session
      and expected number, slots, callbacks, warnings and health at every point, except for
      bytes that were in the slots before and were never written. */
  ghost predicate StartsFresh(r: Ring, session: u16) {
    forall ds: seq<Datagram> :: Begins(session, ds) ==> Alike(Run(r, ds), Run(FreshRing(), ds), r)
  }

  predicate SameAsFresh(r: Ring, session: u16, sender: Sender, packets: seq<Packet>)
    requires AllOf(sender, packets)
  {
    var ds := DatagramsOf(session, sender, packets);
    Run(r, ds).outs == Run(FreshRing(), ds).outs
  }

  /** For the packets of a well-formed sender the outputs are equal to the last byte. */
  ghost predicate SendersStartFresh(r: Ring, session: u16) {
    forall sender: Sender, packets: seq<Packet> ::
      Admissible(sender, packets) ==> SameAsFresh(r, session, sender, packets)
  }

  lemma VacantStartsFresh(r: Ring, session: u16)
    requires AllVacant(r) && session != r.session && session != 0
    ensures StartsFresh(r, session)
  {
    forall ds: seq<Datagram> | Begins(session, ds)
      ensures Alike(Run(r, ds), Run(FreshRing(), ds), r)
    {
      var f := ds[0].frame;
      EnterFirst(r, ds);
      EnterFirst(FreshRing(), ds);
      assert Same(Enter(r, f), Enter(FreshRing(), f), r);
      RunSame(Enter(r, f), Enter(FreshRing(), f), r, ds);
    }
  }

  lemma VacantSendersStartFresh(r: Ring, session: u16)
    requires AllVacant(r) && session != r.session && session != 0
    ensures SendersStartFresh(r, session)
  {
    forall sender: Sender, packets: seq<Packet> | Admissible(sender, packets)
      ensures SameAsFresh(r, session, sender, packets)
    {
      SessionRefines(r, sender, session, packets);
      SessionRefines(FreshRing(), sender, session, packets);
    }
  }

  /** Something shows that the buffer is not new, even to a well-formed sender. */
  ghost predicate ShowsStale(r: Ring, session: u16) {
    !StartsFresh(r, session) && !SendersStartFresh(r, session)
  }

  lemma OneDifferenceSuffices(r: Ring, session: u16, sender: Sender, packets: seq<Packet>, ds: seq<Datagram>)
    requires Admissible(sender, packets) && ds == DatagramsOf(session, sender, packets)
    requires |Run(r, ds).outs| != |Run(FreshRing(), ds).outs|
    ensures ShowsStale(r, session)
  {
    assert !SameAsFresh(r, session, sender, packets);
    assert Begins(session, ds);
  }

  /** Session 0 is the one a new buffer already has: that buffer does not synchronise, so the
      first frame of a session 0 that was entered from another one shows the difference. */
  lemma SessionZeroShows(r: Ring)
    requires r.session != 0
    ensures ShowsStale(r, 0)
  {
    var p := Packet(16, 0);
    OneIsAdmissible(1, p);
    var d := DatagramOf(0, Sends(1), p);
    assert DatagramsOf(0, Sends(1), [p]) == [d];
    FirstIsDirect(r, d);
    SessionZeroIsAbsolute(d.frame, d.payload);
    assert !SameAsFresh(r, 0, Sends(1), [p]);
    assert Begins(0, [d]) && !SameOuts(Run(r, [d]).outs, Run(FreshRing(), [d]).outs, r);
  }

  lemma FirstIsDirect(r: Ring, d: Datagram)
    requires d.frame.session != r.session && d.frame.fragmentMax == 0
    ensures var outs := Run(r, [d]).outs; outs != [] && outs[0].Callback?
  {
    RunOne(r, d);
    assert Distance(d.frame.seqno, d.frame.seqno) == 0;
  }

  lemma RunOne(r: Ring, d: Datagram)
    ensures Run(r, [d]) == Receive(r, d.frame, d.payload)
  {
    assert [d][..0] == [];
    assert [] + Receive(r, d.frame, d.payload).outs == Receive(r, d.frame, d.payload).outs;
  }

  lemma RunTwo(r: Ring, d: Datagram, e: Datagram)
    ensures var x := Receive(r, d.frame, d.payload); var y := Receive(x.ring, e.frame, e.payload);
      Run(r, [d, e]).outs == x.outs + y.outs
  {
    assert [d, e][..1] == [d];
    RunOne(r, d);
  }

  lemma OneIsAdmissible(n: nat, p: Packet)
    requires 1 <= n <= 256 && p.fragment < n
    ensures Admissible(Sends(n), [p])
  {
    assert [p][..0] == [];
    assert WithinReach(Sends(n), S.Start(p.index), []);
  }

  /** The first frame of a session, unfragmented, is followed by what the next slot has ready. */
  lemma FirstThenStale(r: Ring, d: Datagram)
    requires d.frame.session != r.session && d.frame.fragmentMax == 0
    ensures r.At(Plus(d.frame.seqno, 1)).ready ==> |Run(r, [d]).outs| > 1
    ensures !r.At(Plus(d.frame.seqno, 1)).ready ==> |Run(r, [d]).outs| == 1
  {
    RunOne(r, d);
    assert Distance(d.frame.seqno, d.frame.seqno) == 0;
    var u := Update(r, d.frame, d.payload);
    assert u.status == Dispatch && u.warnings == [];
    assert u.ring.At(u.ring.next) == r.At(Plus(d.frame.seqno, 1));
    if u.ring.At(u.ring.next).ready {
      DrainStep(u.ring);
    }
  }

  /** A stale complete message is delivered in the new session right after its first one. */
  lemma StaleReadyShows(r: Ring, session: u16, k: nat)
    requires session != r.session && session != 0 && k < MAX_BUFFERS && r.slots[k].ready
    ensures ShowsStale(r, session)
  {
    var p := Packet(k + 15, 0);
    OneIsAdmissible(1, p);
    var d := DatagramOf(session, Sends(1), p);
    assert DatagramsOf(session, Sends(1), [p]) == [d];
    assert Plus(d.frame.seqno, 1) % MAX_BUFFERS == k;
    FirstThenStale(r, d);
    FirstThenStale(FreshRing(), d);
    OneDifferenceSuffices(r, session, Sends(1), [p], [d]);
  }

  lemma {:induction false} Missing(got: set<nat>, n: nat)
    requires forall g: nat :: g < n ==> g in got
    ensures |got| >= n
  {
    if n == 0 {
    } else {
      Missing(got - {n - 1}, n - 1);
    }
  }

  /** A fragment of the expected message makes a callback exactly if it completes its slot. */
  lemma ExpectedFragment(r: Ring, f: Frame, p: Payload)
    requires Enter(r, f).next == f.seqno && f.fragmentMax > 0
    ensures var x := Receive(r, f, p);
      if Completes(r.At(f.seqno), f) then x.outs != []
      else x.outs == [] && x.ring == Process(Enter(r, f), f, p)
  {
    assert Distance(f.seqno, f.seqno) == 0;
    var u := Update(r, f, p);
    assert u.ring == Process(Enter(r, f), f, p) && u.warnings == [];
    if Completes(r.At(f.seqno), f) {
      DrainStep(u.ring);
    }
  }

  /** What the n-chunk sender sends as fragment g of message k. */
  function ZeroFrame(session: u16, n: nat, k: nat, g: nat): Frame
    requires n <= 256 && g < n && k < MAX_BUFFERS
  {
    Frame(session, k, g, n - 1, Meta(0, 0, 0, 0, false))
  }

  lemma ZeroDatagram(session: u16, n: nat, k: nat, g: nat) returns (d: Datagram)
    requires n <= 256 && g < n && k < MAX_BUFFERS
    ensures d == DatagramOf(session, Sends(n), Packet(k, g))
    ensures d.frame == ZeroFrame(session, n, k, g)
    ensures DatagramsOf(session, Sends(n), [Packet(k, g)]) == [d]
  {
    d := DatagramOf(session, Sends(n), Packet(k, g));
  }

  lemma MissingFragment(s: Slot) returns (g: nat)
    requires Sane(s)
    ensures g <= s.count && g !in s.available
  {
    if forall g: nat :: g < s.count + 1 ==> g in s.available {
      Missing(s.available, s.count + 1);
    }
    g :| g < s.count + 1 && g !in s.available;
  }

  /** Stale fragments are counted with those of a new message, which then counts as complete
      too early. */
  lemma StaleFragmentsShow(r: Ring, session: u16, k: nat)
    requires session != r.session && session != 0 && k < MAX_BUFFERS
    requires Sane(r.slots[k]) && !r.slots[k].ready && 0 < r.slots[k].count < 256
    ensures ShowsStale(r, session)
  {
    var c := r.slots[k].count;
    var g := MissingFragment(r.slots[k]);
    var d := ZeroDatagram(session, c + 1, k, g);
    OneIsAdmissible(c + 1, Packet(k, g));
    OneFragment(r, d);
    OneFragment(FreshRing(), d);
    OneDifferenceSuffices(r, session, Sends(c + 1), [Packet(k, g)], [d]);
  }

  lemma OneFragment(r: Ring, d: Datagram)
    requires Enter(r, d.frame).next == d.frame.seqno && d.frame.fragmentMax > 0
    ensures |Run(r, [d]).outs| > 0 <==> Completes(r.At(d.frame.seqno), d.frame)
  {
    RunOne(r, d);
    ExpectedFragment(r, d.frame, d.payload);
  }

  lemma TwoAreAdmissible(n: nat, p: Packet, q: Packet)
    requires 1 < n <= 256 && p.fragment < n && q.fragment < n && p.index == q.index
    ensures Admissible(Sends(n), [p, q])
  {
    OneIsAdmissible(n, p);
    var sender := Sends(n);
    assert [p, q][..1] == [p];
    assert [p][..0] == [];
    var w := S.Start(p.index);
    S.StartIsSettled(sender, p.index);
    var w' := S.Add(S.MoveTo(w, p.index), p);
    assert 0 !in S.Fragments(w', p.index) || 1 !in S.Fragments(w', p.index);
    assert !S.Complete(sender, w', p.index);
    assert S.Run(sender, w, []).window == w;
    assert S.Run(sender, w, [p]).window.next == p.index;
  }

  lemma ZeroPair(session: u16, k: nat) returns (d: Datagram, e: Datagram)
    requires k < MAX_BUFFERS
    ensures d.frame == ZeroFrame(session, 2, k, 0) && e.frame == ZeroFrame(session, 2, k, 1)
    ensures Admissible(Sends(2), [Packet(k, 0), Packet(k, 1)])
    ensures DatagramsOf(session, Sends(2), [Packet(k, 0), Packet(k, 1)]) == [d, e]
  {
    TwoAreAdmissible(2, Packet(k, 0), Packet(k, 1));
    d := ZeroDatagram(session, 2, k, 0);
    e := ZeroDatagram(session, 2, k, 1);
  }

  /** A slot with all 256 bits set that never became ready ignores everything. */
  lemma StaleFullShows(r: Ring, session: u16, k: nat)
    requires session != r.session && session != 0 && k < MAX_BUFFERS
    requires Sane(r.slots[k]) && !r.slots[k].ready && r.slots[k].count >= 256
    ensures ShowsStale(r, session)
  {
    WholeByCount(r.slots[k].available, 256);
    var d, e := ZeroPair(session, k);
    FullAndFreshDiffer(r, d, e, k);
    OneDifferenceSuffices(r, session, Sends(2), [Packet(k, 0), Packet(k, 1)], [d, e]);
  }

  lemma FullAndFreshDiffer(r: Ring, d: Datagram, e: Datagram, k: nat)
    requires k < MAX_BUFFERS && d.frame.session != 0 && d.frame.session != r.session
    requires d.frame == ZeroFrame(d.frame.session, 2, k, 0) && e.frame == ZeroFrame(d.frame.session, 2, k, 1)
    requires forall g: u8 :: g in r.slots[k].available
    ensures |Run(r, [d, e]).outs| != |Run(FreshRing(), [d, e]).outs|
  {
    IgnoredTwice(r, d, e);
    FreshTakesTwo(d, e, k);
  }

  lemma FreshTakesTwo(d: Datagram, e: Datagram, k: nat)
    requires d.frame.session == e.frame.session != 0 && d.frame.seqno == e.frame.seqno == k < MAX_BUFFERS
    requires d.frame.fragmentMax == e.frame.fragmentMax == 1 && d.frame.fragment == 0 && e.frame.fragment == 1
    ensures Run(FreshRing(), [d, e]).outs != []
  {
    ExpectedFragment(FreshRing(), d.frame, d.payload);
    ExpectedFragment(Receive(FreshRing(), d.frame, d.payload).ring, e.frame, e.payload);
    RunTwo(FreshRing(), d, e);
  }

  lemma IgnoredTwice(r: Ring, d: Datagram, e: Datagram)
    requires d.frame.session == e.frame.session != r.session && d.frame.seqno == e.frame.seqno
    requires d.frame.fragmentMax > 0 && e.frame.fragmentMax > 0
    requires forall g: u8 :: g in r.At(d.frame.seqno).available
    ensures Run(r, [d, e]).outs == []
  {
    ExpectedFragment(r, d.frame, d.payload);
    ExpectedFragment(Receive(r, d.frame, d.payload).ring, e.frame, e.payload);
    RunTwo(r, d, e);
  }

  /** A session change is a fresh start, for all continuations, exactly if the new session is
      not 0 and no slot holds anything; and it is one for well-formed senders under the same
      condition. (A frame of the current session changes nothing.) */
  lemma FreshStartExactly(r: Ring, session: u16)
    requires AllSane(r) && session != r.session
    ensures StartsFresh(r, session) <==>
            session != 0 && forall k :: 0 <= k < MAX_BUFFERS ==> r.slots[k].count == 0
    ensures SendersStartFresh(r, session) <==>
            session != 0 && forall k :: 0 <= k < MAX_BUFFERS ==> r.slots[k].count == 0
  {
    if session == 0 {
      SessionZeroShows(r);
    } else if forall k :: 0 <= k < MAX_BUFFERS ==> r.slots[k].count == 0 {
      VacantStartsFresh(r, session);
      VacantSendersStartFresh(r, session);
    } else {
      var k :| 0 <= k < MAX_BUFFERS && r.slots[k].count != 0;
      if r.slots[k].ready {
        StaleReadyShows(r, session, k);
      } else if r.slots[k].count < 256 {
        StaleFragmentsShow(r, session, k);
      } else {
        StaleFullShows(r, session, k);
      }
    }
  }
}
