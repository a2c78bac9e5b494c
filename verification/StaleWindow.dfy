/** That the bad cases of Calls can be received: a session that leaves fifteen messages waiting,
    then frames of another session. */
module StaleWindow {
  import opened Wire
  import opened Serial
  import opened Ring
  import opened Reassembly
  import opened Refinement
  import opened Delivery
  import opened Runs
  import opened Calls
  import S = Stream

  /** Slot 1 is vacant and expected; the other slots hold complete messages of one fragment. */
  predicate OneHole(r: Ring) {
    && r.next == 1
    && Vacant(r.slots[1])
    && forall k :: 0 <= k < MAX_BUFFERS && k != 1 ==> r.slots[k].ready && 0 in r.slots[k].available
  }

  lemma HoldsOfWindow(r: Ring, w: S.Window, session: u16, n: nat, i: int)
    requires n == MAX_BUFFERS && Refines(r, w, Sends(1), session) && w.next == 1 && IsHistory(w, Overtaking(n))
    requires 1 <= i <= n
    ensures var s := r.slots[i % MAX_BUFFERS]; if i == 1 then Vacant(s) else s.ready && 0 in s.available
  {
    OvertakingHas(n);
    var s, m := r.slots[i % MAX_BUFFERS], Sends(1)(i);
    assert Holds(s, m, S.Fragments(w, i));
    assert 0 in S.Fragments(w, i) <==> Arrived(Overtaking(n), i, 0);
    SingleInSlot(s, m, S.Fragments(w, i));
  }

  lemma SingleInSlot(s: Slot, m: Message, got: set<nat>)
    requires Holds(s, m, got) && |m.chunks| == 1
    ensures if 0 in got then s.ready && 0 in s.available else Vacant(s)
  {
    if 0 !in got {
      IncompleteSingleIsVacant(s, m, got);
    }
  }

  lemma HoleInRing(r: Ring, w: S.Window, session: u16, n: nat)
    requires n == MAX_BUFFERS && Refines(r, w, Sends(1), session) && w.next == 1 && IsHistory(w, Overtaking(n))
    ensures OneHole(r)
  {
    forall k | 0 <= k < MAX_BUFFERS
      ensures if k == 1 then Vacant(r.slots[k]) else r.slots[k].ready && 0 in r.slots[k].available
    {
      var i := if k == 0 then MAX_BUFFERS else k;
      assert i % MAX_BUFFERS == k;
      HoldsOfWindow(r, w, session, n, i);
    }
  }

  /** Messages 0, 2, 3, ..., 16 of a session leave one hole. */
  lemma OvertakingLeavesHole(session: u16, n: nat)
    requires session != 0 && n == MAX_BUFFERS
    ensures AllOf(Sends(1), Overtaking(n))
    ensures var r := Run(FreshRing(), DatagramsOf(session, Sends(1), Overtaking(n))).ring;
      r.session == session && OneHole(r)
  {
    OvertakingRefines(session, n);
    OvertakingHistory(n);
    var w := S.Run(Sends(1), S.Start(0), Overtaking(n)).window;
    HoleInRing(Run(FreshRing(), DatagramsOf(session, Sends(1), Overtaking(n))).ring, w, session, n);
  }

  const NO_META: Meta := Meta(0, 0, 0, 0, false)

  /** Half a message for a slot that is still ready: a duplicate. */
  function Duplicate(session: u16): Datagram {
    Datagram(Frame(session, 2, 0, 1, NO_META), [])
  }

  /** An unfragmented message for the hole, fifteen ahead. */
  function Filler(session: u16): Datagram {
    Datagram(Frame(session, 17, 0, 0, NO_META), [])
  }

  lemma DuplicateOpens(r: Ring, session: u16)
    requires OneHole(r) && session != r.session
    ensures Receive(r, Duplicate(session).frame, []).ring == r.(session := session, next := 2)
  {
    var f := Duplicate(session).frame;
    assert Distance(2, 2) == 0;
    assert Enter(r, f) == r.(session := session, next := 2);
    assert Process(Enter(r, f), f, []) == Enter(r, f);
  }

  lemma FillerFills(r: Ring, session: u16)
    requires OneHole(r.(next := 1)) && r.session == session && r.next == 2
    ensures var x := Receive(r, Filler(session).frame, []).ring;
      x.session == session && x.next == 2 && forall k :: 0 <= k < MAX_BUFFERS ==> x.slots[k].ready
  {
    var f := Filler(session).frame;
    assert Distance(17, 2) == 15;
    assert Update(r, f, []) == Updated(Process(r, f, []), Buffering, [], Update(r, f, []).healthy);
  }

  /** In a ring of sixteen ready slots that expects 2, the next frames of the session show it. */
  lemma FullRingShows(r: Ring, session: u16)
    requires r.session == session && r.next == 2 && forall k :: 0 <= k < MAX_BUFFERS ==> r.slots[k].ready
    ensures Aborts(r, Frame(session, 18, 0, 0, NO_META))
    ensures CallbackCount(Receive(r, Frame(session, 2, 0, 0, NO_META), []).outs) == MAX_BUFFERS + 1
  {
    var far, near := Frame(session, 18, 0, 0, NO_META), Frame(session, 2, 0, 0, NO_META);
    assert Distance(18, 2) == 16 && Distance(2, 2) == 0;
    AbortsExactly(r, far, []);
    assert Update(r, near, []).status == Dispatch;
    CallbacksExactly(r, near, []);
  }

  /** What is received: the packets of session a that leave one hole, then two frames of b. */
  function Leftover(a: u16, b: u16, n: nat): seq<Datagram>
    requires 1 <= n && AllOf(Sends(1), Overtaking(n))
  {
    DatagramsOf(a, Sends(1), Overtaking(n)) + [Duplicate(b), Filler(b)]
  }

  lemma LeftoverFills(a: u16, b: u16, n: nat)
    requires a != 0 && a != b && n == MAX_BUFFERS
    ensures AllOf(Sends(1), Overtaking(n))
    ensures var r := Run(FreshRing(), Leftover(a, b, n)).ring;
      r.session == b && r.next == 2 && forall k :: 0 <= k < MAX_BUFFERS ==> r.slots[k].ready
  {
    OvertakingLeavesHole(a, n);
    var ds := DatagramsOf(a, Sends(1), Overtaking(n));
    var r := Run(FreshRing(), ds).ring;
    RunPair(FreshRing(), ds, Duplicate(b), Filler(b));
    DuplicateOpens(r, b);
    FillerFills(r.(session := b, next := 2), b);
  }

  lemma RunPair(r: Ring, ds: seq<Datagram>, d: Datagram, e: Datagram)
    ensures Run(r, ds + [d, e]) == Then(Then(Run(r, ds), d), e)
  {
    var all := ds + [d, e];
    assert all[..|all| - 1] == ds + [d];
    assert (ds + [d])[..|ds|] == ds;
  }

  /** A new buffer can be brought to "buffer is full", and to seventeen callbacks in one call,
      by well-formed single-fragment messages of one session and frames of another. */
  lemma FullIsReached(a: u16, b: u16)
    requires a != 0 && a != b
    ensures exists ds: seq<Datagram> :: var r := Run(FreshRing(), ds).ring;
      && Aborts(r, Frame(b, 18, 0, 0, NO_META))
      && CallbackCount(Receive(r, Frame(b, 2, 0, 0, NO_META), []).outs) == MAX_BUFFERS + 1
  {
    LeftoverFills(a, b, MAX_BUFFERS);
    FullRingShows(Run(FreshRing(), Leftover(a, b, MAX_BUFFERS)).ring, b);
  }
}
