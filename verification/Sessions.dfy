/** Several sessions through one ring. */
module Sessions {
  import opened Wire
  import opened Serial
  import opened Ring
  import opened Reassembly
  import opened Refinement
  import opened Runs
  import S = Stream

  datatype Session = Session(id: u16, sender: Sender, packets: seq<Packet>)

  ghost predicate AllOwn(ss: seq<Session>) {
    forall k :: 0 <= k < |ss| ==> AllOf(ss[k].sender, ss[k].packets)
  }

  /** The datagrams of all sessions, one session after the other. */
  ghost function Feed(ss: seq<Session>): seq<Datagram>
    requires AllOwn(ss)
  {
    if |ss| == 0 then []
    else
      var last := ss[|ss| - 1];
      Feed(ss[..|ss| - 1]) + DatagramsOf(last.id, last.sender, last.packets)
  }

  /** Each session has packets within reach and another number than the one before, and finds
      no slot occupied when it starts. */
  ghost predicate CleanChanges(r: Ring, ss: seq<Session>)
    requires AllOwn(ss)
  {
    |ss| == 0 ||
    var last := ss[|ss| - 1];
    var before := Run(r, Feed(ss[..|ss| - 1])).ring;
    && CleanChanges(r, ss[..|ss| - 1])
    && Admissible(last.sender, last.packets)
    && AllVacant(before) && before.session != last.id
  }

  /** What the specification puts out for one session, started at its first packet. */
  ghost function ExpectedOf(session: Session): seq<Output> {
    if session.packets == [] then []
    else
      var events := S.Run(session.sender, S.Start(session.packets[0].index), session.packets).events;
      Outputs(session.id, session.sender, events)
  }

  ghost function Expected(ss: seq<Session>): seq<Output> {
    if |ss| == 0 then [] else Expected(ss[..|ss| - 1]) + ExpectedOf(ss[|ss| - 1])
  }

  /** First one run, then another. */
  ghost function Joined(x: Received, y: Received): Received {
    Received(y.ring, x.outs + y.outs, x.healthy && y.healthy)
  }

  lemma ThenJoined(x: Received, y: Received, d: Datagram)
    ensures Then(Joined(x, y), d) == Joined(x, Then(y, d))
  {
    var now := Receive(y.ring, d.frame, d.payload);
    assert x.outs + y.outs + now.outs == x.outs + (y.outs + now.outs);
  }

  lemma {:induction false} RunConcat(r: Ring, a: seq<Datagram>, b: seq<Datagram>)
    ensures Run(r, a + b) == Joined(Run(r, a), Run(Run(r, a).ring, b))
  {
    var x := Run(r, a);
    if b == [] {
      assert a + b == a;
      assert x.outs + [] == x.outs;
    } else {
      var n := |b| - 1;
      RunConcat(r, a, b[..n]);
      assert (a + b)[..|a + b| - 1] == a + b[..n];
      assert Run(r, a + b) == Then(Run(r, a + b[..n]), b[n]);
      ThenJoined(x, Run(x.ring, b[..n]), b[n]);
    }
  }

  /** Any number of clean sessions: the outputs are those of the specification, session after
      session; no assert ever fails and "buffer is full" is never reached. */
  lemma {:induction false} SessionsRefine(r: Ring, ss: seq<Session>)
    requires AllOwn(ss)
    ensures CleanChanges(r, ss) ==>
              Run(r, Feed(ss)).outs == Expected(ss) && Run(r, Feed(ss)).healthy
  {
    if |ss| == 0 {
    } else if CleanChanges(r, ss) {
      var n := |ss| - 1;
      var last := ss[n];
      SessionsRefine(r, ss[..n]);
      SessionRefines(Run(r, Feed(ss[..n])).ring, last.sender, last.id, last.packets);
      RunConcat(r, Feed(ss[..n]), DatagramsOf(last.id, last.sender, last.packets));
    }
  }

  lemma SlotVacantExactly(r: Ring, w: S.Window, sender: Sender, session: u16, i: int)
    requires Refines(r, w, sender, session) && w.next <= i < w.next + MAX_BUFFERS
    ensures Vacant(r.slots[i % MAX_BUFFERS]) <==> i !in w.got
  {
    assert Holds(r.slots[i % MAX_BUFFERS], sender(i), S.Fragments(w, i));
    VacantIffNothing(r.slots[i % MAX_BUFFERS], sender(i), S.Fragments(w, i));
  }

  /** A session leaves the ring clean for the next one exactly if its window is empty, that is,
      nothing of any message beyond the delivered ones has arrived. */
  lemma CleanAfter(r: Ring, w: S.Window, sender: Sender, session: u16)
    requires Refines(r, w, sender, session)
    ensures AllVacant(r) <==> forall i :: i !in w.got
  {
    forall i ensures AllVacant(r) ==> i !in w.got {
      if i in w.got {
        SlotVacantExactly(r, w, sender, session, i);
      }
    }
    if forall i :: i !in w.got {
      EmptyWindowVacant(r, w, sender, session);
    }
  }

  lemma EmptyWindowVacant(r: Ring, w: S.Window, sender: Sender, session: u16)
    requires Refines(r, w, sender, session) && forall i :: i !in w.got
    ensures AllVacant(r)
  {
    forall k | 0 <= k < MAX_BUFFERS ensures Vacant(r.slots[k]) {
      IndexOfSlot(w.next, k);
      SlotVacantExactly(r, w, sender, session, w.next + OffsetOfSlot(w.next % TWO_32, k));
    }
  }

  lemma IndexOfSlot(next: int, k: nat)
    requires k < MAX_BUFFERS
    ensures (next + OffsetOfSlot(next % TWO_32, k)) % MAX_BUFFERS == k
  {
    OffsetInverse(next % TWO_32, k, OffsetOfSlot(next % TWO_32, k));
    SlotOfSeqno(next + OffsetOfSlot(next % TWO_32, k));
    PlusOfIndex(next, OffsetOfSlot(next % TWO_32, k));
  }
}
