/** What holds for any frames at all, well-formed or not. */
module Calls {
  import opened Wire
  import opened Serial
  import opened Ring
  import opened Reassembly

  lemma {:induction false} CountConcat(a: seq<Output>, b: seq<Output>)
    ensures CallbackCount(a + b) == CallbackCount(a) + CallbackCount(b)
  {
    if a == [] {
      assert a + b == b;
    } else {
      CountConcat(a[1..], b);
      assert (a + b)[1..] == a[1..] + b;
    }
  }

  /** Each callback of a drain empties one ready slot, and the expected slot is then not ready. */
  lemma {:induction false} DrainAccounts(r: Ring)
    ensures var d := Drain(r);
      && CallbackCount(d.outs) == |ReadySlots(r.slots)| - |ReadySlots(d.ring.slots)|
      && !d.ring.At(d.ring.next).ready
      && d.ring.session == r.session
    decreases ReadySlots(r.slots)
  {
    if r.At(r.next).ready {
      PopShrinks(r);
      DrainAccounts(Pop(r));
      var k := r.next % MAX_BUFFERS;
      assert ReadySlots(r.slots) == ReadySlots(Pop(r).slots) + {k};
      assert ([NextDelivery(r)] + Drain(Pop(r)).outs)[1..] == Drain(Pop(r)).outs;
    }
  }

  lemma ReadyBound(slots: Slots, not: set<nat>)
    requires forall k :: k in not ==> k < MAX_BUFFERS && !slots[k].ready
    ensures |ReadySlots(slots)| + |not| <= MAX_BUFFERS
  {
    var both := ReadySlots(slots) + not;
    assert |both| == |ReadySlots(slots)| + |not|;
    WholeByCount(both, MAX_BUFFERS);
  }

  /** The expected slot not being ready rules out that the reverse scan keeps everything. */
  lemma {:induction false} SuffixStartPositive(r: Ring, n: nat)
    requires !r.At(r.next).ready && 0 < n
    ensures SuffixStart(r, n) > 0
  {
    if n > 1 && r.At(Plus(r.next, n - 1)).ready {
      SuffixStartPositive(r, n - 1);
    } else if n == 1 {
      assert Plus(r.next, 0) == r.next;
    }
  }

  /** One call in a session: the expected slot is not ready afterwards either, the scan after an
      overflow makes room, and there are at most sixteen callbacks. */
  lemma OneCall(r: Ring, f: Frame, p: Payload)
    requires r.session == f.session && !r.At(r.next).ready
    ensures var x := Receive(r, f, p);
      && x.ring.session == r.session
      && !x.ring.At(x.ring.next).ready
      && CallbackCount(x.outs) <= MAX_BUFFERS
    ensures var k := SuffixStart(r, MAX_BUFFERS);
      0 < k && (Distance(f.seqno, r.next) == MAX_BUFFERS ==> Distance(f.seqno, SkipTo(r, k).next) < MAX_BUFFERS)
  {
    SuffixStartPositive(r, MAX_BUFFERS);
    var k := SuffixStart(r, MAX_BUFFERS);
    if Distance(f.seqno, r.next) == MAX_BUFFERS {
      DistanceAfterSkip(f.seqno, r.next, k);
    }
    var u := Update(r, f, p);
    var direct := if u.status.Dispatch? then [Callback(Header(f.session, f.seqno, f.meta), p)] else [];
    var d := if u.status.Buffering? then Drained(u.ring, []) else Drain(u.ring);
    DrainAccounts(u.ring);
    ReadyBound(u.ring.slots, if u.status.Dispatch? then {r.next % MAX_BUFFERS} else {});
    CountConcat(u.warnings + direct, d.outs);
    CountConcat(u.warnings, direct);
    UpdateLeavesNotReady(r, f, p);
  }

  lemma UpdateLeavesNotReady(r: Ring, f: Frame, p: Payload)
    requires r.session == f.session && !r.At(r.next).ready
    ensures var u := Update(r, f, p);
      && u.ring.session == r.session
      && CallbackCount(u.warnings) == 0
      && (u.status.Buffering? ==> !u.ring.At(u.ring.next).ready)
      && (u.status.Dispatch? ==> u.ring.slots == r.slots)
  {
    SuffixStartPositive(r, MAX_BUFFERS);
    if Distance(f.seqno, r.next) < MAX_BUFFERS {
      ProcessLeavesNotReady(r, f, p);
    } else if Distance(f.seqno, r.next) > MAX_BUFFERS {
      ProcessLeavesNotReady(r.(next := f.seqno, slots := ResetAll(r.slots)), f, p);
    }
  }

  lemma ProcessLeavesNotReady(r: Ring, f: Frame, p: Payload)
    requires !r.At(r.next).ready && Distance(f.seqno, r.next) < MAX_BUFFERS
    ensures StatusOf(r, f).Buffering? ==> !Process(r, f, p).At(r.next).ready
  {
    if f.seqno % MAX_BUFFERS == r.next % MAX_BUFFERS {
      SameSlotSameSeqno(f.seqno, r.next);
    }
  }

  lemma SameSlotSameSeqno(seqno: u32, next: u32)
    requires Distance(seqno, next) < MAX_BUFFERS && seqno % MAX_BUFFERS == next % MAX_BUFFERS
    ensures seqno == next
  {
  }

  // ----- Runs

  /** The fatal line "buffer is full": sixteen ahead, and the scan kept everything. */
  predicate Aborts(r: Ring, f: Frame) {
    Distance(f.seqno, Enter(r, f).next) == MAX_BUFFERS && SuffixStart(Enter(r, f), MAX_BUFFERS) == 0
  }

  /** What every call of a session does, whatever its frames. */
  predicate Orderly(r: Ring, d: Datagram) {
    CallbackCount(Receive(r, d.frame, d.payload).outs) <= MAX_BUFFERS && !Aborts(r, d.frame)
  }

  predicate FramesOf(session: u16, ds: seq<Datagram>) {
    forall k :: 0 <= k < |ds| ==> ds[k].frame.session == session
  }

  predicate ExpectedNotReady(r: Ring) {
    !r.At(r.next).ready
  }

  /** Every call of the run is orderly. */
  predicate AllOrderly(r: Ring, ds: seq<Datagram>) {
    ds == [] || (AllOrderly(r, ds[..|ds| - 1]) && Orderly(Run(r, ds[..|ds| - 1]).ring, ds[|ds| - 1]))
  }

  lemma CallIsOrderly(r: Ring, d: Datagram)
    requires r.session == d.frame.session && ExpectedNotReady(r)
    ensures Orderly(r, d)
    ensures var x := Receive(r, d.frame, d.payload).ring; x.session == r.session && ExpectedNotReady(x)
  {
    OneCall(r, d.frame, d.payload);
  }

  /** Any frames of one session, well-formed or not: between calls the expected slot is never
      ready, "buffer is full" is never reached, and no call makes more than sixteen callbacks.
      The session may be the current one or start with these frames; all that is asked is that
      the slot of its first expected number is not ready, as in a vacant ring. */
  lemma {:induction false} OneSessionRun(r: Ring, session: u16, ds: seq<Datagram>)
    requires ds != [] && FramesOf(session, ds)
    requires ExpectedNotReady(Enter(r, ds[0].frame))
    ensures Run(r, ds).ring.session == session && ExpectedNotReady(Run(r, ds).ring)
    ensures AllOrderly(r, ds)
  {
    var n := |ds| - 1;
    if n == 0 {
      assert ds[..0] == [] && AllOrderly(r, []);
      FirstCallIsOrderly(r, ds[0]);
    } else {
      OneSessionRun(r, session, ds[..n]);
      CallIsOrderly(Run(r, ds[..n]).ring, ds[n]);
    }
  }

  lemma FirstCallIsOrderly(r: Ring, d: Datagram)
    requires ExpectedNotReady(Enter(r, d.frame))
    ensures Orderly(r, d)
    ensures var x := Receive(r, d.frame, d.payload).ring; x.session == d.frame.session && ExpectedNotReady(x)
  {
    CallIsOrderly(Enter(r, d.frame), d);
    assert Enter(Enter(r, d.frame), d.frame) == Enter(r, d.frame);
    assert Receive(r, d.frame, d.payload) == Receive(Enter(r, d.frame), d.frame, d.payload);
  }

  /** Every call of the run but the first n is orderly. */
  predicate OrderlyAfter(r: Ring, ds: seq<Datagram>, n: nat) {
    |ds| <= n || (OrderlyAfter(r, ds[..|ds| - 1], n) && Orderly(Run(r, ds[..|ds| - 1]).ring, ds[|ds| - 1]))
  }

  lemma {:induction false} RunSession(r: Ring, session: u16, ds: seq<Datagram>)
    requires ds != [] && FramesOf(session, ds)
    ensures Run(r, ds).ring.session == session
  {
    var n := |ds| - 1;
    var before := Run(r, ds[..n]).ring;
    UpdateSession(before, ds[n].frame, ds[n].payload);
    DrainAccounts(Update(before, ds[n].frame, ds[n].payload).ring);
  }

  lemma UpdateSession(r: Ring, f: Frame, p: Payload)
    ensures Update(r, f, p).ring.session == f.session
  {
  }

  lemma LastIsOrderly(r: Ring, session: u16, ds: seq<Datagram>)
    requires |ds| > 1 && FramesOf(session, ds) && ExpectedNotReady(Run(r, ds[..|ds| - 1]).ring)
    ensures Orderly(Run(r, ds[..|ds| - 1]).ring, ds[|ds| - 1]) && ExpectedNotReady(Run(r, ds).ring)
  {
    var m := |ds| - 1;
    RunSession(r, session, ds[..m]);
    CallIsOrderly(Run(r, ds[..m]).ring, ds[m]);
  }

  /** Whatever the slots held when a session began: from any point of it on at which the
      expected slot is not ready, the rest of the session is as it should be. */
  lemma {:induction false} OrderlyFrom(r: Ring, session: u16, ds: seq<Datagram>, n: nat)
    requires 0 < n <= |ds| && FramesOf(session, ds)
    requires ExpectedNotReady(Run(r, ds[..n]).ring)
    ensures ExpectedNotReady(Run(r, ds).ring) && OrderlyAfter(r, ds, n)
    decreases |ds|
  {
    if n == |ds| {
      assert ds[..n] == ds;
    } else {
      var m := |ds| - 1;
      assert ds[..m][..n] == ds[..n];
      OrderlyFrom(r, session, ds[..m], n);
      LastIsOrderly(r, session, ds);
    }
  }

  // ----- Exactly when these fail

  /** After a call the expected slot is ready exactly if the call changed the session to a slot
      that was still ready from the old one and its frame neither took the fast path nor
      completed the slot. */
  lemma ReadyAfterCallExactly(r: Ring, f: Frame, p: Payload)
    requires r.session == f.session ==> ExpectedNotReady(r)
    ensures ExpectedNotReady(Receive(r, f, p).ring) <==>
            !(r.session != f.session && r.At(f.seqno).ready && f.fragmentMax != 0 && !Completes(r.At(f.seqno), f))
  {
    if r.session == f.session {
      OneCall(r, f, p);
    } else {
      SessionChange(r, f, p);
    }
  }

  lemma SessionChange(r: Ring, f: Frame, p: Payload)
    requires r.session != f.session
    ensures ExpectedNotReady(Receive(r, f, p).ring) <==>
            !(r.At(f.seqno).ready && f.fragmentMax != 0 && !Completes(r.At(f.seqno), f))
  {
    assert Distance(f.seqno, f.seqno) == 0;
    var u := Update(r, f, p);
    DrainAccounts(u.ring);
    if f.fragmentMax != 0 {
      assert u == Updated(Process(Enter(r, f), f, p), StatusOf(Enter(r, f), f), [], u.healthy);
    }
  }

  lemma {:induction false} SuffixStartZero(r: Ring, n: nat)
    ensures SuffixStart(r, n) == 0 <==> forall j :: 0 <= j < n ==> r.At(Plus(r.next, j)).ready
  {
    if n == 0 {
    } else {
      SuffixStartZero(r, n - 1);
    }
  }

  /** "Buffer is full" is reached exactly by a frame sixteen ahead of a ring whose sixteen slots
      are all ready, and then the call is not healthy. */
  lemma AbortsExactly(r: Ring, f: Frame, p: Payload)
    ensures Aborts(r, f) <==>
            Distance(f.seqno, Enter(r, f).next) == MAX_BUFFERS && forall k :: 0 <= k < MAX_BUFFERS ==> r.slots[k].ready
    ensures Aborts(r, f) ==> !Receive(r, f, p).healthy
  {
    var s := Enter(r, f);
    SuffixStartZero(s, MAX_BUFFERS);
    if SuffixStart(s, MAX_BUFFERS) == 0 {
      forall k | 0 <= k < MAX_BUFFERS ensures r.slots[k].ready {
        OffsetInverse(s.next, k, OffsetOfSlot(s.next, k));
      }
    }
  }

  /** A drain of n ready slots in a row makes at least n callbacks. */
  lemma {:induction false} DrainAtLeast(r: Ring, n: nat)
    requires n <= MAX_BUFFERS && forall j :: 0 <= j < n ==> r.At(Plus(r.next, j)).ready
    ensures CallbackCount(Drain(r).outs) >= n
    decreases n
  {
    if n == 0 {
    } else {
      assert Plus(r.next, 0) == r.next;
      forall j | 0 <= j < n - 1 ensures Pop(r).At(Plus(Pop(r).next, j)).ready {
        PopKeeps(r, j + 1);
      }
      DrainAtLeast(Pop(r), n - 1);
      DrainStep(r);
      assert Drain(r).outs[1..] == Drain(Pop(r)).outs;
    }
  }

  lemma PopKeeps(r: Ring, j: nat)
    requires 0 < j < MAX_BUFFERS
    ensures Pop(r).At(Plus(Pop(r).next, j - 1)) == r.At(Plus(r.next, j))
  {
    assert Plus(Pop(r).next, j - 1) == Plus(r.next, j);
    DistanceOfNext(r.next, j);
    if Plus(r.next, j) % MAX_BUFFERS == r.next % MAX_BUFFERS {
      SameSlotSameSeqno(Plus(r.next, j), r.next);
    }
  }

  lemma FullByCount(slots: Slots)
    ensures |ReadySlots(slots)| == MAX_BUFFERS <==> forall k :: 0 <= k < MAX_BUFFERS ==> slots[k].ready
  {
    WholeByCount(ReadySlots(slots), MAX_BUFFERS);
    assert forall k: nat :: k < MAX_BUFFERS ==> (k in ReadySlots(slots) <==> slots[k].ready);
  }

  lemma FinishCount(u: Updated, f: Frame, p: Payload)
    requires forall o :: o in u.warnings ==> o.GapWarning?
    ensures CallbackCount(Finish(u, f, p).outs) ==
            (if u.status.Dispatch? then 1 else 0) +
            (if u.status.Buffering? then 0 else CallbackCount(Drain(u.ring).outs))
  {
    var direct := if u.status.Dispatch? then [Callback(Header(f.session, f.seqno, f.meta), p)] else [];
    var drained := if u.status.Buffering? then [] else Drain(u.ring).outs;
    CountConcat(u.warnings + direct, drained);
    CountConcat(u.warnings, direct);
    NoCallbacks(u.warnings);
  }

  lemma {:induction false} NoCallbacks(outs: seq<Output>)
    requires forall o :: o in outs ==> o.GapWarning?
    ensures CallbackCount(outs) == 0
  {
    if outs == [] {
    } else {
      assert outs[0] in outs;
      NoCallbacks(outs[1..]);
    }
  }

  /** Any ring and any frame: a call makes at most seventeen callbacks, and seventeen exactly if
      the frame takes the fast path while all sixteen slots are ready; the call is then not
      healthy. */
  lemma CallbacksExactly(r: Ring, f: Frame, p: Payload)
    ensures var x := Receive(r, f, p);
      && CallbackCount(x.outs) <= MAX_BUFFERS + 1
      && (CallbackCount(x.outs) > MAX_BUFFERS <==>
            Update(r, f, p).status.Dispatch? && forall k :: 0 <= k < MAX_BUFFERS ==> r.slots[k].ready)
      && (x.healthy ==> CallbackCount(x.outs) <= MAX_BUFFERS)
  {
    var u := Update(r, f, p);
    FinishCount(u, f, p);
    DrainAccounts(u.ring);
    ReadyBound(u.ring.slots, {});
    if u.status.Dispatch? {
      FastPathKeepsSlots(r, f, p);
      FullByCount(r.slots);
      if forall k :: 0 <= k < MAX_BUFFERS ==> r.slots[k].ready {
        DrainAtLeast(u.ring, MAX_BUFFERS);
      }
    }
  }

  lemma FastPathKeepsSlots(r: Ring, f: Frame, p: Payload)
    requires Update(r, f, p).status.Dispatch?
    ensures Update(r, f, p).ring.slots == r.slots
    ensures Update(r, f, p).healthy ==> exists k :: 0 <= k < MAX_BUFFERS && !r.slots[k].ready
  {
    var k := f.seqno % MAX_BUFFERS;
    assert Update(r, f, p).healthy ==> !r.slots[k].ready;
  }
}
