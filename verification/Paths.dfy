/** What one call does on each of its paths, for every ring and every frame, well-formed or not,
    slot by slot and byte by byte. */
module Paths {
  import opened Wire
  import opened Serial
  import opened Ring
  import opened Calls
  import opened Restart

  // ----- Storing a fragment

  /** A fragment the slot already has changes nothing. A new one sets its bit, raises the count,
      writes its bytes and no others, sets the size if it is the last of its message, and makes
      the slot ready and gives it the header exactly if the count reaches the number of fragments. */
  lemma StoreExactly(s: Slot, f: Frame, p: Payload)
    ensures var t := Store(s, f, p);
      if f.fragment in s.available then t == s
      else
        var at := Offset(f.fragment);
        && t.available == s.available + {f.fragment}
        && t.count == s.count + 1
        && (t.ready <==> s.ready || s.count + 1 == f.fragmentMax + 1)
        && t.meta == (if s.count + 1 == f.fragmentMax + 1 then f.meta else s.meta)
        && t.size == (if f.fragment == f.fragmentMax then at + |p| else s.size)
        && forall j :: 0 <= j < MAX_BUFFER ==> t.payload[j] == if at <= j < at + |p| then p[j - at] else s.payload[j]
  {
    OffsetFits(f.fragment);
  }

  /** In terms of the set of fragments: a slot of any reachable ring becomes ready exactly if the
      fragment is new and with it there are as many as the frame says the message has. Fragments
      left over from another message count. */
  lemma BecomesReadyExactly(s: Slot, f: Frame, p: Payload)
    requires Sane(s) && !s.ready
    ensures Store(s, f, p).ready <==>
            f.fragment !in s.available && |s.available + {f.fragment}| == f.fragmentMax + 1
  {
    if f.fragment !in s.available {
      assert |s.available + {f.fragment}| == |s.available| + 1;
    }
  }

  // ----- Draining

  /** The slot of window offset j. */
  function SlotAt(r: Ring, j: nat): Slot {
    r.At(Plus(r.next, j))
  }

  /** Drain delivers the ready slots from the expected one on, in order, each under its own number
      and the header of its slot, up to the first slot that is not ready; it resets exactly
      these and expects the number after them. */
  ghost predicate DrainsFirst(r: Ring, d: Drained, n: nat) {
    && n <= MAX_BUFFERS && |d.outs| == n
    && (forall j :: 0 <= j < n ==> SlotAt(r, j).ready)
    && (n < MAX_BUFFERS ==> !SlotAt(r, n).ready)
    && (forall j :: 0 <= j < n ==> d.outs[j] == DeliveryAt(r, j))
    && d.ring.session == r.session
    && d.ring.next == Plus(r.next, n)
    && forall j :: 0 <= j < MAX_BUFFERS ==>
         d.ring.At(Plus(r.next, j)) == if j < n then ResetSlot(SlotAt(r, j)) else SlotAt(r, j)
  }

  function DeliveryAt(r: Ring, j: nat): Output {
    var s := SlotAt(r, j);
    Callback(Header(r.session, Plus(r.next, j), s.meta), s.payload[..s.size])
  }

  lemma {:induction false} AllCallbacks(outs: seq<Output>)
    requires forall o :: o in outs ==> o.Callback?
    ensures CallbackCount(outs) == |outs|
  {
    if outs == [] {
    } else {
      assert outs[0] in outs;
      AllCallbacks(outs[1..]);
    }
  }

  lemma DrainLength(r: Ring)
    ensures |Drain(r).outs| <= |ReadySlots(r.slots)| <= MAX_BUFFERS
  {
    OnlyCallbacks(r);
    AllCallbacks(Drain(r).outs);
    DrainAccounts(r);
    ReadyBound(r.slots, {});
  }

  lemma PlusZero(next: u32)
    ensures Plus(next, 0) == next
  {
  }

  /** The last offset of the window after a slot is taken out is that slot. */
  lemma PopLast(r: Ring)
    ensures SlotAt(Pop(r), MAX_BUFFERS - 1) == ResetSlot(r.At(r.next))
    ensures Plus(Pop(r).next, MAX_BUFFERS - 1) % MAX_BUFFERS == r.next % MAX_BUFFERS
  {
    MultipleOfSixteen(r.next, 1);
    assert Plus(Pop(r).next, MAX_BUFFERS - 1) == Plus(r.next, MAX_BUFFERS);
    SlotOfSeqno(r.next + MAX_BUFFERS);
  }

  lemma PopNumbers(r: Ring, j: nat)
    requires 0 < j
    ensures Plus(Pop(r).next, j - 1) == Plus(r.next, j)
  {
  }

  lemma DrainsFirstStep(r: Ring, d: Drained, n: nat)
    requires r.At(r.next).ready && n < MAX_BUFFERS && DrainsFirst(Pop(r), d, n)
    ensures DrainsFirst(r, Drained(d.ring, [NextDelivery(r)] + d.outs), n + 1)
  {
    var outs := [NextDelivery(r)] + d.outs;
    PlusZero(r.next);
    PopNumbers(r, n + 1);
    forall j | 0 <= j < n + 1 ensures SlotAt(r, j).ready && outs[j] == DeliveryAt(r, j) {
      if j > 0 {
        PopKeeps(r, j);
        PopNumbers(r, j);
        assert d.outs[j - 1] == DeliveryAt(Pop(r), j - 1);
      }
    }
    if n + 1 < MAX_BUFFERS {
      PopKeeps(r, n + 1);
    }
    forall j | 0 <= j < MAX_BUFFERS
      ensures d.ring.At(Plus(r.next, j)) == if j < n + 1 then ResetSlot(SlotAt(r, j)) else SlotAt(r, j)
    {
      DrainsFirstSlot(r, d, n, j);
    }
  }

  lemma DrainsFirstSlot(r: Ring, d: Drained, n: nat, j: nat)
    requires r.At(r.next).ready && n < MAX_BUFFERS && DrainsFirst(Pop(r), d, n) && j < MAX_BUFFERS
    ensures d.ring.At(Plus(r.next, j)) == if j < n + 1 then ResetSlot(SlotAt(r, j)) else SlotAt(r, j)
  {
    if j == 0 {
      PlusZero(r.next);
      PopLast(r);
    } else {
      PopKeeps(r, j);
      PopNumbers(r, j);
    }
  }

  /** See DrainsFirst. */
  lemma {:induction false} DrainExactly(r: Ring)
    ensures DrainsFirst(r, Drain(r), |Drain(r).outs|)
    decreases ReadySlots(r.slots)
  {
    DrainLength(r);
    PlusZero(r.next);
    if r.At(r.next).ready {
      PopShrinks(r);
      DrainExactly(Pop(r));
      DrainStep(r);
      DrainsFirstStep(r, Drain(Pop(r)), |Drain(Pop(r)).outs|);
    }
  }

  // ----- The suffix that is kept

  /** The reverse scan finds the least offset from which on all slots are ready. */
  lemma {:induction false} SuffixExactly(r: Ring, n: nat)
    ensures var k := SuffixStart(r, n);
      (forall j :: k <= j < n ==> SlotAt(r, j).ready) && (k == 0 || !SlotAt(r, k - 1).ready)
  {
    if n == 0 {
    } else {
      SuffixExactly(r, n - 1);
    }
  }

  /** Skipping resets the slots before the suffix and no others. */
  lemma SkipExactly(r: Ring, k: nat)
    ensures SkipTo(r, k).session == r.session && SkipTo(r, k).next == Plus(r.next, k)
    ensures forall j :: 0 <= j < MAX_BUFFERS ==>
              SkipTo(r, k).At(Plus(r.next, j)) == if j < k then ResetSlot(SlotAt(r, j)) else SlotAt(r, j)
  {
    forall j | 0 <= j < MAX_BUFFERS
      ensures SkipTo(r, k).At(Plus(r.next, j)) == if j < k then ResetSlot(SlotAt(r, j)) else SlotAt(r, j)
    {
      OffsetInverse(r.next, Plus(r.next, j) % MAX_BUFFERS, j);
    }
  }

  // ----- The paths of a call

  /** Fewer than 2^30 behind: ignored, whatever the slots hold. */
  lemma ReplayIgnored(r: Ring, f: Frame, p: Payload)
    requires r.session == f.session && 0 < Distance(r.next, f.seqno) < 0x4000_0000
    ensures Receive(r, f, p) == Received(r, [], true)
  {
    assert Distance(f.seqno, r.next) == TWO_32 - Distance(r.next, f.seqno);
  }

  /** Another session: the call is as if the buffer had been in it and had expected this frame,
      with the slots as they are. */
  lemma SessionChangeExactly(r: Ring, f: Frame, p: Payload)
    requires r.session != f.session
    ensures Receive(r, f, p) == Receive(Ring(f.session, f.seqno, r.slots), f, p)
  {
    assert Enter(r, f) == Ring(f.session, f.seqno, r.slots);
  }

  /** Expected and unfragmented: handed over at once, whatever the slot holds and whatever its
      fragment number; then everything waiting behind it. Healthy exactly if the slot is vacant. */
  lemma FastPathExactly(r: Ring, f: Frame, p: Payload)
    requires r.session == f.session && f.seqno == r.next && f.fragmentMax == 0
    ensures var rest := Drain(r.(next := Plus(r.next, 1)));
      Receive(r, f, p) ==
      Received(rest.ring, [Callback(Header(r.session, r.next, f.meta), p)] + rest.outs, Vacant(r.At(r.next)))
  {
    SameDistance(r.next);
  }

  lemma SameDistance(seqno: u32)
    ensures Distance(seqno, seqno) == 0
  {
  }

  predicate InWindow(r: Ring, f: Frame) {
    r.session == f.session && Distance(f.seqno, r.next) < MAX_BUFFERS && !(f.seqno == r.next && f.fragmentMax == 0)
  }

  /** Inside the window, a fragment the slot already has: ignored. */
  lemma DuplicateIgnored(r: Ring, f: Frame, p: Payload)
    requires InWindow(r, f) && f.fragment in r.At(f.seqno).available
    ensures Receive(r, f, p) == Received(r, [], true)
  {
    assert Process(r, f, p) == r;
  }

  /** Inside the window, a new fragment: stored in the slot of its number; if it completes the
      expected slot, what is ready from there on is delivered, otherwise nothing is. Healthy
      exactly if the slot was not ready. */
  lemma NewFragmentExactly(r: Ring, f: Frame, p: Payload)
    requires InWindow(r, f) && f.fragment !in r.At(f.seqno).available && Sane(r.At(f.seqno))
    ensures var s := r.At(f.seqno); var x := Receive(r, f, p);
      var stored := r.With(f.seqno, Store(s, f, p));
      && (x.healthy <==> !s.ready)
      && if f.seqno == r.next && |s.available + {f.fragment}| == f.fragmentMax + 1
         then x.ring == Drain(stored).ring && x.outs == Drain(stored).outs
         else x.ring == stored && x.outs == []
  {
    var s := r.At(f.seqno);
    assert |s.available + {f.fragment}| == s.count + 1;
  }

  /** Exactly sixteen ahead of a ring that is not full: the window skips to its longest ready
      suffix, the frame is stored in the slot of the number that was expected, which is vacant
      now, and what is ready from the new expected number on is delivered after the warning. */
  lemma OverflowOfOneExactly(r: Ring, f: Frame, p: Payload)
    requires r.session == f.session && Distance(f.seqno, r.next) == MAX_BUFFERS
    requires exists k :: 0 <= k < MAX_BUFFERS && !r.slots[k].ready
    ensures var k := SuffixStart(r, MAX_BUFFERS); var x := Receive(r, f, p);
      var stored := SkipTo(r, k).With(f.seqno, Store(ResetSlot(r.At(r.next)), f, p));
      && 0 < k
      && x.ring == Drain(stored).ring
      && x.outs == [GapWarning(r.next, Plus(r.next, k))] + Drain(stored).outs
      && x.healthy
  {
    AbortsExactly(r, f, p);
    StoresAfterSkip(r, f, p);
    DrainFollows(Update(r, f, p), f, p);
  }

  lemma DrainFollows(u: Updated, f: Frame, p: Payload)
    requires u.status.Ready?
    ensures Finish(u, f, p) == Received(Drain(u.ring).ring, u.warnings + Drain(u.ring).outs, u.healthy)
  {
    assert u.warnings + [] + Drain(u.ring).outs == u.warnings + Drain(u.ring).outs;
  }

  lemma StoresAfterSkip(r: Ring, f: Frame, p: Payload)
    requires r.session == f.session && Distance(f.seqno, r.next) == MAX_BUFFERS && SuffixStart(r, MAX_BUFFERS) != 0
    ensures var k := SuffixStart(r, MAX_BUFFERS);
      var stored := SkipTo(r, k).With(f.seqno, Store(ResetSlot(r.At(r.next)), f, p));
      Update(r, f, p) == Updated(stored, Ready, [GapWarning(r.next, Plus(r.next, k))], true)
  {
    RoomAhead(r, f, SuffixStart(r, MAX_BUFFERS));
  }

  /** The frame sixteen ahead goes to the slot that was expected, the first to be reset. */
  lemma RoomAhead(r: Ring, f: Frame, k: nat)
    requires Distance(f.seqno, r.next) == MAX_BUFFERS && 0 < k
    ensures SkipTo(r, k).At(f.seqno) == ResetSlot(r.At(r.next))
  {
    SkipExactly(r, k);
    PlusZero(r.next);
    DistanceInverse(f.seqno, r.next);
    SlotOfSeqno(r.next + MAX_BUFFERS);
    MultipleOfSixteen(r.next, 1);
  }

  /** Between seventeen and 3·2^30 ahead: all slots are given up and the frame is stored as the
      expected one; an unfragmented one is then delivered, a fragment waits. */
  lemma OverflowOfManyExactly(r: Ring, f: Frame, p: Payload)
    requires r.session == f.session && MAX_BUFFERS < Distance(f.seqno, r.next) <= 0xC000_0000
    ensures var x := Receive(r, f, p); var warning := GapWarning(r.next, f.seqno);
      var stored := Ring(r.session, f.seqno, ResetAll(r.slots)).With(f.seqno, Store(ResetSlot(r.At(f.seqno)), f, p));
      && x.healthy
      && if f.fragmentMax == 0
         then x.ring == Drain(stored).ring && x.outs == [warning] + Drain(stored).outs
         else x.ring == stored && x.outs == [warning]
  {
    var u := Update(r, f, p);
    assert [GapWarning(r.next, f.seqno)] + [] == [GapWarning(r.next, f.seqno)];
    if u.status.Ready? {
      DrainFollows(u, f, p);
    }
  }

  /** A change of session over leftover fragments: the first frame of the new session, if it
      belongs to a fragmented message, makes a callback exactly if it is new to the slot and
      completes the number of fragments together with what is left there. */
  lemma LeftoversCount(r: Ring, f: Frame, p: Payload)
    requires r.session != f.session && f.fragmentMax != 0 && Sane(r.At(f.seqno))
    ensures var s := r.At(f.seqno);
      Receive(r, f, p).outs != [] <==>
      f.fragment !in s.available && |s.available + {f.fragment}| == f.fragmentMax + 1
  {
    ExpectedFragment(r, f, p);
    if f.fragment !in r.At(f.seqno).available {
      assert |r.At(f.seqno).available + {f.fragment}| == r.At(f.seqno).count + 1;
    }
  }

  // ----- Health

  /** When a call fails an assert or reaches the fatal line: the fast path over a slot that holds
      something; a new fragment for a slot that is ready; sixteen ahead of a full ring. */
  predicate Unhealthy(r: Ring, f: Frame) {
    var d := Distance(f.seqno, r.next);
    if d == 0 && f.fragmentMax == 0 then r.At(r.next).available != {}
    else if d < MAX_BUFFERS then r.At(f.seqno).ready && f.fragment !in r.At(f.seqno).available
    else d == MAX_BUFFERS && forall k :: 0 <= k < MAX_BUFFERS ==> r.slots[k].ready
  }

  /** A call on any reachable ring is healthy exactly if none of these holds for the ring with the
      session entered. */
  lemma HealthyExactly(r: Ring, f: Frame, p: Payload)
    requires AllSane(r)
    ensures Receive(r, f, p).healthy <==>
            !Unhealthy(if r.session == f.session then r else Ring(f.session, f.seqno, r.slots), f)
  {
    if r.session == f.session {
      HealthyInSession(r, f, p);
    } else {
      SessionChangeExactly(r, f, p);
      HealthyInSession(Ring(f.session, f.seqno, r.slots), f, p);
    }
  }

  lemma HealthyInSession(r: Ring, f: Frame, p: Payload)
    requires AllSane(r) && r.session == f.session
    ensures Receive(r, f, p).healthy <==> !Unhealthy(r, f)
  {
    var d := Distance(f.seqno, r.next);
    SameDistance(r.next);
    DistanceInverse(f.seqno, r.next);
    PlusZero(r.next);
    if d == 0 && f.fragmentMax == 0 {
      FastPathExactly(r, f, p);
    } else if d < MAX_BUFFERS {
      if f.fragment in r.At(f.seqno).available {
        DuplicateIgnored(r, f, p);
      } else {
        NewFragmentExactly(r, f, p);
      }
    } else if d == MAX_BUFFERS {
      AbortsExactly(r, f, p);
      if exists k :: 0 <= k < MAX_BUFFERS && !r.slots[k].ready {
        OverflowOfOneExactly(r, f, p);
      }
    } else if d <= THRESHOLD {
      OverflowOfManyExactly(r, f, p);
    }
  }

  /** A run is healthy exactly if each of its calls is. */
  lemma {:induction false} RunHealthyExactly(r: Ring, ds: seq<Datagram>)
    ensures Run(r, ds).healthy <==> forall k :: 0 <= k < |ds| ==> HealthyAt(r, ds, k)
  {
    if ds != [] {
      var n := |ds| - 1;
      RunHealthyExactly(r, ds[..n]);
      RunHealthyStep(r, ds);
      forall k | 0 <= k < n ensures HealthyAt(r, ds[..n], k) == HealthyAt(r, ds, k) {
        HealthyAtPrefix(r, ds, n, k);
      }
    }
  }

  lemma RunHealthyStep(r: Ring, ds: seq<Datagram>)
    requires ds != []
    ensures Run(r, ds).healthy <==> Run(r, ds[..|ds| - 1]).healthy && HealthyAt(r, ds, |ds| - 1)
  {
  }

  lemma HealthyAtPrefix(r: Ring, ds: seq<Datagram>, n: nat, k: nat)
    requires k < n <= |ds|
    ensures HealthyAt(r, ds[..n], k) == HealthyAt(r, ds, k)
  {
    assert ds[..n][..k] == ds[..k];
  }

  predicate HealthyAt(r: Ring, ds: seq<Datagram>, k: nat)
    requires k < |ds|
  {
    Receive(Run(r, ds[..k]).ring, ds[k].frame, ds[k].payload).healthy
  }
}
