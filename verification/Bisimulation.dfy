/** Two rings that agree in everything but stale bytes behave alike on any frames at all,
    well-formed or not, in any sessions. */
module Bisimulation {
  import opened Wire
  import opened Serial
  import opened Ring

  /** Equal except that a byte of the first may be one that was in the buffer to begin with. */
  ghost predicate SameBytes(a: Bytes, b: Bytes, stale: Bytes) {
    forall j :: 0 <= j < MAX_BUFFER ==> a[j] == b[j] || a[j] == stale[j]
  }

  ghost predicate SameSlot(s: Slot, s': Slot, stale: Bytes) {
    && s.ready == s'.ready
    && s.count == s'.count
    && s.available == s'.available
    && s.size == s'.size
    && (s.ready ==> s.meta == s'.meta)
    && SameBytes(s.payload, s'.payload, stale)
  }

  /** The rings have the same session, expected number and slots, up to the bytes that were in
      the slots of origin. */
  ghost predicate Same(r: Ring, r': Ring, origin: Ring) {
    && r.session == r'.session
    && r.next == r'.next
    && forall k :: 0 <= k < MAX_BUFFERS ==> SameSlot(r.slots[k], r'.slots[k], origin.slots[k].payload)
  }

  /** The same warning, or a callback with the same header and length, and with the same bytes
      except where a byte of origin shows. */
  ghost predicate SameOut(o: Output, o': Output, origin: Ring) {
    match o
    case GapWarning(_, _) => o == o'
    case Callback(h, p) =>
      && o'.Callback? && o'.header == h && |o'.payload| == |p| <= MAX_BUFFER
      && forall j :: 0 <= j < |p| ==> p[j] == o'.payload[j] || p[j] == origin.At(h.seqno).payload[j]
  }

  ghost predicate SameOuts(outs: seq<Output>, outs': seq<Output>, origin: Ring) {
    |outs| == |outs'| && forall k :: 0 <= k < |outs| ==> SameOut(outs[k], outs'[k], origin)
  }

  lemma SameOutsConcat(a: seq<Output>, a': seq<Output>, b: seq<Output>, b': seq<Output>, origin: Ring)
    requires SameOuts(a, a', origin) && SameOuts(b, b', origin)
    ensures SameOuts(a + b, a' + b', origin)
  {
    forall k | 0 <= k < |a + b| ensures SameOut((a + b)[k], (a' + b')[k], origin) {
      if k >= |a| {
        assert SameOut(b[k - |a|], b'[k - |a|], origin);
      }
    }
  }

  // ----- Parts of a step

  lemma SpliceSame(a: Bytes, b: Bytes, stale: Bytes, at: nat, p: Payload)
    requires SameBytes(a, b, stale) && at + |p| <= MAX_BUFFER
    ensures SameBytes(Splice(a, at, p), Splice(b, at, p), stale)
  {
  }

  lemma StoreSame(s: Slot, s': Slot, stale: Bytes, f: Frame, p: Payload)
    requires SameSlot(s, s', stale)
    ensures SameSlot(Store(s, f, p), Store(s', f, p), stale)
    ensures Completes(s, f) == Completes(s', f) && StoreAsserts(s, f) == StoreAsserts(s', f)
  {
    if f.fragment !in s.available {
      OffsetFits(f.fragment);
      SpliceSame(s.payload, s'.payload, stale, Offset(f.fragment), p);
    }
  }

  lemma ProcessSame(r: Ring, r': Ring, origin: Ring, f: Frame, p: Payload)
    requires Same(r, r', origin)
    ensures Same(Process(r, f, p), Process(r', f, p), origin)
    ensures StatusOf(r, f) == StatusOf(r', f)
    ensures StoreAsserts(r.At(f.seqno), f) == StoreAsserts(r'.At(f.seqno), f)
  {
    StoreSame(r.At(f.seqno), r'.At(f.seqno), origin.At(f.seqno).payload, f, p);
  }

  lemma {:induction false} SuffixSame(r: Ring, r': Ring, origin: Ring, n: nat)
    requires Same(r, r', origin)
    ensures SuffixStart(r, n) == SuffixStart(r', n)
  {
    if n == 0 {
    } else {
      assert r.At(Plus(r.next, n - 1)).ready == r'.At(Plus(r.next, n - 1)).ready;
      SuffixSame(r, r', origin, n - 1);
    }
  }

  lemma PopSame(r: Ring, r': Ring, origin: Ring)
    requires Same(r, r', origin) && r.At(r.next).ready
    ensures Same(Pop(r), Pop(r'), origin)
    ensures SameOut(NextDelivery(r), NextDelivery(r'), origin)
  {
    var s, s' := r.At(r.next), r'.At(r.next);
    assert SameSlot(s, s', origin.At(r.next).payload);
  }

  lemma {:induction false} DrainSame(r: Ring, r': Ring, origin: Ring)
    requires Same(r, r', origin)
    ensures Same(Drain(r).ring, Drain(r').ring, origin)
    ensures SameOuts(Drain(r).outs, Drain(r').outs, origin)
    decreases ReadySlots(r.slots)
  {
    assert r.At(r.next).ready == r'.At(r.next).ready;
    if r.At(r.next).ready {
      PopSame(r, r', origin);
      PopShrinks(r);
      DrainSame(Pop(r), Pop(r'), origin);
      DrainStep(r);
      DrainStep(r');
      SameOutsConcat([NextDelivery(r)], [NextDelivery(r')], Drain(Pop(r)).outs, Drain(Pop(r')).outs, origin);
    }
  }

  ghost predicate SameUpdate(u: Updated, u': Updated, origin: Ring) {
    && Same(u.ring, u'.ring, origin)
    && u.status == u'.status
    && u.warnings == u'.warnings
    && u.healthy == u'.healthy
  }

  lemma RecoverSame(r: Ring, r': Ring, origin: Ring, f: Frame, p: Payload)
    requires Same(r, r', origin)
    ensures SameUpdate(Recover(r, f, p), Recover(r', f, p), origin)
  {
    if Distance(f.seqno, r.next) == MAX_BUFFERS {
      SuffixSame(r, r', origin, MAX_BUFFERS);
      var k := SuffixStart(r, MAX_BUFFERS);
      SkipSame(r, r', origin, k);
      ProcessSame(SkipTo(r, k), SkipTo(r', k), origin, f, p);
    } else {
      RestartSame(r, r', origin, f);
      ProcessSame(r.(next := f.seqno, slots := ResetAll(r.slots)),
                  r'.(next := f.seqno, slots := ResetAll(r'.slots)), origin, f, p);
    }
  }

  lemma SkipSame(r: Ring, r': Ring, origin: Ring, k: nat)
    requires Same(r, r', origin)
    ensures Same(SkipTo(r, k), SkipTo(r', k), origin)
  {
  }

  lemma RestartSame(r: Ring, r': Ring, origin: Ring, f: Frame)
    requires Same(r, r', origin)
    ensures Same(r.(next := f.seqno, slots := ResetAll(r.slots)),
                 r'.(next := f.seqno, slots := ResetAll(r'.slots)), origin)
  {
  }

  lemma UpdateSame(r: Ring, r': Ring, origin: Ring, f: Frame, p: Payload)
    requires Same(r, r', origin)
    ensures SameUpdate(Update(r, f, p), Update(r', f, p), origin)
  {
    var s, s' := Enter(r, f), Enter(r', f);
    assert Same(s, s', origin);
    if IsReplay(f.seqno, s.next) {
    } else if f.seqno == s.next && f.fragmentMax == 0 {
    } else if Distance(f.seqno, s.next) < MAX_BUFFERS {
      ProcessSame(s, s', origin, f, p);
    } else {
      RecoverSame(s, s', origin, f, p);
    }
  }

  /** Equal final states, outputs and health, up to bytes of origin. */
  ghost predicate Alike(x: Received, x': Received, origin: Ring) {
    && Same(x.ring, x'.ring, origin)
    && SameOuts(x.outs, x'.outs, origin)
    && x.healthy == x'.healthy
  }

  lemma WarningsSame(warnings: seq<Output>, origin: Ring)
    requires forall o :: o in warnings ==> o.GapWarning?
    ensures SameOuts(warnings, warnings, origin)
  {
    assert forall k :: 0 <= k < |warnings| ==> warnings[k] in warnings;
  }

  lemma FinishSame(u: Updated, u': Updated, origin: Ring, f: Frame, p: Payload)
    requires SameUpdate(u, u', origin) && forall o :: o in u.warnings ==> o.GapWarning?
    ensures Alike(Finish(u, f, p), Finish(u', f, p), origin)
  {
    OffsetFits(0);
    DrainSame(u.ring, u'.ring, origin);
    WarningsSame(u.warnings, origin);
    var direct := if u.status.Dispatch? then [Callback(Header(f.session, f.seqno, f.meta), p)] else [];
    var rest := if u.status.Buffering? then [] else Drain(u.ring).outs;
    var rest' := if u.status.Buffering? then [] else Drain(u'.ring).outs;
    SameOutsConcat(u.warnings, u.warnings, direct, direct, origin);
    SameOutsConcat(u.warnings + direct, u.warnings + direct, rest, rest', origin);
  }

  /** Alike now, alike after any datagrams. */
  lemma {:induction false} RunSame(r: Ring, r': Ring, origin: Ring, ds: seq<Datagram>)
    requires Same(r, r', origin)
    ensures Alike(Run(r, ds), Run(r', ds), origin)
  {
    if ds == [] {
    } else {
      var n := |ds| - 1;
      var x, x', d := Run(r, ds[..n]), Run(r', ds[..n]), ds[n];
      RunSame(r, r', origin, ds[..n]);
      UpdateSame(x.ring, x'.ring, origin, d.frame, d.payload);
      var u, u' := Update(x.ring, d.frame, d.payload), Update(x'.ring, d.frame, d.payload);
      FinishSame(u, u', origin, d.frame, d.payload);
      SameOutsConcat(x.outs, x'.outs, Finish(u, d.frame, d.payload).outs, Finish(u', d.frame, d.payload).outs, origin);
    }
  }
}
