/** Translation invariance: adding a constant to all sequence numbers, modulo 2^32, shifts the
    numbers in the output and rotates the slots, and changes nothing else. It holds for any
    frames in any sessions, so the place where 32 bits wrap cannot be observed. */
module Rotation {
  import opened Wire
  import opened Serial
  import opened Ring
  import opened Runs

  function ShiftFrame(f: Frame, c: u32): Frame {
    f.(seqno := Plus(f.seqno, c))
  }

  function ShiftOutput(o: Output, c: u32): Output {
    match o
    case Callback(h, p) => Callback(h.(seqno := Plus(h.seqno, c)), p)
    case GapWarning(a, b) => GapWarning(Plus(a, c), Plus(b, c))
  }

  function ShiftOutputs(outs: seq<Output>, c: u32): seq<Output> {
    seq(|outs|, k requires 0 <= k < |outs| => ShiftOutput(outs[k], c))
  }

  function ShiftAll(ds: seq<Datagram>, c: u32): seq<Datagram> {
    seq(|ds|, k requires 0 <= k < |ds| => ds[k].(frame := ShiftFrame(ds[k].frame, c)))
  }

  ghost predicate Rotated(r: Ring, r': Ring, c: u32) {
    && r'.session == r.session
    && r'.next == Plus(r.next, c)
    && forall k :: 0 <= k < MAX_BUFFERS ==> r'.slots[(k + c) % MAX_BUFFERS] == r.slots[k]
  }

  // ----- Arithmetic

  lemma AddInside(x: int, c: int)
    ensures (x % 16 + c) % 16 == (x + c) % 16
  {
  }

  lemma SlotOfShifted(seqno: u32, c: u32)
    ensures Plus(seqno, c) % MAX_BUFFERS == (seqno % MAX_BUFFERS + c) % MAX_BUFFERS
  {
    SlotOfSeqno(seqno + c);
    AddInside(seqno, c);
  }

  lemma DistanceShift(x: u32, y: u32, c: u32)
    ensures Distance(Plus(x, c), Plus(y, c)) == Distance(x, y)
  {
  }

  lemma PlusCommutes(x: u32, n: nat, c: u32)
    ensures Plus(Plus(x, n), c) == Plus(Plus(x, c), n)
  {
  }

  lemma RotationInjective(j: nat, k: nat, c: u32)
    requires j < 16 && k < 16 && j != k
    ensures (j + c) % 16 != (k + c) % 16
  {
  }

  // ----- Every part of a step commutes with the rotation

  lemma AtShift(r: Ring, r': Ring, c: u32, seqno: u32)
    requires Rotated(r, r', c)
    ensures r'.At(Plus(seqno, c)) == r.At(seqno)
  {
    SlotOfShifted(seqno, c);
  }

  lemma WithShift(r: Ring, r': Ring, c: u32, seqno: u32, s: Slot)
    requires Rotated(r, r', c)
    ensures Rotated(r.With(seqno, s), r'.With(Plus(seqno, c), s), c)
  {
    SlotOfShifted(seqno, c);
    forall k | 0 <= k < MAX_BUFFERS
      ensures r'.With(Plus(seqno, c), s).slots[(k + c) % MAX_BUFFERS] == r.With(seqno, s).slots[k]
    {
      if k != seqno % MAX_BUFFERS {
        RotationInjective(k, seqno % MAX_BUFFERS, c);
      }
    }
  }

  lemma ProcessShift(r: Ring, r': Ring, c: u32, f: Frame, p: Payload)
    requires Rotated(r, r', c)
    ensures Rotated(Process(r, f, p), Process(r', ShiftFrame(f, c), p), c)
    ensures StatusOf(r, f) == StatusOf(r', ShiftFrame(f, c))
    ensures StoreAsserts(r.At(f.seqno), f) == StoreAsserts(r'.At(ShiftFrame(f, c).seqno), ShiftFrame(f, c))
  {
    AtShift(r, r', c, f.seqno);
    WithShift(r, r', c, f.seqno, Store(r.At(f.seqno), f, p));
    assert Store(r.At(f.seqno), f, p) == Store(r.At(f.seqno), ShiftFrame(f, c), p);
    DistanceShift(f.seqno, r.next, c);
    SameDistance(f.seqno, r.next);
    SameDistance(Plus(f.seqno, c), r'.next);
  }

  lemma SameDistance(x: u32, y: u32)
    ensures Distance(x, y) == 0 <==> x == y
  {
  }

  lemma {:induction false} SuffixShift(r: Ring, r': Ring, c: u32, n: nat)
    requires Rotated(r, r', c)
    ensures SuffixStart(r, n) == SuffixStart(r', n)
  {
    if n == 0 {
    } else {
      PlusCommutes(r.next, n - 1, c);
      AtShift(r, r', c, Plus(r.next, n - 1));
      SuffixShift(r, r', c, n - 1);
    }
  }

  lemma OffsetShift(next: u32, k: nat, c: u32)
    requires k < MAX_BUFFERS
    ensures OffsetOfSlot(Plus(next, c), (k + c) % MAX_BUFFERS) == OffsetOfSlot(next, k)
  {
    var q := (k + c) / 16 - 0x1000_0000 * ((next + c) / TWO_32);
    assert (k + c) % 16 - Plus(next, c) == (k - next) + 16 * -q;
    MultipleOfSixteen(k - next, -q);
  }

  lemma SkipShift(r: Ring, r': Ring, c: u32, n: nat)
    requires Rotated(r, r', c)
    ensures Rotated(SkipTo(r, n), SkipTo(r', n), c)
  {
    PlusCommutes(r.next, n, c);
    forall k | 0 <= k < MAX_BUFFERS
      ensures SkipTo(r', n).slots[(k + c) % MAX_BUFFERS] == SkipTo(r, n).slots[k]
    {
      OffsetShift(r.next, k, c);
    }
  }

  lemma {:induction false} DrainShift(r: Ring, r': Ring, c: u32)
    requires Rotated(r, r', c)
    ensures Rotated(Drain(r).ring, Drain(r').ring, c)
    ensures Drain(r').outs == ShiftOutputs(Drain(r).outs, c)
    decreases ReadySlots(r.slots)
  {
    AtShift(r, r', c, r.next);
    if r.At(r.next).ready {
      WithShift(r, r', c, r.next, ResetSlot(r.At(r.next)));
      PlusCommutes(r.next, 1, c);
      PopShrinks(r);
      DrainShift(Pop(r), Pop(r'), c);
      DrainStep(r);
      DrainStep(r');
      assert NextDelivery(r') == ShiftOutput(NextDelivery(r), c);
    }
  }

  lemma EnterShift(r: Ring, r': Ring, c: u32, f: Frame)
    requires Rotated(r, r', c)
    ensures Rotated(Enter(r, f), Enter(r', ShiftFrame(f, c)), c)
  {
  }

  ghost predicate SameUpdate(u: Updated, u': Updated, c: u32) {
    && Rotated(u.ring, u'.ring, c)
    && u'.status == u.status
    && u'.warnings == ShiftOutputs(u.warnings, c)
    && u'.healthy == u.healthy
  }

  lemma RestartShift(r: Ring, r': Ring, c: u32, f: Frame)
    requires Rotated(r, r', c)
    ensures Rotated(r.(next := f.seqno, slots := ResetAll(r.slots)),
                    r'.(next := Plus(f.seqno, c), slots := ResetAll(r'.slots)), c)
  {
    forall k | 0 <= k < MAX_BUFFERS
      ensures ResetAll(r'.slots)[(k + c) % MAX_BUFFERS] == ResetAll(r.slots)[k]
    {
    }
  }

  lemma SuffixRecoverShift(r: Ring, r': Ring, c: u32, f: Frame, p: Payload)
    requires Rotated(r, r', c) && Distance(f.seqno, r.next) == MAX_BUFFERS
    ensures SameUpdate(Recover(r, f, p), Recover(r', ShiftFrame(f, c), p), c)
  {
    DistanceShift(f.seqno, r.next, c);
    SuffixShift(r, r', c, MAX_BUFFERS);
    var k := SuffixStart(r, MAX_BUFFERS);
    SkipShift(r, r', c, k);
    ProcessShift(SkipTo(r, k), SkipTo(r', k), c, f, p);
  }

  lemma RestartRecoverShift(r: Ring, r': Ring, c: u32, f: Frame, p: Payload)
    requires Rotated(r, r', c) && Distance(f.seqno, r.next) != MAX_BUFFERS
    ensures SameUpdate(Recover(r, f, p), Recover(r', ShiftFrame(f, c), p), c)
  {
    DistanceShift(f.seqno, r.next, c);
    RestartShift(r, r', c, f);
    ProcessShift(r.(next := f.seqno, slots := ResetAll(r.slots)),
                 r'.(next := Plus(f.seqno, c), slots := ResetAll(r'.slots)), c, f, p);
  }

  lemma UpdateShift(r: Ring, r': Ring, c: u32, f: Frame, p: Payload)
    requires Rotated(r, r', c)
    ensures SameUpdate(Update(r, f, p), Update(r', ShiftFrame(f, c), p), c)
  {
    EnterShift(r, r', c, f);
    var s, s' := Enter(r, f), Enter(r', ShiftFrame(f, c));
    DistanceShift(f.seqno, s.next, c);
    SameDistance(f.seqno, s.next);
    SameDistance(Plus(f.seqno, c), s'.next);
    if IsReplay(f.seqno, s.next) {
    } else if f.seqno == s.next && f.fragmentMax == 0 {
      AtShift(s, s', c, s.next);
      PlusCommutes(s.next, 1, c);
    } else if Distance(f.seqno, s.next) < MAX_BUFFERS {
      ProcessShift(s, s', c, f, p);
    } else {
      if Distance(f.seqno, s.next) == MAX_BUFFERS {
        SuffixRecoverShift(s, s', c, f, p);
      } else {
        RestartRecoverShift(s, s', c, f, p);
      }
    }
  }

  ghost predicate SameResult(x: Received, x': Received, c: u32) {
    && Rotated(x.ring, x'.ring, c)
    && x'.outs == ShiftOutputs(x.outs, c)
    && x'.healthy == x.healthy
  }

  lemma FinishShift(u: Updated, u': Updated, c: u32, f: Frame, p: Payload)
    requires SameUpdate(u, u', c)
    ensures SameResult(Finish(u, f, p), Finish(u', ShiftFrame(f, c), p), c)
  {
    DrainShift(u.ring, u'.ring, c);
  }

  lemma ThenShift(x: Received, x': Received, c: u32, d: Datagram)
    requires SameResult(x, x', c)
    ensures SameResult(Then(x, d), Then(x', d.(frame := ShiftFrame(d.frame, c))), c)
  {
    var f := ShiftFrame(d.frame, c);
    ReceiveShift(x.ring, x'.ring, c, d.frame, d.payload);
    JoinShift(x, x', Receive(x.ring, d.frame, d.payload), Receive(x'.ring, f, d.payload), c);
  }

  lemma JoinShift(x: Received, x': Received, y: Received, y': Received, c: u32)
    requires SameResult(x, x', c) && SameResult(y, y', c)
    ensures SameResult(Received(y.ring, x.outs + y.outs, x.healthy && y.healthy),
                       Received(y'.ring, x'.outs + y'.outs, x'.healthy && y'.healthy), c)
  {
    assert x'.outs + y'.outs == ShiftOutputs(x.outs + y.outs, c);
  }

  lemma ReceiveShift(r: Ring, r': Ring, c: u32, f: Frame, p: Payload)
    requires Rotated(r, r', c)
    ensures SameResult(Receive(r, f, p), Receive(r', ShiftFrame(f, c), p), c)
  {
    UpdateShift(r, r', c, f, p);
    FinishShift(Update(r, f, p), Update(r', ShiftFrame(f, c), p), c, f, p);
  }

  lemma {:induction false} RunShift(r: Ring, r': Ring, c: u32, ds: seq<Datagram>)
    requires Rotated(r, r', c)
    ensures SameResult(Run(r, ds), Run(r', ShiftAll(ds, c)), c)
  {
    if ds == [] {
    } else {
      var n := |ds| - 1;
      assert ShiftAll(ds, c)[..n] == ShiftAll(ds[..n], c);
      RunShift(r, r', c, ds[..n]);
      ThenShift(Run(r, ds[..n]), Run(r', ShiftAll(ds[..n], c)), c, ds[n]);
    }
  }

  /** From a new buffer, if the first frame has a session at all. */
  lemma TranslationInvariance(ds: seq<Datagram>, c: u32)
    requires ds != [] && ds[0].frame.session != 0
    ensures var x, y := Run(FreshRing(), ds), Run(FreshRing(), ShiftAll(ds, c));
      && y.outs == ShiftOutputs(x.outs, c)
      && y.healthy == x.healthy
      && Rotated(x.ring, y.ring, c)
  {
    EnterFirst(FreshRing(), ds);
    EnterFirst(FreshRing(), ShiftAll(ds, c));
    RunShift(Enter(FreshRing(), ds[0].frame), Enter(FreshRing(), ShiftFrame(ds[0].frame, c)), c, ds);
  }

  // ----- Exactly when

  ghost predicate Invariant(ds: seq<Datagram>, c: u32) {
    Run(FreshRing(), ShiftAll(ds, c)).outs == ShiftOutputs(Run(FreshRing(), ds).outs, c)
  }

  /** A new buffer has session 0 and expects number 0, so a frame of session 0 is judged by its
      absolute number: it reports a gap or not. */
  predicate FarFromZero(seqno: u32) {
    MAX_BUFFERS <= seqno <= THRESHOLD
  }

  lemma SessionZeroIsAbsolute(f: Frame, p: Payload)
    requires f.session == 0
    ensures var outs := Run(FreshRing(), [Datagram(f, p)]).outs;
      if FarFromZero(f.seqno) then outs != [] && outs[0].GapWarning? else forall o :: o in outs ==> o.Callback?
  {
    var r := FreshRing();
    assert [Datagram(f, p)][..0] == [];
    assert Distance(f.seqno, 0) == f.seqno;
    var u := Update(r, f, p);
    OnlyCallbacks(u.ring);
    if FarFromZero(f.seqno) {
      assert u == Recover(r, f, p) && u.warnings[0].GapWarning?;
    } else {
      assert u.warnings == [];
    }
  }

  /** The constant that takes a number from one side of FarFromZero to the other. */
  function Across(seqno: u32): (c: u32)
    ensures FarFromZero(Plus(seqno, c)) <==> !FarFromZero(seqno)
  {
    var target := if FarFromZero(seqno) then 0 else MAX_BUFFERS;
    assert Plus(seqno, Plus(target, TWO_32 - seqno)) == target;
    Plus(target, TWO_32 - seqno)
  }

  lemma SessionZeroShows(f: Frame, p: Payload)
    requires f.session == 0
    ensures !Invariant([Datagram(f, p)], Across(f.seqno))
  {
    var ds, c := [Datagram(f, p)], Across(f.seqno);
    assert ShiftAll(ds, c) == [Datagram(ShiftFrame(f, c), p)];
    SessionZeroIsAbsolute(f, p);
    SessionZeroIsAbsolute(ShiftFrame(f, c), p);
    KindsDiffer(Run(FreshRing(), ds).outs, Run(FreshRing(), ShiftAll(ds, c)).outs, c, FarFromZero(f.seqno));
  }

  lemma KindsDiffer(a: seq<Output>, b: seq<Output>, c: u32, far: bool)
    requires if far then a != [] && a[0].GapWarning? else forall o :: o in a ==> o.Callback?
    requires if far then forall o :: o in b ==> o.Callback? else b != [] && b[0].GapWarning?
    ensures b != ShiftOutputs(a, c)
  {
    assert a != [] ==> a[0] in a && ShiftOutputs(a, c)[0] == ShiftOutput(a[0], c);
    assert b != [] ==> b[0] in b;
  }

  /** Whatever comes first, shifting is unobservable in all continuations and by all constants
      exactly if the first frame has a non-zero session. */
  lemma InvarianceExactly(f: Frame, p: Payload)
    ensures f.session != 0 <==> forall rest: seq<Datagram>, c: u32 :: Invariant([Datagram(f, p)] + rest, c)
  {
    if f.session != 0 {
      forall rest: seq<Datagram>, c: u32 ensures Invariant([Datagram(f, p)] + rest, c) {
        TranslationInvariance([Datagram(f, p)] + rest, c);
      }
    } else {
      SessionZeroShows(f, p);
      assert [Datagram(f, p)] + [] == [Datagram(f, p)];
    }
  }
}
