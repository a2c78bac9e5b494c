/** The reassembly buffer as a value: sixteen slots, the expected sequence number and the
    session. These functions are what the methods of class Buffer are proved to compute. */
module Ring {
  import opened Wire
  import opened Serial

  type Size = n: nat | n <= MAX_BUFFER witness 0

  /** One slot. The payload keeps its old bytes when the slot is reset. */
  datatype Slot = Slot(
    ready: bool, count: nat, available: set<u8>, payload: Bytes, size: Size, meta: Meta)

  type Slots = s: seq<Slot> | |s| == MAX_BUFFERS
    witness seq(MAX_BUFFERS, _ => EmptySlot())

  datatype Ring = Ring(session: u16, next: u32, slots: Slots) {
    function At(seqno: u32): Slot {
      slots[seqno % MAX_BUFFERS]
    }

    function With(seqno: u32, slot: Slot): Ring {
      this.(slots := slots[seqno % MAX_BUFFERS := slot])
    }
  }

  function EmptySlot(): Slot {
    Slot(false, 0, {}, seq(MAX_BUFFER, _ => 0), 0, Meta(0, 0, 0, 0, false))
  }

  /** A newly constructed buffer. */
  function FreshRing(): Ring {
    Ring(0, 0, seq(MAX_BUFFERS, _ => EmptySlot()))
  }

  /** A slot holds nothing; its payload and header may be stale. */
  predicate Vacant(s: Slot) {
    !s.ready && s.count == 0 && s.available == {} && s.size == 0
  }

  function ResetSlot(s: Slot): Slot {
    s.(ready := false, count := 0, available := {}, size := 0)
  }

  function ResetAll(slots: Slots): Slots {
    seq(MAX_BUFFERS, k requires 0 <= k < MAX_BUFFERS => ResetSlot(slots[k]))
  }

  /** Bytes from with p copied over them at offset at. */
  function Splice(bytes: Bytes, at: nat, p: Payload): Bytes
    requires at + |p| <= MAX_BUFFER
  {
    bytes[..at] + p + bytes[at + |p|..]
  }

  /** Does this fragment complete the message in the slot? */
  predicate Completes(s: Slot, f: Frame) {
    f.fragment !in s.available && s.count == f.fragmentMax
  }

  /** Add one fragment to a slot. A fragment the slot already has is ignored. */
  function Store(s: Slot, f: Frame, p: Payload): Slot {
    OffsetFits(f.fragment);
    if f.fragment in s.available then s
    else
      var done := Completes(s, f);
      Slot(
        s.ready || done,
        s.count + 1,
        s.available + {f.fragment},
        Splice(s.payload, Offset(f.fragment), p),
        if f.fragment == f.fragmentMax then Offset(f.fragment) + |p| else s.size,
        if done then f.meta else s.meta)
  }

  /** The asserts met while storing a fragment. */
  predicate StoreAsserts(s: Slot, f: Frame) {
    f.fragment in s.available ||
    (!s.ready && (Completes(s, f) ==> |s.available + {f.fragment}| == s.count + 1))
  }

  /** READY and DISPATCH make the caller drain; BUFFERING does not. */
  datatype Status = Buffering | Dispatch | Ready

  /** healthy: every assert on the path held and the "buffer is full" abort was not reached. */
  datatype Updated = Updated(ring: Ring, status: Status, warnings: seq<Output>, healthy: bool)

  /** A frame of another session moves the window to that frame. Slots are left as they are. */
  function Enter(r: Ring, f: Frame): Ring {
    if r.session != f.session then r.(session := f.session, next := f.seqno) else r
  }

  /** Store a frame whose distance is below the ring size. */
  function Process(r: Ring, f: Frame, p: Payload): Ring {
    r.With(f.seqno, Store(r.At(f.seqno), f, p))
  }

  function StatusOf(r: Ring, f: Frame): Status {
    if f.seqno == r.next && Completes(r.At(f.seqno), f) then Ready else Buffering
  }

  /** The least k such that the window offsets k, ..., n - 1 are all ready. */
  function SuffixStart(r: Ring, n: nat): (k: nat)
    ensures k <= n
  {
    if n > 0 && r.At(Plus(r.next, n - 1)).ready then SuffixStart(r, n - 1) else n
  }

  /** Offset in the window of the slot with the given number. */
  function OffsetOfSlot(next: u32, slot: nat): nat
    requires slot < MAX_BUFFERS
  {
    (slot - next) % MAX_BUFFERS
  }

  /** Reset the slots of the window offsets from lo up to hi. */
  function ResetWindow(r: Ring, lo: nat, hi: nat): Slots {
    seq(MAX_BUFFERS, k requires 0 <= k < MAX_BUFFERS =>
      if lo <= OffsetOfSlot(r.next, k) < hi then ResetSlot(r.slots[k]) else r.slots[k])
  }

  lemma ResetWindowEmpty(r: Ring, lo: nat, hi: nat)
    requires hi <= lo
    ensures r.(slots := ResetWindow(r, lo, hi)) == r
  {
  }

  /** One step of the reverse scan extends the reset part of the window downwards. */
  lemma ResetWindowStep(r: Ring, lo: nat, hi: nat)
    requires lo < hi <= MAX_BUFFERS
    ensures var seqno := Plus(r.next, lo);
      && r.(slots := ResetWindow(r, lo + 1, hi)).At(seqno) == r.At(seqno)
      && r.(slots := ResetWindow(r, lo, hi)) ==
         r.(slots := ResetWindow(r, lo + 1, hi)).With(seqno, ResetSlot(r.At(seqno)))
  {
    var seqno := Plus(r.next, lo);
    forall k: nat | k < MAX_BUFFERS
      ensures OffsetOfSlot(r.next, k) == lo <==> k == seqno % MAX_BUFFERS
    {
      OffsetInverse(r.next, k, lo);
    }
  }

  lemma OffsetInverse(next: u32, k: nat, lo: nat)
    requires k < MAX_BUFFERS && lo < MAX_BUFFERS
    ensures OffsetOfSlot(next, k) == lo <==> k == Plus(next, lo) % MAX_BUFFERS
  {
    assert Plus(next, lo) % 16 == (next + lo) % 16;
  }

  /** How far the reverse scan of r has come: the window offsets from n on have been looked at.
      ok: all of them are ready, so they start at n; otherwise start is where the ready suffix
      starts and everything looked at before it has been reset. */
  ghost predicate Scanned(r: Ring, now: Ring, n: nat, start: u32, ok: bool) {
    var k := SuffixStart(r, MAX_BUFFERS);
    && now == r.(slots := ResetWindow(r, n, k))
    && ok == (k <= n)
    && (ok ==> k == SuffixStart(r, n))
    && start == Plus(r.next, if ok then n else k)
  }

  lemma ScanBegins(r: Ring)
    ensures Scanned(r, r, MAX_BUFFERS, Plus(r.next, MAX_BUFFERS), true)
  {
    ResetWindowEmpty(r, MAX_BUFFERS, SuffixStart(r, MAX_BUFFERS));
  }

  lemma ScanKeeps(r: Ring, now: Ring, n: nat, start: u32)
    requires Scanned(r, now, n, start, true) && 0 < n <= MAX_BUFFERS
    requires now.At(Plus(r.next, n - 1)).ready
    ensures Scanned(r, now, n - 1, Plus(r.next, n - 1), true)
  {
    var k := SuffixStart(r, MAX_BUFFERS);
    ResetWindowEmpty(r, n, k);
    ResetWindowEmpty(r, n - 1, k);
  }

  lemma ScanDrops(r: Ring, now: Ring, n: nat, start: u32, ok: bool)
    requires Scanned(r, now, n, start, ok) && 0 < n <= MAX_BUFFERS
    requires !(ok && now.At(Plus(r.next, n - 1)).ready)
    ensures var seqno := Plus(r.next, n - 1);
      Scanned(r, now.With(seqno, ResetSlot(now.At(seqno))), n - 1, start, false)
  {
    var k := SuffixStart(r, MAX_BUFFERS);
    if ok {
      ResetWindowEmpty(r, n, k);
    }
    ResetWindowStep(r, n - 1, k);
  }

  lemma ScanEnds(r: Ring, now: Ring, start: u32, ok: bool)
    requires Scanned(r, now, 0, start, ok)
    ensures var k := SuffixStart(r, MAX_BUFFERS);
      start == Plus(r.next, k) && ok == (k == 0) && now == r.(slots := ResetWindow(r, 0, k))
  {
  }

  /** Skip to the good suffix of the window. */
  function SkipTo(r: Ring, k: nat): Ring {
    r.(next := Plus(r.next, k), slots := ResetWindow(r, 0, k))
  }

  /** A frame sixteen or more ahead does not fit. Exactly sixteen: skip to the good suffix.
      More: drop the window and restart it at the frame. Then store the frame. */
  function Recover(r: Ring, f: Frame, p: Payload): Updated {
    if Distance(f.seqno, r.next) == MAX_BUFFERS then
      var k := SuffixStart(r, MAX_BUFFERS);
      var r' := SkipTo(r, k);
      var warning := GapWarning(r.next, r'.next);
      if k == 0 then Updated(r', Ready, [warning], false)
      else Updated(Process(r', f, p), Ready, [warning], StoreAsserts(r'.At(f.seqno), f))
    else
      var r' := r.(next := f.seqno, slots := ResetAll(r.slots));
      Updated(Process(r', f, p), StatusOf(r', f), [GapWarning(r.next, f.seqno)],
              StoreAsserts(r'.At(f.seqno), f))
  }

  function Update(ring: Ring, f: Frame, p: Payload): (u: Updated)
    ensures forall o :: o in u.warnings ==> o.GapWarning?
  {
    var r := Enter(ring, f);
    if IsReplay(f.seqno, r.next) then
      Updated(r, Buffering, [], true)
    else if f.seqno == r.next && f.fragmentMax == 0 then
      Updated(r.(next := Plus(r.next, 1)), Dispatch, [], Vacant(r.At(r.next)))
    else if Distance(f.seqno, r.next) < MAX_BUFFERS then
      Updated(Process(r, f, p), StatusOf(r, f), [], StoreAsserts(r.At(f.seqno), f))
    else
      Recover(r, f, p)
  }

  /** The numbers of the slots that hold a complete message. */
  function ReadySlots(slots: Slots): set<nat> {
    set k: nat | k < MAX_BUFFERS && slots[k].ready
  }

  datatype Drained = Drained(ring: Ring, outs: seq<Output>)

  /** Take the message out of the slot of the expected sequence number. */
  function Pop(r: Ring): Ring {
    r.With(r.next, ResetSlot(r.At(r.next))).(next := Plus(r.next, 1))
  }

  lemma PopShrinks(r: Ring)
    requires r.At(r.next).ready
    ensures ReadySlots(Pop(r).slots) < ReadySlots(r.slots)
  {
    assert r.next % MAX_BUFFERS in ReadySlots(r.slots);
    assert r.next % MAX_BUFFERS !in ReadySlots(Pop(r).slots);
  }

  /** The message a ready slot delivers. */
  function NextDelivery(r: Ring): Output {
    var s := r.At(r.next);
    Callback(Header(r.session, r.next, s.meta), s.payload[..s.size])
  }

  /** Deliver complete messages in order until the expected one is not complete. */
  function Drain(r: Ring): Drained
    decreases ReadySlots(r.slots)
  {
    if !r.At(r.next).ready then Drained(r, [])
    else
      PopShrinks(r);
      var rest := Drain(Pop(r));
      Drained(rest.ring, [NextDelivery(r)] + rest.outs)
  }

  lemma DrainStep(r: Ring)
    requires r.At(r.next).ready
    ensures var rest := Drain(Pop(r)); Drain(r) == Drained(rest.ring, [NextDelivery(r)] + rest.outs)
  {
    PopShrinks(r);
  }

  /** What is left to deliver after one more message has been. */
  lemma DrainProgress(total: Drained, outs: seq<Output>, r: Ring)
    requires r.At(r.next).ready
    requires total == Drained(Drain(r).ring, outs + Drain(r).outs)
    ensures total == Drained(Drain(Pop(r)).ring, outs + [NextDelivery(r)] + Drain(Pop(r)).outs)
    ensures ReadySlots(Pop(r).slots) < ReadySlots(r.slots)
  {
    PopShrinks(r);
    DrainStep(r);
    assert outs + ([NextDelivery(r)] + Drain(Pop(r)).outs) == outs + [NextDelivery(r)] + Drain(Pop(r)).outs;
  }

  lemma {:induction false} OnlyCallbacks(r: Ring)
    ensures forall o :: o in Drain(r).outs ==> o.Callback?
    decreases ReadySlots(r.slots)
  {
    if r.At(r.next).ready {
      PopShrinks(r);
      OnlyCallbacks(Pop(r));
    }
  }

  datatype Received = Received(ring: Ring, outs: seq<Output>, healthy: bool)

  /** What operator() does with the status: dispatch the frame itself, drain, or nothing. */
  function Finish(u: Updated, f: Frame, p: Payload): Received {
    var direct := if u.status.Dispatch? then [Callback(Header(f.session, f.seqno, f.meta), p)] else [];
    var d := if u.status.Buffering? then Drained(u.ring, []) else Drain(u.ring);
    Received(d.ring, u.warnings + direct + d.outs, u.healthy)
  }

  /** One datagram through operator(). */
  function Receive(r: Ring, f: Frame, p: Payload): Received {
    Finish(Update(r, f, p), f, p)
  }

  /** One more datagram after what has happened so far. */
  function Then(before: Received, d: Datagram): Received {
    var now := Receive(before.ring, d.frame, d.payload);
    Received(now.ring, before.outs + now.outs, before.healthy && now.healthy)
  }

  /** A run over datagrams in order of arrival. */
  function Run(r: Ring, ds: seq<Datagram>): Received {
    if ds == [] then Received(r, [], true) else Then(Run(r, ds[..|ds| - 1]), ds[|ds| - 1])
  }

  function CallbackCount(outs: seq<Output>): nat {
    if outs == [] then 0 else (if outs[0].Callback? then 1 else 0) + CallbackCount(outs[1..])
  }
}
