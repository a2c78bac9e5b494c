/** The reassembly buffer as the program has it: an object whose slots are objects updated in
    place. Every method is proved to compute the function of module Ring of the same name. */
module Buffer {
  import opened Wire
  import opened Serial
  import Ring

  /** One slot. The payload vector is allocated once and never cleared. */
  class Item {
    var ready: bool
    var count: nat
    var available: set<u8>
    const payload: array<u8>
    var size: Ring.Size
    var lastSeqno: u32
    var objectType: u8
    var objectId: u16
    var encoding: u8
    var snapshot: bool

    predicate Valid() {
      payload.Length == MAX_BUFFER
    }

    ghost function View(): Ring.Slot
      requires Valid()
      reads this, payload
    {
      Ring.Slot(ready, count, available, payload[..], size,
                Meta(lastSeqno, objectType, objectId, encoding, snapshot))
    }

    constructor ()
      ensures Valid() && fresh(payload)
      ensures View() == Ring.EmptySlot()
    {
      ready, count, available, size := false, 0, {}, 0;
      payload := new u8[MAX_BUFFER](_ => 0);
      lastSeqno, objectType, objectId, encoding, snapshot := 0, 0, 0, 0, false;
    }

    /** Forgets the fragments, but neither the bytes nor the header. */
    method Reset()
      requires Valid()
      modifies this
      ensures View() == Ring.ResetSlot(old(View()))
    {
      ready := false;
      count := 0;
      available := {};
      size := 0;
    }

    /** std::copy of a fragment into the flat buffer. */
    method Copy(offset: nat, p: Payload)
      requires Valid() && offset + |p| <= MAX_BUFFER
      modifies payload
      ensures payload[..] == Ring.Splice(old(payload[..]), offset, p)
    {
      forall k | 0 <= k < |p| {
        payload[offset + k] := p[k];
      }
    }

    /** The last missing fragment makes the slot ready and gives it the header. */
    method Complete(f: Frame)
      requires Valid()
      modifies this
      ensures View() == old(View()).(ready := true, meta := f.meta)
    {
      ready := true;
      lastSeqno := f.meta.lastSeqno;
      objectType := f.meta.objectType;
      objectId := f.meta.objectId;
      encoding := f.meta.encoding;
      snapshot := f.meta.snapshot;
    }

    /** The closure handed to get_buffer: store one fragment. completed says whether this
        fragment made the slot ready, asserted whether the asserts on the path held. */
    method Store(f: Frame, p: Payload) returns (completed: bool, asserted: bool)
      requires Valid()
      modifies this, payload
      ensures View() == Ring.Store(old(View()), f, p)
      ensures completed == Ring.Completes(old(View()), f)
      ensures asserted == Ring.StoreAsserts(old(View()), f)
    {
      completed, asserted := false, true;
      if f.fragment !in available {
        available := available + {f.fragment};
        OffsetFits(f.fragment);
        var offset := Offset(f.fragment);
        Copy(offset, p);
        if f.fragment == f.fragmentMax {
          size := offset + |p|;
        }
        count := count + 1;
        asserted := !ready;
        if count == f.fragmentMax + 1 {
          completed := true;
          asserted := asserted && |available| == count;
          Complete(f);
        }
      }
    }
  }

  class Buffer {
    var sessionId: u16
    var nextSeqno: u32
    const assembly: seq<Item>

    /** The sixteen slots and their byte vectors are all different objects. */
    predicate Valid() {
      && |assembly| == MAX_BUFFERS
      && (forall k :: 0 <= k < |assembly| ==> assembly[k].Valid())
      && (forall j, k :: 0 <= j < k < |assembly| ==>
            assembly[j] != assembly[k] && assembly[j].payload != assembly[k].payload)
    }

    ghost function Repr(): set<object> {
      {this} + Objects(assembly)
    }

    static ghost function Objects(items: seq<Item>): set<object> {
      (set k | 0 <= k < |items| :: items[k] as object) + (set k | 0 <= k < |items| :: items[k].payload as object)
    }

    ghost function SlotViews(): (r: Ring.Slots)
      requires Valid()
      reads Repr()
      ensures forall k :: 0 <= k < MAX_BUFFERS ==> r[k] == assembly[k].View()
    {
      seq(MAX_BUFFERS, k requires 0 <= k < MAX_BUFFERS reads Repr() => assembly[k].View())
    }

    ghost function View(): Ring.Ring
      requires Valid()
      reads Repr()
    {
      Ring.Ring(sessionId, nextSeqno, SlotViews())
    }

    constructor ()
      ensures Valid() && fresh(Repr())
      ensures View() == Ring.FreshRing()
    {
      sessionId, nextSeqno := 0, 0;
      var items: seq<Item> := [];
      while |items| < MAX_BUFFERS
        invariant |items| <= MAX_BUFFERS
        invariant fresh(Objects(items))
        invariant forall k :: 0 <= k < |items| ==> items[k].Valid() && items[k].View() == Ring.EmptySlot()
        invariant forall j, k :: 0 <= j < k < |items| ==>
          items[j] != items[k] && items[j].payload != items[k].payload
      {
        var item := new Item();
        forall o | o in Objects(items + [item]) ensures fresh(o) {
          assert o in Objects(items) || o == item || o == item.payload;
        }
        items := items + [item];
      }
      assembly := items;
    }

    /** get_item; its assert is the second precondition. */
    function ItemAt(seqno: u32): Item
      requires Valid()
      requires Distance(seqno, nextSeqno) < MAX_BUFFERS
      reads this`nextSeqno
    {
      assembly[seqno % MAX_BUFFERS]
    }

    /** asserted: the slot passed over was vacant. */
    method Advance() returns (asserted: bool)
      requires Valid()
      modifies this`nextSeqno
      ensures View() == old(View()).(next := Plus(old(nextSeqno), 1))
      ensures asserted == Ring.Vacant(old(View().At(nextSeqno)))
    {
      var item := ItemAt(nextSeqno);
      asserted := !item.ready && item.count == 0 && |item.available| == 0 && item.size == 0;
      nextSeqno := (nextSeqno + 1) % TWO_32;
    }

    method Reset()
      requires Valid()
      modifies Repr()
      ensures View() == old(View()).(slots := Ring.ResetAll(old(View().slots)))
    {
      for k := 0 to MAX_BUFFERS
        invariant sessionId == old(sessionId) && nextSeqno == old(nextSeqno)
        invariant forall j :: 0 <= j < MAX_BUFFERS ==>
          assembly[j].View() == if j < k then Ring.ResetSlot(old(assembly[j].View())) else old(assembly[j].View())
      {
        assembly[k].Reset();
      }
    }

    method ResetItem(seqno: u32)
      requires Valid()
      requires Distance(seqno, nextSeqno) < MAX_BUFFERS
      modifies ItemAt(seqno)
      ensures View() == old(View()).With(seqno, Ring.ResetSlot(old(View()).At(seqno)))
    {
      ItemAt(seqno).Reset();
    }

    /** get_buffer with the storing closure; found is its result. */
    method Process(f: Frame, p: Payload) returns (found: bool, completed: bool, asserted: bool)
      requires Valid()
      modifies Repr()
      ensures found == (Distance(f.seqno, old(nextSeqno)) < MAX_BUFFERS)
      ensures !found ==> View() == old(View()) && !completed && asserted
      ensures found ==>
        && View() == Ring.Process(old(View()), f, p)
        && completed == Ring.Completes(old(View()).At(f.seqno), f)
        && asserted == Ring.StoreAsserts(old(View()).At(f.seqno), f)
    {
      found, completed, asserted := Distance(f.seqno, nextSeqno) < MAX_BUFFERS, false, true;
      if found {
        completed, asserted := ItemAt(f.seqno).Store(f, p);
      }
    }

    /** One turn of the reverse scan of r, at the slot just below the window offset n. */
    method ScanOne(seqno: u32, start: u32, ok: bool, ghost r: Ring.Ring, ghost n: nat) returns (start': u32, ok': bool)
      requires Valid()
      requires 0 < n <= MAX_BUFFERS && seqno == Plus(r.next, n - 1)
      requires Ring.Scanned(r, View(), n, start, ok)
      modifies Repr()
      ensures Ring.Scanned(r, View(), n - 1, start', ok')
      ensures nextSeqno == old(nextSeqno)
    {
      ghost var now := View();
      DistanceOfNext(r.next, n - 1);
      if ok && ItemAt(seqno).ready {
        Ring.ScanKeeps(r, now, n, start);
        start', ok' := seqno, true;
      } else {
        Ring.ScanDrops(r, now, n, start, ok);
        start', ok' := start, false;
        ResetItem(seqno);
      }
    }

    /** The reverse scan after an overflow of exactly one: the sequence number at which the
        complete suffix of the window starts. Everything before it is reset. */
    method KeepSuffix(seqno: u32) returns (start: u32, ok: bool)
      requires Valid()
      requires Distance(seqno, nextSeqno) == MAX_BUFFERS
      modifies Repr()
      ensures var k := Ring.SuffixStart(old(View()), MAX_BUFFERS);
        && start == Plus(nextSeqno, k)
        && ok == (k == 0)
        && View() == old(View()).(slots := Ring.ResetWindow(old(View()), 0, k))
    {
      start, ok := seqno, true;
      ghost var r := View();
      Ring.ScanBegins(r);
      DistanceInverse(seqno, nextSeqno);
      for offset := 0 to MAX_BUFFERS
        invariant nextSeqno == r.next
        invariant Ring.Scanned(r, View(), MAX_BUFFERS - offset, start, ok)
      {
        start, ok := ScanOne(Plus(nextSeqno, MAX_BUFFERS - offset - 1), start, ok, r, MAX_BUFFERS - offset);
      }
      Ring.ScanEnds(r, View(), start, ok);
    }

    /** The branch of update for a frame that does not fit the window. */
    method Recover(f: Frame, p: Payload) returns (status: Ring.Status, warnings: seq<Output>, healthy: bool)
      requires Valid()
      requires Distance(f.seqno, nextSeqno) >= MAX_BUFFERS
      modifies Repr()
      ensures Ring.Updated(View(), status, warnings, healthy) == Ring.Recover(old(View()), f, p)
    {
      if Distance(f.seqno, nextSeqno) == MAX_BUFFERS {
        status, warnings, healthy := RecoverSuffix(f, p);
      } else {
        status, warnings, healthy := Restart(f, p);
      }
    }

    method RecoverSuffix(f: Frame, p: Payload) returns (status: Ring.Status, warnings: seq<Output>, healthy: bool)
      requires Valid()
      requires Distance(f.seqno, nextSeqno) == MAX_BUFFERS
      modifies Repr()
      ensures Ring.Updated(View(), status, warnings, healthy) == Ring.Recover(old(View()), f, p)
    {
      ghost var k := Ring.SuffixStart(View(), MAX_BUFFERS);
      DistanceAfterSkip(f.seqno, nextSeqno, k);
      var start, ok := KeepSuffix(f.seqno);
      warnings := [GapWarning(nextSeqno, start)];
      nextSeqno := start;
      status := Ring.Ready;
      assert View() == Ring.SkipTo(old(View()), k);
      var found, completed, asserted := Process(f, p);
      healthy := !ok && asserted && found;
    }

    method Restart(f: Frame, p: Payload) returns (status: Ring.Status, warnings: seq<Output>, healthy: bool)
      requires Valid()
      requires Distance(f.seqno, nextSeqno) > MAX_BUFFERS
      modifies Repr()
      ensures Ring.Updated(View(), status, warnings, healthy) == Ring.Recover(old(View()), f, p)
    {
      Reset();
      warnings := [GapWarning(nextSeqno, f.seqno)];
      nextSeqno := f.seqno;
      assert View() == old(View()).(next := f.seqno, slots := Ring.ResetAll(old(View().slots)));
      var found, completed, asserted := Process(f, p);
      healthy := asserted && found;
      status := if completed then Ring.Ready else Ring.Buffering;
    }

    /** The asserts of the debug build and the log of gaps are returned, not raised. */
    method Update(f: Frame, p: Payload) returns (status: Ring.Status, warnings: seq<Output>, healthy: bool)
      requires Valid()
      modifies Repr()
      ensures Ring.Updated(View(), status, warnings, healthy) == Ring.Update(old(View()), f, p)
    {
      warnings, healthy := [], true;
      var seqno := f.seqno;
      if sessionId != f.session {
        sessionId := f.session;
        nextSeqno := seqno;
      }
      if IsReplay(seqno, nextSeqno) {
        return Ring.Buffering, warnings, healthy;
      }
      if seqno == nextSeqno && f.fragmentMax == 0 {
        healthy := Advance();
        return Ring.Dispatch, warnings, healthy;
      }
      status := Ring.Buffering;
      var found, completed, asserted := Process(f, p);
      healthy := asserted;
      if completed && seqno == nextSeqno {
        status := Ring.Ready;
      }
      if !found {
        status, warnings, healthy := Recover(f, p);
      }
    }

    /** operator(): the callback is an append to outs. result: was there any callback? */
    method Receive(f: Frame, p: Payload) returns (result: bool, outs: seq<Output>, healthy: bool)
      requires Valid()
      modifies Repr()
      ensures Ring.Received(View(), outs, healthy) == Ring.Receive(old(View()), f, p)
      ensures result == exists o :: o in outs && o.Callback?
    {
      var status, warnings;
      status, warnings, healthy := Update(f, p);
      result, outs := Finish(status, warnings, f, p, healthy);
    }

    /** The switch over the status. */
    method Finish(status: Ring.Status, warnings: seq<Output>, f: Frame, p: Payload, ghost healthy: bool)
        returns (result: bool, outs: seq<Output>)
      requires Valid()
      requires forall o :: o in warnings ==> o.GapWarning?
      modifies Repr()
      ensures Ring.Received(View(), outs, healthy) ==
              Ring.Finish(Ring.Updated(old(View()), status, warnings, healthy), f, p)
      ensures result == exists o :: o in outs && o.Callback?
    {
      result, outs := false, warnings;
      if status == Ring.Dispatch {
        result := true;
        outs := outs + [Callback(Header(f.session, f.seqno, f.meta), p)];
        assert outs[|outs| - 1].Callback?;
      }
      if status != Ring.Buffering {
        Ring.OnlyCallbacks(View());
        var delivered, drained := DrainAll();
        assert drained != [] ==> drained[0] in outs + drained;
        result := result || delivered;
        outs := outs + drained;
      }
    }

    /** The drain loop, shared by the fall-through from DISPATCH and by READY. */
    method DrainAll() returns (result: bool, outs: seq<Output>)
      requires Valid()
      modifies Repr()
      ensures Ring.Drained(View(), outs) == Ring.Drain(old(View()))
      ensures result == (outs != [])
    {
      result, outs := false, [];
      ghost var r := View();
      ghost var total := Ring.Drain(r);
      while true
        invariant r == View()
        invariant total == Ring.Drained(Ring.Drain(r).ring, outs + Ring.Drain(r).outs)
        invariant result == (outs != [])
        decreases Ring.ReadySlots(r.slots)
      {
        if !ItemAt(nextSeqno).ready {
          break;
        }
        Ring.DrainProgress(total, outs, r);
        var out := Deliver();
        r := Ring.Pop(r);
        result, outs := true, outs + [out];
      }
    }

    /** The body of the drain loop: the asserts of advance() hold because the slot was reset. */
    method Deliver() returns (out: Output)
      requires Valid()
      modifies Repr()
      ensures View() == Ring.Pop(old(View()))
      ensures out == Ring.NextDelivery(old(View()))
    {
      var item := ItemAt(nextSeqno);
      var meta := Meta(item.lastSeqno, item.objectType, item.objectId, item.encoding, item.snapshot);
      out := Callback(Header(sessionId, nextSeqno, meta), item.payload[..item.size]);
      assert item.View() == View().At(nextSeqno);
      ResetItem(nextSeqno);
      var asserted := Advance();
      assert asserted;
    }
  }
}
