/** What the specification guarantees over whole runs: conservation and order, equality with
    batch reassembly, independence of the order of arrival, and recovery from gaps. */
module Delivery {
  import opened Wire
  import opened Stream

  function Deliveries(s: int, e: int): seq<Event>
    requires s <= e
  {
    seq(e - s, k => Deliver(s + k))
  }

  lemma SameFragments(sender: Sender, w: Window, w': Window, i: int)
    requires Fragments(w, i) == Fragments(w', i)
    ensures Complete(sender, w, i) == Complete(sender, w', i)
  {
  }

  /** Draining delivers exactly the complete prefix of the window. */
  lemma {:induction false} DrainDelivers(sender: Sender, w: Window)
    ensures var d := Drain(sender, w);
      && w.next <= d.window.next
      && (forall i :: w.next <= i < d.window.next ==> Complete(sender, w, i))
      && !Complete(sender, w, d.window.next)
      && d.events == Deliveries(w.next, d.window.next)
    decreases |w.got|
  {
    if Complete(sender, w, w.next) {
      var w' := MoveTo(w, w.next + 1);
      CompleteIsThere(sender, w, w.next);
      DrainDelivers(sender, w');
      DrainStep(sender, w);
      var end := Drain(sender, w').window.next;
      forall i | w.next < i <= end ensures Complete(sender, w', i) == Complete(sender, w, i) {
        SameFragments(sender, w', w, i);
      }
      assert [Deliver(w.next)] + Deliveries(w.next + 1, end) == Deliveries(w.next, end);
    }
  }

  /** Draining keeps the rest of the window as it is. */
  lemma {:induction false} DrainKeeps(sender: Sender, w: Window)
    ensures var d := Drain(sender, w);
      && (forall i :: d.window.next <= i ==> Fragments(d.window, i) == Fragments(w, i))
      && (w.next < d.window.next ==> forall i :: i < d.window.next ==> Fragments(d.window, i) == {})
    decreases |w.got|
  {
    if Complete(sender, w, w.next) {
      CompleteIsThere(sender, w, w.next);
      DrainDelivers(sender, MoveTo(w, w.next + 1));
      DrainKeeps(sender, MoveTo(w, w.next + 1));
    }
  }

  // ----- Conservation and order

  function From(e: Event): int {
    match e case Deliver(i) => i case Gap(a, _) => a
  }

  function UpTo(e: Event): int {
    match e case Deliver(i) => i + 1 case Gap(_, b) => b
  }

  predicate Covers(e: Event, i: int) {
    From(e) <= i < UpTo(e)
  }

  /** The events follow one another without overlap and without hole, from s up to e. */
  predicate Tiles(events: seq<Event>, s: int, e: int) {
    if events == [] then s == e
    else From(events[0]) == s < UpTo(events[0]) && Tiles(events[1..], UpTo(events[0]), e)
  }

  lemma {:induction false} TilesAppend(a: seq<Event>, b: seq<Event>, s: int, m: int, e: int)
    requires Tiles(a, s, m) && Tiles(b, m, e)
    ensures Tiles(a + b, s, e)
  {
    if a == [] {
      assert a + b == b;
    } else {
      TilesAppend(a[1..], b, UpTo(a[0]), m, e);
      assert (a + b)[1..] == a[1..] + b;
    }
  }

  lemma {:induction false} DeliveriesTile(s: int, e: int)
    requires s <= e
    ensures Tiles(Deliveries(s, e), s, e)
    decreases e - s
  {
    if s == e {
    } else {
      DeliveriesTile(s + 1, e);
      assert Deliveries(s, e)[1..] == Deliveries(s + 1, e);
    }
  }

  lemma {:induction false} TilesInOrder(events: seq<Event>, s: int, e: int)
    requires Tiles(events, s, e)
    ensures s <= e
    ensures forall k :: 0 <= k < |events| ==> s <= From(events[k]) < UpTo(events[k]) <= e
    ensures forall j, k :: 0 <= j < k < |events| ==> UpTo(events[j]) <= From(events[k])
  {
    if events == [] {
    } else {
      var rest := events[1..];
      TilesInOrder(rest, UpTo(events[0]), e);
      assert forall k :: 1 <= k < |events| ==> events[k] == rest[k - 1];
    }
  }

  lemma {:induction false} TilesCover(events: seq<Event>, s: int, e: int, i: int)
    requires Tiles(events, s, e) && s <= i < e
    ensures exists k :: 0 <= k < |events| && Covers(events[k], i)
  {
    if Covers(events[0], i) {
    } else {
      TilesCover(events[1..], UpTo(events[0]), e, i);
      var k :| 0 <= k < |events[1..]| && Covers(events[1..][k], i);
      assert Covers(events[k + 1], i);
    }
  }

  lemma ReceiveTiles(sender: Sender, w: Window, p: Packet)
    requires Settled(sender, w) && p.Of(sender)
    ensures Tiles(Receive(sender, w, p).events, w.next, Receive(sender, w, p).window.next)
  {
    if w.next <= p.index {
      var m := MakeRoom(sender, w, p.index);
      var w' := Add(MoveTo(w, m), p);
      var d := Drain(sender, w');
      DrainDelivers(sender, w');
      DeliveriesTile(m, d.window.next);
      if m != w.next {
        TilesAppend([Gap(w.next, m)], d.events, w.next, m, d.window.next);
      } else {
        assert [] + d.events == d.events;
      }
    }
  }

  lemma {:induction false} RunTiles(sender: Sender, w: Window, packets: seq<Packet>)
    requires Settled(sender, w) && forall p :: p in packets ==> p.Of(sender)
    ensures Tiles(Run(sender, w, packets).events, w.next, Run(sender, w, packets).window.next)
  {
    if packets == [] {
    } else {
      var n := |packets| - 1;
      var before := Run(sender, w, packets[..n]);
      RunTiles(sender, w, packets[..n]);
      RunSettles(sender, w, packets[..n]);
      ReceiveTiles(sender, before.window, packets[n]);
      TilesAppend(before.events, Receive(sender, before.window, packets[n]).events, w.next,
                  before.window.next, Run(sender, w, packets).window.next);
    }
  }

  predicate Accounted(events: seq<Event>, i: int) {
    exists k :: 0 <= k < |events| && Covers(events[k], i)
  }

  /** Conservation and order, over any run with any losses, duplicates and overtaking: every
      index from the start up to the expected one is in exactly one event, either delivered or
      skipped, no other index is in any, and the events are in increasing order. */
  lemma Conservation(sender: Sender, s: int, packets: seq<Packet>)
    requires forall p :: p in packets ==> p.Of(sender)
    ensures var r := Run(sender, Start(s), packets);
      && s <= r.window.next
      && (forall i :: Accounted(r.events, i) <==> s <= i < r.window.next)
      && (forall j, k :: 0 <= j < k < |r.events| ==> UpTo(r.events[j]) <= From(r.events[k]))
      && (forall i, j, k | 0 <= j < |r.events| && 0 <= k < |r.events| ::
            Covers(r.events[j], i) && Covers(r.events[k], i) ==> j == k)
  {
    var r := Run(sender, Start(s), packets);
    StartIsSettled(sender, s);
    RunTiles(sender, Start(s), packets);
    TilesInOrder(r.events, s, r.window.next);
    forall i ensures Accounted(r.events, i) <==> s <= i < r.window.next {
      if s <= i < r.window.next {
        TilesCover(r.events, s, r.window.next, i);
      }
    }
  }

  // ----- Online equals batch

  predicate Arrived(packets: seq<Packet>, i: int, fragment: nat) {
    Packet(i, fragment) in packets
  }

  /** All fragments of the message are among the packets. */
  predicate CompleteIn(sender: Sender, packets: seq<Packet>, i: int) {
    forall k: nat :: k < |sender(i).chunks| ==> Arrived(packets, i, k)
  }

  /** No packet is sixteen or more ahead of the expected index when it arrives. */
  predicate NoOverflow(sender: Sender, w: Window, packets: seq<Packet>) {
    packets == [] || (
      && NoOverflow(sender, w, packets[..|packets| - 1])
      && packets[|packets| - 1].index < Run(sender, w, packets[..|packets| - 1]).window.next + MAX_BUFFERS)
  }

  /** The window only holds fragments that arrived, and only complete messages are delivered. */
  lemma {:induction false} OnlyReceived(sender: Sender, s: int, packets: seq<Packet>)
    requires forall p :: p in packets ==> p.Of(sender)
    ensures var r := Run(sender, Start(s), packets);
      && (forall i, k :: k in Fragments(r.window, i) ==> Arrived(packets, i, k))
      && (forall i :: Deliver(i) in r.events ==> CompleteIn(sender, packets, i))
  {
    if packets == [] {
    } else {
      var n := |packets| - 1;
      var before := Run(sender, Start(s), packets[..n]);
      OnlyReceived(sender, s, packets[..n]);
      assert forall i, k :: Arrived(packets[..n], i, k) ==> Arrived(packets, i, k);
      var p := packets[n];
      assert Arrived(packets, p.index, p.fragment);
      if before.window.next <= p.index {
        var w := Add(MoveTo(before.window, MakeRoom(sender, before.window, p.index)), p);
        DrainDelivers(sender, w);
        DrainKeeps(sender, w);
        assert forall i, k :: k in Fragments(w, i) ==> Arrived(packets, i, k);
        forall i | Deliver(i) in Drain(sender, w).events ensures CompleteIn(sender, packets, i) {
          assert Complete(sender, w, i);
        }
      }
    }
  }

  /** From the expected index on, the window is the set of packets that arrived. */
  ghost predicate IsHistory(w: Window, packets: seq<Packet>) {
    forall i, k :: w.next <= i ==> (k in Fragments(w, i) <==> Arrived(packets, i, k))
  }

  lemma AddIsHistory(w: Window, packets: seq<Packet>)
    requires packets != [] && IsHistory(w, packets[..|packets| - 1])
    ensures IsHistory(Add(MoveTo(w, w.next), packets[|packets| - 1]), packets)
  {
    var p := packets[|packets| - 1];
    assert forall i, k :: Arrived(packets, i, k) <==> Arrived(packets[..|packets| - 1], i, k) || Packet(i, k) == p;
  }

  lemma DrainIsHistory(sender: Sender, w: Window, packets: seq<Packet>)
    requires IsHistory(w, packets)
    ensures var d := Drain(sender, w);
      IsHistory(d.window, packets) && forall i :: w.next <= i < d.window.next ==> CompleteIn(sender, packets, i)
  {
    DrainDelivers(sender, w);
    DrainKeeps(sender, w);
    var d := Drain(sender, w);
    forall i | w.next <= i < d.window.next ensures CompleteIn(sender, packets, i) {
      assert Complete(sender, w, i);
    }
  }

  lemma MorePackets(sender: Sender, packets: seq<Packet>, i: int)
    requires packets != [] && CompleteIn(sender, packets[..|packets| - 1], i)
    ensures CompleteIn(sender, packets, i)
  {
    forall k: nat | k < |sender(i).chunks| ensures Arrived(packets, i, k) {
      assert Arrived(packets[..|packets| - 1], i, k);
    }
  }

  /** What a run without overflow has reached. */
  ghost predicate Caught(sender: Sender, s: int, packets: seq<Packet>, r: Result) {
    && s <= r.window.next
    && IsHistory(r.window, packets)
    && (forall i :: s <= i < r.window.next ==> CompleteIn(sender, packets, i))
    && r.events == Deliveries(s, r.window.next)
  }

  lemma ReplayKeepsCaught(sender: Sender, s: int, packets: seq<Packet>, before: Result)
    requires packets != [] && Caught(sender, s, packets[..|packets| - 1], before)
    requires packets[|packets| - 1].index < before.window.next
    ensures Caught(sender, s, packets, before)
  {
    forall i | s <= i < before.window.next ensures CompleteIn(sender, packets, i) {
      MorePackets(sender, packets, i);
    }
    AddIsHistory(before.window, packets);
  }

  lemma AddAndDrainCaught(sender: Sender, s: int, packets: seq<Packet>, before: Result)
    requires packets != [] && Caught(sender, s, packets[..|packets| - 1], before)
    requires before.window.next <= packets[|packets| - 1].index
    ensures var d := Drain(sender, Add(MoveTo(before.window, before.window.next), packets[|packets| - 1]));
      Caught(sender, s, packets, Result(d.window, before.events + d.events))
  {
    var w := Add(MoveTo(before.window, before.window.next), packets[|packets| - 1]);
    var d := Drain(sender, w);
    AddIsHistory(before.window, packets);
    DrainDelivers(sender, w);
    DrainIsHistory(sender, w, packets);
    forall i | s <= i < before.window.next ensures CompleteIn(sender, packets, i) {
      MorePackets(sender, packets, i);
    }
    assert Deliveries(s, w.next) + Deliveries(w.next, d.window.next) == Deliveries(s, d.window.next);
  }

  lemma {:induction false} WindowIsHistory(sender: Sender, s: int, packets: seq<Packet>)
    requires NoOverflow(sender, Start(s), packets)
    requires forall p :: p in packets ==> p.Of(sender)
    ensures Caught(sender, s, packets, Run(sender, Start(s), packets))
  {
    if packets == [] {
    } else {
      var n := |packets| - 1;
      var before := Run(sender, Start(s), packets[..n]);
      WindowIsHistory(sender, s, packets[..n]);
      if before.window.next <= packets[n].index {
        AddAndDrainCaught(sender, s, packets, before);
        assert [] + Drain(sender, Add(MoveTo(before.window, before.window.next), packets[n])).events ==
               Drain(sender, Add(MoveTo(before.window, before.window.next), packets[n])).events;
      } else {
        ReplayKeepsCaught(sender, s, packets, before);
        assert before.events + [] == before.events;
      }
    }
  }

  /** Online equals batch: if no packet overflows, the run delivers exactly s, s + 1, ... up to
      the first index of which some fragment never arrived. */
  lemma OnlineIsBatch(sender: Sender, s: int, packets: seq<Packet>)
    requires NoOverflow(sender, Start(s), packets)
    requires forall p :: p in packets ==> p.Of(sender)
    ensures var r := Run(sender, Start(s), packets);
      && s <= r.window.next
      && (forall i :: s <= i < r.window.next ==> CompleteIn(sender, packets, i))
      && !CompleteIn(sender, packets, r.window.next)
      && r.events == Deliveries(s, r.window.next)
  {
    var r := Run(sender, Start(s), packets);
    WindowIsHistory(sender, s, packets);
    StartIsSettled(sender, s);
    RunSettles(sender, Start(s), packets);
    var k: nat :| k < |sender(r.window.next).chunks| && k !in Fragments(r.window, r.window.next);
    assert !Arrived(packets, r.window.next, k);
  }

  /** Two runs that start at the same index and receive the same packets, in any order and with
      any duplicates, end in the same state and deliver the same messages. */
  lemma OrderDoesNotMatter(sender: Sender, s: int, ps: seq<Packet>, qs: seq<Packet>)
    requires NoOverflow(sender, Start(s), ps) && NoOverflow(sender, Start(s), qs)
    requires forall p :: p in ps ==> p.Of(sender)
    requires forall p :: p in ps <==> p in qs
    ensures Run(sender, Start(s), ps) == Run(sender, Start(s), qs)
  {
    var a, b := Run(sender, Start(s), ps), Run(sender, Start(s), qs);
    OnlineIsBatch(sender, s, ps);
    OnlineIsBatch(sender, s, qs);
    assert forall i, k :: Arrived(ps, i, k) <==> Arrived(qs, i, k);
    assert forall i :: CompleteIn(sender, ps, i) <==> CompleteIn(sender, qs, i);
    assert a.window.next == b.window.next;
    WindowIsHistory(sender, s, ps);
    WindowIsHistory(sender, s, qs);
    StartIsSettled(sender, s);
    RunSettles(sender, Start(s), ps);
    RunSettles(sender, Start(s), qs);
    SameFragmentsSameWindow(sender, a.window, b.window);
  }

  lemma SameFragmentsSameWindow(sender: Sender, a: Window, b: Window)
    requires Bounded(sender, a) && Bounded(sender, b)
    requires a.next == b.next
    requires forall i, k :: a.next <= i ==> (k in Fragments(a, i) <==> k in Fragments(b, i))
    ensures a == b
  {
    forall i | i in a.got ensures i in b.got && a.got[i] == b.got[i] {
      var k :| k in a.got[i];
      assert k in Fragments(a, i);
      assert a.got[i] == Fragments(a, i) == Fragments(b, i);
    }
    forall i | i in b.got ensures i in a.got {
      var k :| k in b.got[i];
      assert k in Fragments(b, i);
      assert k in Fragments(a, i);
    }
  }

  predicate Gapless(events: seq<Event>) {
    forall e :: e in events ==> e.Deliver?
  }

  lemma GaplessConcat(a: seq<Event>, b: seq<Event>)
    ensures Gapless(a + b) <==> Gapless(a) && Gapless(b)
  {
    assert forall e :: e in a + b <==> e in a || e in b;
  }

  /** A run has a gap exactly if some packet overflowed. */
  lemma {:induction false} GapIffOverflow(sender: Sender, s: int, packets: seq<Packet>)
    requires forall p :: p in packets ==> p.Of(sender)
    ensures NoOverflow(sender, Start(s), packets) <==>
            Gapless(Run(sender, Start(s), packets).events)
  {
    if packets == [] {
    } else {
      var n := |packets| - 1;
      var p := packets[n];
      var before := Run(sender, Start(s), packets[..n]);
      var now := Receive(sender, before.window, p);
      GapIffOverflow(sender, s, packets[..n]);
      StartIsSettled(sender, s);
      RunSettles(sender, Start(s), packets[..n]);
      GaplessConcat(before.events, now.events);
      if before.window.next <= p.index {
        var m := MakeRoom(sender, before.window, p.index);
        SuffixIsLongest(sender, before.window, before.window.next + MAX_BUFFERS);
        var d := Drain(sender, Add(MoveTo(before.window, m), p));
        DrainDelivers(sender, Add(MoveTo(before.window, m), p));
        if p.index >= before.window.next + MAX_BUFFERS {
          assert Gap(before.window.next, m) in now.events;
        } else {
          assert now.events == d.events;
        }
      }
    }
  }

  // ----- Recovery from gaps

  /** A packet exactly sixteen ahead: the window jumps to the start of the longest complete
      suffix, the message just before it being incomplete, and all of the suffix is delivered.
      The packet's own message is delivered too if it is unfragmented. */
  lemma GapOfOne(sender: Sender, w: Window, p: Packet) returns (m: int)
    requires Settled(sender, w) && p.Of(sender)
    requires p.index == w.next + MAX_BUFFERS
    ensures w.next < m <= p.index
    ensures forall i :: m <= i < p.index ==> Complete(sender, w, i)
    ensures !Complete(sender, w, m - 1)
    ensures var r := Receive(sender, w, p);
      && r.window.next == (if |sender(p.index).chunks| == 1 then p.index + 1 else p.index)
      && r.events == [Gap(w.next, m)] + Deliveries(m, r.window.next)
      && (forall i :: Fragments(r.window, i) ==
            if i == p.index && |sender(p.index).chunks| > 1 then {p.fragment} else {})
  {
    m := SuffixStart(sender, w, p.index);
    SuffixIsLongest(sender, w, p.index);
    OnlyThePacketRemains(sender, w, p, m);
  }

  /** A packet further ahead drops the whole window. */
  lemma GapOfMany(sender: Sender, w: Window, p: Packet)
    requires Settled(sender, w) && p.Of(sender)
    requires p.index > w.next + MAX_BUFFERS
    ensures var r := Receive(sender, w, p);
      && r.window.next == (if |sender(p.index).chunks| == 1 then p.index + 1 else p.index)
      && r.events == [Gap(w.next, p.index)] + Deliveries(p.index, r.window.next)
      && (forall i :: Fragments(r.window, i) ==
            if i == p.index && |sender(p.index).chunks| > 1 then {p.fragment} else {})
  {
    OnlyThePacketRemains(sender, w, p, p.index);
  }

  lemma OnlyThePacketRemains(sender: Sender, w: Window, p: Packet, m: int)
    requires Settled(sender, w) && p.Of(sender)
    requires w.next < m <= p.index && w.next + MAX_BUFFERS <= p.index
    requires forall i :: m <= i < p.index ==> Complete(sender, w, i)
    ensures var d := Drain(sender, Add(MoveTo(w, m), p));
      && d.window.next == (if |sender(p.index).chunks| == 1 then p.index + 1 else p.index)
      && d.events == Deliveries(m, d.window.next)
      && (forall i :: Fragments(d.window, i) ==
            if i == p.index && |sender(p.index).chunks| > 1 then {p.fragment} else {})
  {
    var w' := Add(MoveTo(w, m), p);
    var d := Drain(sender, w');
    DrainDelivers(sender, w');
    DrainKeeps(sender, w');
    assert p.index !in w.got && Fragments(w', p.index) == {p.fragment};
    forall i | m <= i < p.index ensures Complete(sender, w', i) {
      assert Complete(sender, w, i) && Fragments(w', i) == Fragments(w, i);
    }
    assert !Complete(sender, w', p.index + 1) by {
      assert 0 !in Fragments(w', p.index + 1);
    }
    if |sender(p.index).chunks| == 1 {
      assert Complete(sender, w', p.index);
    } else {
      assert 0 !in Fragments(w', p.index) || 1 !in Fragments(w', p.index);
      assert !Complete(sender, w', p.index);
    }
  }
}
