/** The specification of the buffer: indices are unbounded, the window is a map from index to
    the fragments received, and what happens is a log of deliveries and gaps. There is no
    ring, no 32-bit number, no byte buffer and no separate path for unfragmented messages. */
module Stream {
  import opened Wire

  datatype Window = Window(next: int, got: map<int, set<nat>>)

  datatype Event = Deliver(index: int) | Gap(from: int, upTo: int)

  function Fragments(w: Window, i: int): set<nat> {
    if i in w.got then w.got[i] else {}
  }

  predicate Complete(sender: Sender, w: Window, i: int) {
    forall k: nat :: k < |sender(i).chunks| ==> k in Fragments(w, i)
  }

  function Start(s: int): Window {
    Window(s, map[])
  }

  function Add(w: Window, p: Packet): Window {
    w.(got := w.got[p.index := Fragments(w, p.index) + {p.fragment}])
  }

  /** Move the window forward; what falls out of it is forgotten. */
  function MoveTo(w: Window, next: int): Window {
    Window(next, map i | i in w.got && next <= i :: w.got[i])
  }

  datatype Result = Result(window: Window, events: seq<Event>)

  /** A message has at least one fragment, so a complete one is in the map. */
  lemma CompleteIsThere(sender: Sender, w: Window, i: int)
    requires Complete(sender, w, i)
    ensures i in w.got && |MoveTo(w, i + 1).got| < |w.got|
  {
    assert 0 in Fragments(w, i);
    assert MoveTo(w, i + 1).got.Keys < w.got.Keys by {
      assert i !in MoveTo(w, i + 1).got.Keys;
    }
    ProperSubsetIsSmaller(MoveTo(w, i + 1).got.Keys, w.got.Keys);
  }

  lemma ProperSubsetIsSmaller<T>(a: set<T>, b: set<T>)
    requires a < b
    ensures |a| < |b|
  {
    var x :| x in b && x !in a;
    SubsetIsNoLarger(a, b - {x});
  }

  lemma SubsetIsNoLarger<T>(a: set<T>, b: set<T>)
    requires a <= b
    ensures |a| <= |b|
  {
    if a == {} {
    } else {
      var x :| x in a;
      SubsetIsNoLarger(a - {x}, b - {x});
    }
  }

  /** Deliver from the start of the window as long as messages are complete. */
  function Drain(sender: Sender, w: Window): Result
    decreases |w.got|
  {
    if !Complete(sender, w, w.next) then Result(w, [])
    else
      CompleteIsThere(sender, w, w.next);
      var rest := Drain(sender, MoveTo(w, w.next + 1));
      Result(rest.window, [Deliver(w.next)] + rest.events)
  }

  lemma DrainStep(sender: Sender, w: Window)
    requires Complete(sender, w, w.next)
    ensures var rest := Drain(sender, MoveTo(w, w.next + 1));
      Drain(sender, w) == Result(rest.window, [Deliver(w.next)] + rest.events)
  {
    CompleteIsThere(sender, w, w.next);
  }

  /** The least m such that the messages from m up to end are all complete. */
  function SuffixStart(sender: Sender, w: Window, end: int): (m: int)
    requires w.next <= end
    ensures w.next <= m <= end
    decreases end - w.next
  {
    if w.next == end || !Complete(sender, w, end - 1) then end else SuffixStart(sender, w, end - 1)
  }

  lemma {:induction false} SuffixIsLongest(sender: Sender, w: Window, end: int)
    requires w.next <= end
    ensures var m := SuffixStart(sender, w, end);
      && (forall i :: m <= i < end ==> Complete(sender, w, i))
      && (m == w.next || !Complete(sender, w, m - 1))
    decreases end - w.next
  {
    if w.next == end || !Complete(sender, w, end - 1) {
    } else {
      SuffixIsLongest(sender, w, end - 1);
    }
  }

  /** Where the window has to start so that index i fits. */
  function MakeRoom(sender: Sender, w: Window, i: int): int {
    if i < w.next + MAX_BUFFERS then w.next
    else if i == w.next + MAX_BUFFERS then SuffixStart(sender, w, i)
    else i
  }

  /** One packet. */
  function Receive(sender: Sender, w: Window, p: Packet): Result {
    if p.index < w.next then Result(w, [])
    else
      var m := MakeRoom(sender, w, p.index);
      var gap := if m == w.next then [] else [Gap(w.next, m)];
      var d := Drain(sender, Add(MoveTo(w, m), p));
      Result(d.window, gap + d.events)
  }

  /** A run over packets in order of arrival. */
  function Run(sender: Sender, w: Window, packets: seq<Packet>): Result {
    if packets == [] then Result(w, [])
    else
      var before := Run(sender, w, packets[..|packets| - 1]);
      var now := Receive(sender, before.window, packets[|packets| - 1]);
      Result(now.window, before.events + now.events)
  }

  /** Between calls: the window holds at most sixteen messages, each with some of its
      fragments, and the expected one is not complete. */
  ghost predicate Settled(sender: Sender, w: Window) {
    Bounded(sender, w) && !Complete(sender, w, w.next)
  }

  ghost predicate Bounded(sender: Sender, w: Window) {
    forall i :: i in w.got ==>
      && w.next <= i < w.next + MAX_BUFFERS
      && w.got[i] != {}
      && forall k :: k in w.got[i] ==> k < |sender(i).chunks|
  }

  lemma MoveToBounded(sender: Sender, w: Window)
    requires Bounded(sender, w)
    ensures Bounded(sender, MoveTo(w, w.next + 1))
  {
  }

  lemma {:induction false} DrainStaysBounded(sender: Sender, w: Window)
    requires Bounded(sender, w)
    ensures Bounded(sender, Drain(sender, w).window)
    decreases |w.got|
  {
    if Complete(sender, w, w.next) {
      CompleteIsThere(sender, w, w.next);
      DrainStep(sender, w);
      MoveToBounded(sender, w);
      DrainStaysBounded(sender, MoveTo(w, w.next + 1));
    }
  }

  lemma {:induction false} DrainStops(sender: Sender, w: Window)
    ensures var d := Drain(sender, w).window;
      !Complete(sender, d, d.next) && w.next <= d.next
    decreases |w.got|
  {
    if Complete(sender, w, w.next) {
      CompleteIsThere(sender, w, w.next);
      DrainStep(sender, w);
      DrainStops(sender, MoveTo(w, w.next + 1));
    }
  }

  lemma ReceiveSettles(sender: Sender, w: Window, p: Packet)
    requires Settled(sender, w) && p.Of(sender)
    ensures Settled(sender, Receive(sender, w, p).window)
    ensures w.next <= Receive(sender, w, p).window.next
  {
    if w.next <= p.index {
      SuffixIsLongest(sender, w, w.next + MAX_BUFFERS);
      DrainStaysBounded(sender, Add(MoveTo(w, MakeRoom(sender, w, p.index)), p));
      DrainStops(sender, Add(MoveTo(w, MakeRoom(sender, w, p.index)), p));
    }
  }

  lemma {:induction false} RunSettles(sender: Sender, w: Window, packets: seq<Packet>)
    requires Settled(sender, w) && forall p :: p in packets ==> p.Of(sender)
    ensures Settled(sender, Run(sender, w, packets).window)
    ensures w.next <= Run(sender, w, packets).window.next
  {
    if packets == [] {
    } else {
      var n := |packets| - 1;
      RunSettles(sender, w, packets[..n]);
      ReceiveSettles(sender, Run(sender, w, packets[..n]).window, packets[n]);
    }
  }

  lemma StartIsSettled(sender: Sender, s: int)
    ensures Settled(sender, Start(s))
  {
    assert 0 !in Fragments(Start(s), s);
  }
}
