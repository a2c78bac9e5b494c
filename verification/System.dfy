/** Both channels together: each has its own reassembly buffer, and the messages the buffers
    complete go to the shared synchroniser in the order in which they are completed. */
module System {
  import opened Wire
  import opened Sync
  import opened Delivery
  import R = Ring
  import Runs
  import Refinement
  import S = Stream

  datatype Arrival = Arrival(channel: Channel, datagram: Datagram)

  datatype Gateway = Gateway(incremental: R.Ring, snapshot: R.Ring, table: Table)

  function NewGateway(): Gateway {
    Gateway(R.FreshRing(), R.FreshRing(), Table(0, map[]))
  }

  /** The callbacks among the outputs of a buffer, as messages of its channel. */
  function EventsOf(channel: Channel, outs: seq<Output>): seq<Event> {
    if outs == [] then []
    else
      var last := outs[|outs| - 1];
      EventsOf(channel, outs[..|outs| - 1]) + if last.Callback? then [Event(channel, last.header, last.payload)] else []
  }

  /** The messages that are dispatched. */
  function Dispatches(t: Table, es: seq<Event>): seq<Event> {
    if es == [] then []
    else
      var n := |es| - 1;
      Dispatches(t, es[..n]) + if Dispatched(Run(t, es[..n]), es[n]) then [es[n]] else []
  }

  function RingOn(channel: Channel, g: Gateway): R.Ring {
    match channel case Incremental => g.incremental case Snapshot => g.snapshot
  }

  datatype Outcome = Outcome(gateway: Gateway, events: seq<Event>)

  /** One datagram on one channel. */
  function Read(g: Gateway, a: Arrival): Outcome {
    var x := R.Receive(RingOn(a.channel, g), a.datagram.frame, a.datagram.payload);
    var es := EventsOf(a.channel, x.outs);
    var table := Run(g.table, es);
    match a.channel
    case Incremental => Outcome(Gateway(x.ring, g.snapshot, table), es)
    case Snapshot => Outcome(Gateway(g.incremental, x.ring, table), es)
  }

  /** Any interleaving of datagrams on the two channels. */
  function ReadAll(g: Gateway, arrivals: seq<Arrival>): Outcome {
    if arrivals == [] then Outcome(g, [])
    else
      var before := ReadAll(g, arrivals[..|arrivals| - 1]);
      var now := Read(before.gateway, arrivals[|arrivals| - 1]);
      Outcome(now.gateway, before.events + now.events)
  }

  function DatagramsOn(channel: Channel, arrivals: seq<Arrival>): seq<Datagram> {
    if arrivals == [] then []
    else
      var last := arrivals[|arrivals| - 1];
      DatagramsOn(channel, arrivals[..|arrivals| - 1]) + if last.channel == channel then [last.datagram] else []
  }

  function EventsOn(channel: Channel, es: seq<Event>): seq<Event> {
    if es == [] then []
    else
      var last := es[|es| - 1];
      EventsOn(channel, es[..|es| - 1]) + if last.channel == channel then [last] else []
  }

  // ----- Sequences

  lemma {:induction false} EventsOfConcat(channel: Channel, a: seq<Output>, b: seq<Output>)
    ensures EventsOf(channel, a + b) == EventsOf(channel, a) + EventsOf(channel, b)
  {
    if b == [] {
      assert a + b == a;
    } else {
      assert (a + b)[..|a + b| - 1] == a + b[..|b| - 1];
      EventsOfConcat(channel, a, b[..|b| - 1]);
    }
  }

  lemma {:induction false} EventsOnConcat(channel: Channel, a: seq<Event>, b: seq<Event>)
    ensures EventsOn(channel, a + b) == EventsOn(channel, a) + EventsOn(channel, b)
  {
    if b == [] {
      assert a + b == a;
    } else {
      assert (a + b)[..|a + b| - 1] == a + b[..|b| - 1];
      EventsOnConcat(channel, a, b[..|b| - 1]);
    }
  }

  lemma {:induction false} RunConcat(t: Table, a: seq<Event>, b: seq<Event>)
    ensures Run(t, a + b) == Run(Run(t, a), b)
  {
    if b == [] {
      assert a + b == a;
    } else {
      assert (a + b)[..|a + b| - 1] == a + b[..|b| - 1];
      RunConcat(t, a, b[..|b| - 1]);
    }
  }

  lemma {:induction false} EventsOfChannel(channel: Channel, own: Channel, outs: seq<Output>)
    ensures EventsOn(channel, EventsOf(own, outs)) == if channel == own then EventsOf(own, outs) else []
  {
    if outs == [] {
    } else {
      var init, last := outs[..|outs| - 1], outs[|outs| - 1];
      EventsOfChannel(channel, own, init);
      EventsOnConcat(channel, EventsOf(own, init),
                     if last.Callback? then [Event(own, last.header, last.payload)] else []);
      if last.Callback? {
        assert [Event(own, last.header, last.payload)][..0] == [];
      }
    }
  }

  // ----- What is dispatched

  predicate Increasing(s: seq<int>) {
    forall j, k :: 0 <= j < k < |s| ==> s[j] < s[k]
  }

  /** The elements of es at these positions. */
  function At(es: seq<Event>, positions: seq<int>): seq<Event>
    requires forall j :: 0 <= j < |positions| ==> 0 <= positions[j] < |es|
  {
    seq(|positions|, j requires 0 <= j < |positions| => es[positions[j]])
  }

  /** The positions are those at which the message is dispatched in the state it finds, each once
      and in order. */
  predicate AreDispatched(t: Table, es: seq<Event>, positions: seq<int>) {
    && Increasing(positions)
    && (forall j :: 0 <= j < |positions| ==> 0 <= positions[j] < |es|)
    && forall k :: 0 <= k < |es| ==> (k in positions <==> Dispatched(Run(t, es[..k]), es[k]))
  }

  /** The list of dispatched messages is the list of all messages without those that are not
      dispatched, in the same order. */
  lemma {:induction false} DispatchesExactly(t: Table, es: seq<Event>) returns (positions: seq<int>)
    ensures AreDispatched(t, es, positions)
    ensures Dispatches(t, es) == At(es, positions)
  {
    if es == [] {
      positions := [];
    } else {
      var n := |es| - 1;
      var before := DispatchesExactly(t, es[..n]);
      positions := before + if Dispatched(Run(t, es[..n]), es[n]) then [n] else [];
      DispatchedStep(t, es, before, positions);
      assert At(es, before) == At(es[..n], before);
    }
  }

  lemma DispatchedStep(t: Table, es: seq<Event>, before: seq<int>, positions: seq<int>)
    requires es != [] && AreDispatched(t, es[..|es| - 1], before)
    requires var n := |es| - 1;
      positions == before + if Dispatched(Run(t, es[..n]), es[n]) then [n] else []
    ensures AreDispatched(t, es, positions)
  {
    var n := |es| - 1;
    assert forall j :: 0 <= j < |before| ==> before[j] in before && 0 <= before[j] < n;
    assert n !in before;
    forall k | 0 <= k < |es| ensures k in positions <==> Dispatched(Run(t, es[..k]), es[k]) {
      if k < n {
        assert es[..n][..k] == es[..k] && es[..n][k] == es[k];
        assert k in positions <==> k in before;
      }
    }
  }

  /** The incremental channel dispatches everything. */
  lemma {:induction false} IncrementalAlwaysDispatched(t: Table, es: seq<Event>)
    ensures EventsOn(Incremental, Dispatches(t, es)) == EventsOn(Incremental, es)
  {
    if es == [] {
    } else {
      var n := |es| - 1;
      IncrementalAlwaysDispatched(t, es[..n]);
      var more := if Dispatched(Run(t, es[..n]), es[n]) then [es[n]] else [];
      EventsOnConcat(Incremental, Dispatches(t, es[..n]), more);
      if more != [] {
        assert more[..0] == [];
      }
    }
  }

  /** What is dispatched in two stretches is what is dispatched in both together, the second
      starting from the state the first leaves. */
  lemma {:induction false} DispatchesConcat(t: Table, a: seq<Event>, b: seq<Event>)
    ensures Dispatches(t, a + b) == Dispatches(t, a) + Dispatches(Run(t, a), b)
  {
    if b == [] {
      assert a + b == a;
    } else {
      var n := |b| - 1;
      assert (a + b)[..|a + b| - 1] == a + b[..n];
      DispatchesConcat(t, a, b[..n]);
      RunConcat(t, a, b[..n]);
    }
  }

  /** The positions are those of the callbacks, each once and in order. */
  predicate AreCallbacks(outs: seq<Output>, positions: seq<int>) {
    && Increasing(positions)
    && (forall j :: 0 <= j < |positions| ==> 0 <= positions[j] < |outs| && outs[positions[j]].Callback?)
    && forall k :: 0 <= k < |outs| ==> (k in positions <==> outs[k].Callback?)
  }

  /** One message of the channel for each of these callbacks. */
  function Messages(channel: Channel, outs: seq<Output>, positions: seq<int>): seq<Event>
    requires forall j :: 0 <= j < |positions| ==> 0 <= positions[j] < |outs| && outs[positions[j]].Callback?
  {
    seq(|positions|, j requires 0 <= j < |positions| =>
      Event(channel, outs[positions[j]].header, outs[positions[j]].payload))
  }

  /** The messages of a call are its callbacks, in order, with their headers and bytes. */
  lemma {:induction false} EventsOfExactly(channel: Channel, outs: seq<Output>) returns (positions: seq<int>)
    ensures AreCallbacks(outs, positions)
    ensures EventsOf(channel, outs) == Messages(channel, outs, positions)
  {
    if outs == [] {
      positions := [];
    } else {
      var n := |outs| - 1;
      var before := EventsOfExactly(channel, outs[..n]);
      positions := before + if outs[n].Callback? then [n] else [];
      CallbacksStep(outs, before, positions);
      assert Messages(channel, outs, before) == Messages(channel, outs[..n], before);
    }
  }

  lemma CallbacksStep(outs: seq<Output>, before: seq<int>, positions: seq<int>)
    requires outs != [] && AreCallbacks(outs[..|outs| - 1], before)
    requires var n := |outs| - 1; positions == before + if outs[n].Callback? then [n] else []
    ensures AreCallbacks(outs, positions)
  {
    var n := |outs| - 1;
    assert forall j :: 0 <= j < |before| ==> before[j] in before && 0 <= before[j] < n;
    assert n !in before;
    forall k | 0 <= k < |outs| ensures k in positions <==> outs[k].Callback? {
      if k < n {
        assert outs[..n][k] == outs[k];
        assert k in positions <==> k in before;
      }
    }
  }

  // ----- Both channels

  /** What one datagram does to one channel. */
  lemma ReadStep(channel: Channel, g: Gateway, a: Arrival)
    ensures var now := Read(g, a); var ring := RingOn(channel, g);
      && now.gateway.table == Run(g.table, now.events)
      && (a.channel == channel ==>
            var x := R.Receive(ring, a.datagram.frame, a.datagram.payload);
            && RingOn(channel, now.gateway) == x.ring
            && EventsOn(channel, now.events) == EventsOf(channel, x.outs))
      && (a.channel != channel ==> RingOn(channel, now.gateway) == ring && EventsOn(channel, now.events) == [])
  {
    EventsOfChannel(channel, a.channel, R.Receive(RingOn(a.channel, g), a.datagram.frame, a.datagram.payload).outs);
  }

  /** One more datagram of the channel. */
  lemma RingStep(channel: Channel, r: R.Ring, ds: seq<Datagram>, d: Datagram)
    ensures var before := R.Run(r, ds); var x := R.Receive(before.ring, d.frame, d.payload);
      && R.Run(r, ds + [d]).ring == x.ring
      && EventsOf(channel, R.Run(r, ds + [d]).outs) ==
         EventsOf(channel, before.outs) + EventsOf(channel, x.outs)
  {
    assert (ds + [d])[..|ds|] == ds;
    var before := R.Run(r, ds);
    EventsOfConcat(channel, before.outs, R.Receive(before.ring, d.frame, d.payload).outs);
  }

  /** The shared state is the synchroniser's run over all messages in order of completion; the
      buffer of the channel has seen these datagrams only, and the messages of the channel are
      its callbacks. */
  ghost predicate IsRun(channel: Channel, g: Gateway, x: Outcome, ds: seq<Datagram>) {
    && x.gateway.table == Run(g.table, x.events)
    && RingOn(channel, x.gateway) == R.Run(RingOn(channel, g), ds).ring
    && EventsOn(channel, x.events) == EventsOf(channel, R.Run(RingOn(channel, g), ds).outs)
  }

  lemma ReadKeepsRun(channel: Channel, g: Gateway, before: Outcome, ds: seq<Datagram>, a: Arrival)
    requires IsRun(channel, g, before, ds)
    ensures var now := Read(before.gateway, a);
      var more := if a.channel == channel then [a.datagram] else [];
      IsRun(channel, g, Outcome(now.gateway, before.events + now.events), ds + more)
  {
    var now := Read(before.gateway, a);
    ReadStep(channel, before.gateway, a);
    RunConcat(g.table, before.events, now.events);
    EventsOnConcat(channel, before.events, now.events);
    if a.channel == channel {
      RingStep(channel, RingOn(channel, g), ds, a.datagram);
    } else {
      assert ds + [] == ds;
    }
  }

  /** For any gateway, any interleaving and each channel: what becomes of the channel is what its
      own buffer makes of its own datagrams. */
  lemma {:induction false} ReadAllIsRun(channel: Channel, g: Gateway, arrivals: seq<Arrival>)
    ensures IsRun(channel, g, ReadAll(g, arrivals), DatagramsOn(channel, arrivals))
  {
    if arrivals == [] {
    } else {
      var n := |arrivals| - 1;
      ReadAllIsRun(channel, g, arrivals[..n]);
      ReadKeepsRun(channel, g, ReadAll(g, arrivals[..n]), DatagramsOn(channel, arrivals[..n]), arrivals[n]);
    }
  }

  // ----- Ready objects

  predicate IncrementalOf(session: u16, es: seq<Event>) {
    forall e :: e in es && e.channel.Incremental? ==> e.header.session == session
  }

  lemma {:induction false} IncrementalEventsSession(session: u16, es: seq<Event>)
    requires forall e :: e in EventsOn(Incremental, es) ==> e.header.session == session
    ensures IncrementalOf(session, es)
  {
    if es == [] {
    } else {
      var n := |es| - 1;
      assert forall e :: e in EventsOn(Incremental, es[..n]) ==> e in EventsOn(Incremental, es);
      IncrementalEventsSession(session, es[..n]);
      if es[n].channel.Incremental? {
        assert EventsOn(Incremental, es)[|EventsOn(Incremental, es)| - 1] == es[n];
      }
    }
  }

  /** The shared state is in a new session exactly once a message of it has been completed. */
  lemma {:induction false} SessionBegins(t: Table, session: u16, es: seq<Event>)
    requires t.session != session && IncrementalOf(session, es)
    ensures Run(t, es).session == session <==> EventsOn(Incremental, es) != []
    ensures EventsOn(Incremental, es) == [] ==> Run(t, es).session == t.session
  {
    if es == [] {
    } else {
      assert es[|es| - 1] in es;
      SessionBegins(t, session, es[..|es| - 1]);
    }
  }

  /** Within a session a ready object stays ready, and no message about it is dispatched from
      the snapshot channel. */
  lemma {:induction false} ReadyStays(t: Table, es: seq<Event>, o: Key)
    requires Lookup(t, o).ready && o.objectType != 0 && OneSession(t.session, es)
    ensures Lookup(Run(t, es), o).ready && Run(t, es).session == t.session
    ensures forall i :: 0 <= i < |es| && es[i].channel.Snapshot? && es[i].Object() == o ==>
              !Dispatched(Run(t, es[..i]), es[i])
  {
    if es == [] {
    } else {
      var n := |es| - 1;
      assert es[n] in es;
      ReadyStays(t, es[..n], o);
      forall i | 0 <= i < |es| && es[i].channel.Snapshot? && es[i].Object() == o
        ensures !Dispatched(Run(t, es[..i]), es[i])
      {
        if i < n {
          assert es[..n][..i] == es[..i] && es[..n][i] == es[i];
        }
      }
    }
  }

  /** The last message about the object among these. */
  predicate IsLastOf(es: seq<Event>, o: Key, k: nat)
    requires k < |es|
  {
    es[k].Object() == o && forall j :: k < j < |es| ==> es[j].Object() != o
  }

  ghost predicate Follows(state: State, es: seq<Event>, o: Key) {
    exists k :: 0 <= k < |es| && IsLastOf(es, o, k) && state.lastSeqno == Some(es[k].header.seqno)
  }

  lemma FollowsAppended(state: State, es: seq<Event>, o: Key, e: Event)
    ensures e.Object() == o && state.lastSeqno == Some(e.header.seqno) ==> Follows(state, es + [e], o)
    ensures e.Object() != o && Follows(state, es, o) ==> Follows(state, es + [e], o)
  {
    if e.Object() == o {
      assert IsLastOf(es + [e], o, |es|);
    } else if Follows(state, es, o) {
      var k :| 0 <= k < |es| && IsLastOf(es, o, k) && state.lastSeqno == Some(es[k].header.seqno);
      assert IsLastOf(es + [e], o, k);
    }
  }

  /** In a new session, whatever the map held before, the number of a ready object is that of
      the last incremental message about it. */
  lemma {:induction false} ReadyFollowsIncremental(t: Table, session: u16, es: seq<Event>, o: Key)
    requires t.session != session && o.objectType != 0 && IncrementalOf(session, es)
    ensures var now := Run(t, es);
      now.session == session && Lookup(now, o).ready ==> Follows(Lookup(now, o), EventsOn(Incremental, es), o)
  {
    if es == [] {
    } else {
      var n := |es| - 1;
      assert es[n] in es;
      ReadyFollowsIncremental(t, session, es[..n], o);
      SessionBegins(t, session, es[..n]);
      FollowsAppended(Lookup(Run(t, es), o), EventsOn(Incremental, es[..n]), o, es[n]);
      assert EventsOn(Incremental, es[..n]) + [] == EventsOn(Incremental, es[..n]);
    }
  }

  // ----- Composition with the order of delivery

  /** The delivered indices among the events of the specification. */
  function Delivered(events: seq<S.Event>): seq<int> {
    if events == [] then []
    else
      var last := events[|events| - 1];
      Delivered(events[..|events| - 1]) + if last.Deliver? then [last.index] else []
  }

  /** The message of this index as it was sent. */
  function MessageEvent(channel: Channel, session: u16, sender: Sender, i: int): Event {
    Event(channel, Header(session, i % TWO_32, sender(i).meta), Body(sender(i).chunks))
  }

  function MessageEvents(channel: Channel, session: u16, sender: Sender, indices: seq<int>): (r: seq<Event>)
    ensures |r| == |indices|
  {
    seq(|indices|, k requires 0 <= k < |indices| => MessageEvent(channel, session, sender, indices[k]))
  }

  lemma {:induction false} EventsOfOutputs(channel: Channel, session: u16, sender: Sender, events: seq<S.Event>)
    ensures EventsOf(channel, Refinement.Outputs(session, sender, events)) ==
            MessageEvents(channel, session, sender, Delivered(events))
  {
    if events == [] {
    } else {
      var n := |events| - 1;
      EventsOfOutputs(channel, session, sender, events[..n]);
      var outs := Refinement.Outputs(session, sender, events);
      assert outs[..n] == Refinement.Outputs(session, sender, events[..n]);
      assert outs[n] == Refinement.OutputOf(session, sender, events[n]);
    }
  }

  lemma {:induction false} DeliveredIncreasing(events: seq<S.Event>)
    requires forall k :: 0 <= k < |events| ==> From(events[k]) < UpTo(events[k])
    requires forall j, k :: 0 <= j < k < |events| ==> UpTo(events[j]) <= From(events[k])
    ensures Increasing(Delivered(events))
    ensures events != [] ==>
              forall k :: 0 <= k < |Delivered(events)| ==> Delivered(events)[k] < UpTo(events[|events| - 1])
  {
    if events == [] {
    } else {
      var n := |events| - 1;
      DeliveredIncreasing(events[..n]);
      if n > 0 {
        assert UpTo(events[n - 1]) <= From(events[n]);
      }
    }
  }

  lemma {:induction false} DeliveredPrefix(sender: Sender, w: S.Window, packets: seq<Packet>, n: nat)
    requires n <= |packets|
    ensures Delivered(S.Run(sender, w, packets[..n]).events) <= Delivered(S.Run(sender, w, packets).events)
    decreases |packets| - n
  {
    if n < |packets| {
      DeliveredPrefix(sender, w, packets, n + 1);
      assert packets[..n + 1][..n] == packets[..n];
      var before := S.Run(sender, w, packets[..n]);
      DeliveredConcat(before.events, S.Receive(sender, before.window, packets[n]).events);
    } else {
      assert packets[..n] == packets;
    }
  }

  lemma {:induction false} DeliveredConcat(a: seq<S.Event>, b: seq<S.Event>)
    ensures Delivered(a + b) == Delivered(a) + Delivered(b)
  {
    if b == [] {
      assert a + b == a;
    } else {
      assert (a + b)[..|a + b| - 1] == a + b[..|b| - 1];
      DeliveredConcat(a, b[..|b| - 1]);
    }
  }

  /** A session on one channel of a running gateway. The datagrams of the channel are packets of
      this sender in this session, which is new to the channel's buffer and finds no slot of it
      occupied. The other channel may be in any state and receive anything. */
  ghost predicate FeedsChannel(channel: Channel, g: Gateway, arrivals: seq<Arrival>, session: u16,
                               sender: Sender, packets: seq<Packet>) {
    && Runs.AllVacant(RingOn(channel, g)) && RingOn(channel, g).session != session
    && Runs.AllOf(sender, packets)
    && DatagramsOn(channel, arrivals) == DatagramsOf(session, sender, packets)
    && (packets != [] ==> Runs.WithinReach(sender, S.Start(packets[0].index), packets))
  }

  /** A session on the incremental channel that is new to the shared state as well. The map may
      still hold the objects of earlier sessions. */
  ghost predicate Feeds(g: Gateway, arrivals: seq<Arrival>, session: u16, sender: Sender, packets: seq<Packet>) {
    FeedsChannel(Incremental, g, arrivals, session, sender, packets) && g.table.session != session
  }

  /** The indices a channel has delivered. */
  function DeliveredIndices(sender: Sender, packets: seq<Packet>): seq<int> {
    if packets == [] then [] else Delivered(S.Run(sender, S.Start(packets[0].index), packets).events)
  }

  lemma IndicesIncrease(sender: Sender, packets: seq<Packet>)
    requires Runs.AllOf(sender, packets)
    ensures Increasing(DeliveredIndices(sender, packets))
  {
    if packets != [] {
      var s := packets[0].index;
      var r := S.Run(sender, S.Start(s), packets);
      S.StartIsSettled(sender, s);
      RunTiles(sender, S.Start(s), packets);
      TilesInOrder(r.events, s, r.window.next);
      DeliveredIncreasing(r.events);
    }
  }

  lemma IndicesGrow(sender: Sender, packets: seq<Packet>, n: nat)
    requires n <= |packets|
    ensures DeliveredIndices(sender, packets[..n]) <= DeliveredIndices(sender, packets)
  {
    if n > 0 {
      DeliveredPrefix(sender, S.Start(packets[0].index), packets, n);
    }
  }

  /** On either channel, whatever the other one receives, the messages are the sender's delivered
      indices, in increasing order, each with the header and the bytes of the original. */
  lemma ChannelInOrder(channel: Channel, g: Gateway, arrivals: seq<Arrival>, session: u16,
                       sender: Sender, packets: seq<Packet>)
    requires FeedsChannel(channel, g, arrivals, session, sender, packets)
    ensures var x := ReadAll(g, arrivals);
      && EventsOn(channel, x.events) == MessageEvents(channel, session, sender, DeliveredIndices(sender, packets))
      && Increasing(DeliveredIndices(sender, packets))
  {
    ReadAllIsRun(channel, g, arrivals);
    IndicesIncrease(sender, packets);
    if packets != [] {
      Runs.SessionRefines(RingOn(channel, g), sender, session, packets);
      EventsOfOutputs(channel, session, sender, S.Run(sender, S.Start(packets[0].index), packets).events);
    }
  }

  /** For the incremental channel, also: all these messages are dispatched, and the shared state
      is in the session exactly once there is one. */
  lemma IncrementalInOrder(g: Gateway, arrivals: seq<Arrival>, session: u16, sender: Sender, packets: seq<Packet>)
    requires Feeds(g, arrivals, session, sender, packets)
    ensures var x := ReadAll(g, arrivals);
      var messages := MessageEvents(Incremental, session, sender, DeliveredIndices(sender, packets));
      && x.gateway.table == Run(g.table, x.events)
      && EventsOn(Incremental, x.events) == messages
      && EventsOn(Incremental, Dispatches(g.table, x.events)) == messages
      && IncrementalOf(session, x.events)
      && Increasing(DeliveredIndices(sender, packets))
      && (x.gateway.table.session == session <==> DeliveredIndices(sender, packets) != [])
  {
    ReadAllIsRun(Incremental, g, arrivals);
    ChannelInOrder(Incremental, g, arrivals, session, sender, packets);
    var es := ReadAll(g, arrivals).events;
    IncrementalAlwaysDispatched(g.table, es);
    IncrementalEventsSession(session, es);
    SessionBegins(g.table, session, es);
  }

  /** The object a message is about. */
  function ObjectOf(m: Message): Key {
    Key(m.meta.objectType, m.meta.objectId)
  }

  /** The last delivered index about the object. */
  predicate IsLatest(sender: Sender, indices: seq<int>, o: Key, k: nat)
    requires k < |indices|
  {
    ObjectOf(sender(indices[k])) == o && forall j :: k < j < |indices| ==> ObjectOf(sender(indices[j])) != o
  }

  /** In the session, the number of a ready object is that of the last message about it which
      the incremental channel delivered, whatever the snapshot channel received. */
  lemma ReadyObjectsFollowDelivery(g: Gateway, arrivals: seq<Arrival>, session: u16,
                                   sender: Sender, packets: seq<Packet>, o: Key)
    requires Feeds(g, arrivals, session, sender, packets) && o.objectType != 0
    ensures var t := ReadAll(g, arrivals).gateway.table;
      t.session == session && Lookup(t, o).ready ==>
        FollowsDelivery(Lookup(t, o), sender, DeliveredIndices(sender, packets), o)
  {
    IncrementalInOrder(g, arrivals, session, sender, packets);
    var x, indices := ReadAll(g, arrivals), DeliveredIndices(sender, packets);
    ReadyFollowsIncremental(g.table, session, x.events, o);
    if x.gateway.table.session == session && Lookup(x.gateway.table, o).ready {
      FollowsIndices(Lookup(x.gateway.table, o), session, sender, indices, o);
    }
  }

  ghost predicate FollowsDelivery(state: State, sender: Sender, indices: seq<int>, o: Key) {
    exists k :: 0 <= k < |indices| && IsLatest(sender, indices, o, k) && state.lastSeqno == Some(indices[k] % TWO_32)
  }

  lemma FollowsIndices(state: State, session: u16, sender: Sender, indices: seq<int>, o: Key)
    requires Follows(state, MessageEvents(Incremental, session, sender, indices), o)
    ensures FollowsDelivery(state, sender, indices, o)
  {
    var inc := MessageEvents(Incremental, session, sender, indices);
    var k :| 0 <= k < |inc| && IsLastOf(inc, o, k) && state.lastSeqno == Some(inc[k].header.seqno);
    assert forall j :: 0 <= j < |inc| ==> inc[j].Object() == ObjectOf(sender(indices[j]));
    assert IsLatest(sender, indices, o, k);
  }

  lemma {:induction false} PrefixOfArrivals(g: Gateway, arrivals: seq<Arrival>, m: nat)
    requires m <= |arrivals|
    ensures DatagramsOn(Incremental, arrivals[..m]) <= DatagramsOn(Incremental, arrivals)
    ensures ReadAll(g, arrivals[..m]).events <= ReadAll(g, arrivals).events
    decreases |arrivals| - m
  {
    if m < |arrivals| {
      PrefixOfArrivals(g, arrivals, m + 1);
      assert arrivals[..m + 1][..m] == arrivals[..m];
    } else {
      assert arrivals[..m] == arrivals;
    }
  }

  lemma {:induction false} WithinReachPrefix(sender: Sender, w: S.Window, packets: seq<Packet>, n: nat)
    requires Runs.WithinReach(sender, w, packets) && n <= |packets|
    ensures Runs.WithinReach(sender, w, packets[..n])
    decreases |packets| - n
  {
    if n < |packets| {
      WithinReachPrefix(sender, w, packets, n + 1);
      assert packets[..n + 1][..n] == packets[..n];
    } else {
      assert packets[..n] == packets;
    }
  }

  lemma FeedsPrefix(g: Gateway, arrivals: seq<Arrival>, session: u16, sender: Sender, packets: seq<Packet>, m: nat)
      returns (n: nat)
    requires Feeds(g, arrivals, session, sender, packets) && m <= |arrivals|
    ensures n == |DatagramsOn(Incremental, arrivals[..m])| <= |packets|
    ensures Feeds(g, arrivals[..m], session, sender, packets[..n])
  {
    PrefixOfArrivals(g, arrivals, m);
    n := |DatagramsOn(Incremental, arrivals[..m])|;
    assert DatagramsOn(Incremental, arrivals[..m]) == DatagramsOf(session, sender, packets[..n]);
    if packets != [] {
      WithinReachPrefix(sender, S.Start(packets[0].index), packets, n);
    }
  }

  /** More deliveries move the latest one forward exactly if one of them is about the object. */
  lemma LatestGrows(sender: Sender, a: seq<int>, b: seq<int>, o: Key, k: nat, l: nat)
    requires a <= b && Increasing(b) && k < |a| && l < |b|
    requires IsLatest(sender, a, o, k) && IsLatest(sender, b, o, l)
    ensures a[k] <= b[l]
    ensures a[k] < b[l] <==> exists j :: |a| <= j < |b| && ObjectOf(sender(b[j])) == o
  {
    assert b[k] == a[k];
    if l < |a| {
      assert a[l] == b[l];
    }
  }

  /** From message n on, no message about the object is dispatched from the snapshot channel. */
  predicate NoSnapshotAfter(t: Table, es: seq<Event>, n: nat, o: Key) {
    forall k :: n <= k < |es| && es[k].channel.Snapshot? && es[k].Object() == o ==>
      !Dispatched(Run(t, es[..k]), es[k])
  }

  /** The messages after a point of the run, seen from the state at that point. */
  lemma ReadyStaysAfter(t: Table, session: u16, a: seq<Event>, es: seq<Event>, o: Key)
    requires a <= es && IncrementalOf(session, es) && o.objectType != 0
    requires Run(t, a).session == session && Lookup(Run(t, a), o).ready
    ensures Run(t, es).session == session && Lookup(Run(t, es), o).ready
    ensures NoSnapshotAfter(t, es, |a|, o)
  {
    var rest := es[|a|..];
    assert es == a + rest;
    assert forall e :: e in rest ==> e in es;
    ReadyStays(Run(t, a), rest, o);
    RunConcat(t, a, rest);
    forall k | |a| <= k < |es| && es[k].channel.Snapshot? && es[k].Object() == o
      ensures !Dispatched(Run(t, es[..k]), es[k])
    {
      RunFrom(t, a, es, k);
      assert es[k] == rest[k - |a|];
    }
  }

  lemma RunFrom(t: Table, a: seq<Event>, es: seq<Event>, k: nat)
    requires a <= es && |a| <= k <= |es|
    ensures Run(t, es[..k]) == Run(Run(t, a), es[|a|..][..k - |a|])
  {
    assert es[..k] == a + es[|a|..][..k - |a|];
    RunConcat(t, a, es[|a|..][..k - |a|]);
  }

  /** Once an object of non-zero type is ready in the session, then for the rest of it, whatever
      the snapshot channel receives, it stays ready and no message about it is dispatched from
      the snapshot channel. */
  lemma ReadyObjectsStay(g: Gateway, arrivals: seq<Arrival>, session: u16,
                         sender: Sender, packets: seq<Packet>, o: Key, m: nat)
    requires Feeds(g, arrivals, session, sender, packets) && o.objectType != 0 && m <= |arrivals|
    ensures var before, after := ReadAll(g, arrivals[..m]), ReadAll(g, arrivals);
      && before.events <= after.events
      && (before.gateway.table.session == session && Lookup(before.gateway.table, o).ready ==>
            && after.gateway.table.session == session
            && Lookup(after.gateway.table, o).ready
            && NoSnapshotAfter(g.table, after.events, |before.events|, o))
  {
    PrefixOfArrivals(g, arrivals, m);
    IncrementalInOrder(g, arrivals, session, sender, packets);
    ReadAllIsRun(Incremental, g, arrivals[..m]);
    var before, after := ReadAll(g, arrivals[..m]), ReadAll(g, arrivals);
    if before.gateway.table.session == session && Lookup(before.gateway.table, o).ready {
      ReadyStaysAfter(g.table, session, before.events, after.events, o);
    }
  }

  /** The object's number moves from one delivered index to another that is no earlier, and is
      later exactly if a message about the object was delivered in between. */
  ghost predicate Advances(before: State, after: State, sender: Sender, a: seq<int>, b: seq<int>, o: Key) {
    exists k, l ::
      && 0 <= k < |a| && 0 <= l < |b|
      && IsLatest(sender, a, o, k) && IsLatest(sender, b, o, l)
      && before.lastSeqno == Some(a[k] % TWO_32)
      && after.lastSeqno == Some(b[l] % TWO_32)
      && a[k] <= b[l]
      && (a[k] < b[l] <==> exists j :: |a| <= j < |b| && ObjectOf(sender(b[j])) == o)
  }

  lemma FollowingAdvances(before: State, after: State, sender: Sender, a: seq<int>, b: seq<int>, o: Key)
    requires a <= b && Increasing(b)
    requires FollowsDelivery(before, sender, a, o) && FollowsDelivery(after, sender, b, o)
    ensures Advances(before, after, sender, a, b, o)
  {
    var k :| 0 <= k < |a| && IsLatest(sender, a, o, k) && before.lastSeqno == Some(a[k] % TWO_32);
    var l :| 0 <= l < |b| && IsLatest(sender, b, o, l) && after.lastSeqno == Some(b[l] % TWO_32);
    LatestGrows(sender, a, b, o, k, l);
  }

  /** And its number is always that of the latest message about it which the incremental
      channel delivered: an unbounded index that never falls, and grows with every such message. */
  lemma ReadyObjectsAdvance(g: Gateway, arrivals: seq<Arrival>, session: u16,
                            sender: Sender, packets: seq<Packet>, o: Key, m: nat)
    requires Feeds(g, arrivals, session, sender, packets) && o.objectType != 0 && m <= |arrivals|
    ensures |DatagramsOn(Incremental, arrivals[..m])| <= |packets|
    ensures var before, after := ReadAll(g, arrivals[..m]).gateway.table, ReadAll(g, arrivals).gateway.table;
      var earlier := packets[..|DatagramsOn(Incremental, arrivals[..m])|];
      before.session == session && Lookup(before, o).ready ==>
        Advances(Lookup(before, o), Lookup(after, o), sender,
                 DeliveredIndices(sender, earlier), DeliveredIndices(sender, packets), o)
  {
    var n := FeedsPrefix(g, arrivals, session, sender, packets, m);
    var before, after := ReadAll(g, arrivals[..m]).gateway.table, ReadAll(g, arrivals).gateway.table;
    if before.session == session && Lookup(before, o).ready {
      ReadyObjectsStay(g, arrivals, session, sender, packets, o, m);
      ReadyObjectsFollowDelivery(g, arrivals[..m], session, sender, packets[..n], o);
      ReadyObjectsFollowDelivery(g, arrivals, session, sender, packets, o);
      IndicesGrow(sender, packets, n);
      IndicesIncrease(sender, packets);
      FollowingAdvances(Lookup(before, o), Lookup(after, o), sender,
                        DeliveredIndices(sender, packets[..n]), DeliveredIndices(sender, packets), o);
    }
  }
}
