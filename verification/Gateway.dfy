/** The two channel handlers as the program has them: objects that each own a reassembly
    buffer and update one shared map in place. */
module Gateway {
  import opened Wire
  import opened Sync
  import B = Buffer
  import R = Ring
  import opened System

  /** What the two handlers share. */
  class Shared {
    var sessionId: u16
    var state: map<Key, State>

    ghost function View(): Table
      reads this
    {
      Table(sessionId, state)
    }

    constructor ()
      ensures View() == Table(0, map[])
    {
      sessionId, state := 0, map[];
    }

    /** operator[] of the map: an absent entry is created. */
    method Touch(o: Key) returns (s: State)
      modifies this`state
      ensures s == Lookup(old(View()), o)
      ensures state == old(state)[o := s]
    {
      if o !in state {
        state := state[o := UNKNOWN];
      }
      s := state[o];
      assert state == old(state)[o := s];
    }

    /** The parse closure of the incremental handler. The message is always dispatched. */
    method ParseIncremental(h: Header, p: seq<u8>)
      modifies this
      ensures View() == Step(old(View()), Event(Incremental, h, p))
    {
      if h.session != sessionId {
        sessionId := h.session;
        state := map[];
      }
      var o := Key(h.meta.objectType, h.meta.objectId);
      var s := Touch(o);
      if s.ready {
        state := state[o := s.(lastSeqno := Some(h.seqno))];
      } else if h.meta.snapshot {
        state := state[o := State(true, Some(h.seqno))];
      } else if s.lastSeqno.None? {
        state := state[o := s.(lastSeqno := Some(h.seqno))];
      }
    }

    /** The parse closure of the snapshot handler. */
    method ParseSnapshot(h: Header, p: seq<u8>) returns (dispatched: bool)
      modifies this
      ensures View() == Step(old(View()), Event(Snapshot, h, p))
      ensures dispatched == Dispatched(old(View()), Event(Snapshot, h, p))
    {
      if h.session != sessionId {
        return false;
      }
      var o := Key(h.meta.objectType, h.meta.objectId);
      var s := Touch(o);
      if h.meta.objectType == 0 {
        dispatched := true;
      } else if s.ready {
        dispatched := false;
      } else if s.lastSeqno.Some? {
        dispatched := s.lastSeqno.value <= h.meta.lastSeqno;
      } else {
        dispatched := true;
      }
      if dispatched {
        state := state[o := s.(lastSeqno := Some(h.meta.lastSeqno))];
      }
    }

    /** One message of either channel. */
    method Parse(channel: Channel, h: Header, p: seq<u8>) returns (dispatched: bool)
      modifies this
      ensures View() == Step(old(View()), Event(channel, h, p))
      ensures dispatched == Dispatched(old(View()), Event(channel, h, p))
    {
      match channel
      case Incremental =>
        ParseIncremental(h, p);
        dispatched := true;
      case Snapshot =>
        dispatched := ParseSnapshot(h, p);
    }
  }

  /** The handler of one channel. Two of them, one per channel, share one Shared. */
  class Handler {
    const channel: Channel
    const buffer: B.Buffer
    const shared: Shared

    ghost predicate Valid() {
      buffer.Valid() && shared !in buffer.Repr()
    }

    constructor (channel: Channel, shared: Shared)
      ensures Valid() && this.channel == channel && this.shared == shared
      ensures fresh(buffer.Repr()) && buffer.View() == R.FreshRing()
    {
      this.channel, this.shared := channel, shared;
      buffer := new B.Buffer();
    }

    /** A datagram. The callbacks of the buffer do not touch the buffer, so handling them after
        the drain is the same as handling them during it. */
    method Read(d: Datagram) returns (dispatched: seq<Event>)
      requires Valid()
      modifies buffer.Repr(), shared
      ensures var x := R.Receive(old(buffer.View()), d.frame, d.payload);
        && buffer.View() == x.ring
        && shared.View() == Run(old(shared.View()), EventsOf(channel, x.outs))
        && dispatched == Dispatches(old(shared.View()), EventsOf(channel, x.outs))
    {
      var result, outs, healthy := buffer.Receive(d.frame, d.payload);
      dispatched := ParseAll(outs);
    }

    method ParseAll(outs: seq<Output>) returns (dispatched: seq<Event>)
      modifies shared
      ensures shared.View() == Run(old(shared.View()), EventsOf(channel, outs))
      ensures dispatched == Dispatches(old(shared.View()), EventsOf(channel, outs))
    {
      dispatched := [];
      for k := 0 to |outs|
        invariant shared.View() == Run(old(shared.View()), EventsOf(channel, outs[..k]))
        invariant dispatched == Dispatches(old(shared.View()), EventsOf(channel, outs[..k]))
      {
        ghost var es := EventsOf(channel, outs[..k]);
        assert outs[..k + 1][..k] == outs[..k];
        assert es + [] == es && dispatched + [] == dispatched;
        match outs[k]
        case GapWarning(_, _) =>
        case Callback(h, p) =>
          assert (es + [Event(channel, h, p)])[..|es|] == es;
          var included := shared.Parse(channel, h, p);
          if included {
            dispatched := dispatched + [Event(channel, h, p)];
          }
      }
      assert outs[..|outs|] == outs;
    }
  }

  /** The controller: one handler per channel over one shared state. */
  class Controller {
    const shared: Shared
    const snapshot: Handler
    const incremental: Handler

    /** The two buffers are separate objects. */
    ghost predicate Valid() {
      && incremental.Valid() && snapshot.Valid()
      && incremental.channel == Incremental && snapshot.channel == Snapshot
      && incremental.shared == shared && snapshot.shared == shared
      && incremental.buffer.Repr() !! snapshot.buffer.Repr()
    }

    ghost function Repr(): set<object> {
      {shared} + incremental.buffer.Repr() + snapshot.buffer.Repr()
    }

    ghost function View(): System.Gateway
      requires Valid()
      reads Repr()
    {
      System.Gateway(incremental.buffer.View(), snapshot.buffer.View(), shared.View())
    }

    constructor ()
      ensures Valid() && fresh(Repr())
      ensures View() == NewGateway()
    {
      var s := new Shared();
      var first := new Handler(Snapshot, s);
      var second := new Handler(Incremental, s);
      assert first.buffer.Repr() !! second.buffer.Repr();
      shared, snapshot, incremental := s, first, second;
      new;
      assert incremental.buffer.View() == R.FreshRing() && snapshot.buffer.View() == R.FreshRing();
    }

    /** A datagram received on one of the channels: one step of the composed system. */
    method Read(a: Arrival) returns (dispatched: seq<Event>)
      requires Valid()
      modifies Repr()
      ensures var x := System.Read(old(View()), a);
        View() == x.gateway && dispatched == Dispatches(old(View()).table, x.events)
    {
      match a.channel
      case Incremental =>
        dispatched := incremental.Read(a.datagram);
      case Snapshot =>
        dispatched := snapshot.Read(a.datagram);
    }
  }
}
