/** The object synchroniser: what the two channels do with each complete message, over the
    state they share. */
module Sync {
  import opened Wire

  datatype Option<+T> = None | Some(value: T)

  datatype Key = Key(objectType: u8, objectId: u16)

  datatype State = State(ready: bool, lastSeqno: Option<u32>)

  const UNKNOWN: State := State(false, None)

  datatype Table = Table(session: u16, objects: map<Key, State>)

  datatype Channel = Incremental | Snapshot

  /** A complete message handed over by the buffer of a channel. The bytes go to the decoder when
      the message is dispatched; the synchroniser does not look at them. */
  datatype Event = Event(channel: Channel, header: Header, payload: seq<u8>) {
    function Object(): Key {
      Key(header.meta.objectType, header.meta.objectId)
    }
  }

  function Lookup(t: Table, o: Key): State {
    if o in t.objects then t.objects[o] else UNKNOWN
  }

  // ----- One object

  /** An incremental message: it becomes ready with the snapshot flag; without it, it waits. */
  function AfterIncremental(state: State, h: Header): State {
    if state.ready then state.(lastSeqno := Some(h.seqno))
    else if h.meta.snapshot then State(true, Some(h.seqno))
    else if state.lastSeqno.None? then state.(lastSeqno := Some(h.seqno))
    else state
  }

  /** Is a message of the snapshot channel let through? */
  predicate Include(state: State, h: Header) {
    h.meta.objectType == 0 ||
    (!state.ready && (state.lastSeqno.Some? ==> state.lastSeqno.value <= h.meta.lastSeqno))
  }

  function AfterSnapshot(state: State, h: Header): State {
    if Include(state, h) then state.(lastSeqno := Some(h.meta.lastSeqno)) else state
  }

  function After(state: State, e: Event): State {
    if e.channel.Incremental? then AfterIncremental(state, e.header) else AfterSnapshot(state, e.header)
  }

  // ----- The shared state

  /** An incremental message of another session forgets all objects. */
  function Current(t: Table, e: Event): Table {
    if e.channel.Incremental? && e.header.session != t.session then Table(e.header.session, map[]) else t
  }

  /** A message of the snapshot channel counts only in the session of the incremental one. */
  predicate Heard(t: Table, e: Event) {
    e.channel.Incremental? || e.header.session == t.session
  }

  function Step(t: Table, e: Event): Table {
    if !Heard(t, e) then t
    else
      var t' := Current(t, e);
      t'.(objects := t'.objects[e.Object() := After(Lookup(t', e.Object()), e)])
  }

  predicate Dispatched(t: Table, e: Event) {
    e.channel.Incremental? || (e.header.session == t.session && Include(Lookup(t, e.Object()), e.header))
  }

  function Run(t: Table, es: seq<Event>): Table {
    if es == [] then t else Step(Run(t, es[..|es| - 1]), es[|es| - 1])
  }

  // ----- Non-interference

  /** The messages that count for one object: its own, since the last change of session, and on
      the snapshot channel only those of that session. */
  function History(session: u16, es: seq<Event>, o: Key): seq<Event> {
    if es == [] then []
    else
      var n := |es| - 1;
      var e := es[n];
      var now := SessionAfter(session, es[..n]);
      var before := if e.channel.Incremental? && e.header.session != now then [] else History(session, es[..n], o);
      if e.Object() == o && (e.channel.Incremental? || e.header.session == now) then before + [e] else before
  }

  function SessionAfter(session: u16, es: seq<Event>): u16 {
    if es == [] then session
    else if es[|es| - 1].channel.Incremental? then es[|es| - 1].header.session
    else SessionAfter(session, es[..|es| - 1])
  }

  /** One object on its own. */
  function Replay(es: seq<Event>): State {
    if es == [] then UNKNOWN else After(Replay(es[..|es| - 1]), es[|es| - 1])
  }

  lemma {:induction false} SessionFollowsIncremental(t: Table, es: seq<Event>)
    ensures Run(t, es).session == SessionAfter(t.session, es)
  {
    if es == [] {
    } else {
      SessionFollowsIncremental(t, es[..|es| - 1]);
    }
  }

  /** Non-interference, over any interleaving of both channels: the state of an object, and
      whether the next message about it is dispatched, is decided by its own history alone. */
  lemma {:induction false} NonInterference(session: u16, es: seq<Event>, o: Key)
    ensures var t := Run(Table(session, map[]), es);
      Lookup(t, o) == Replay(History(session, es, o))
    ensures var t := Run(Table(session, map[]), es);
      forall e: Event :: e.Object() == o ==>
        (Dispatched(t, e) <==>
          (e.channel.Incremental? ||
           (e.header.session == SessionAfter(session, es) && Include(Replay(History(session, es, o)), e.header))))
  {
    SessionFollowsIncremental(Table(session, map[]), es);
    if es == [] {
    } else {
      var n := |es| - 1;
      var before := Run(Table(session, map[]), es[..n]);
      NonInterference(session, es[..n], o);
      SessionFollowsIncremental(Table(session, map[]), es[..n]);
      var h := History(session, es, o);
      if es[n].Object() == o && Heard(before, es[n]) {
        var resets := es[n].channel.Incremental? && es[n].header.session != before.session;
        assert h[..|h| - 1] == if resets then [] else History(session, es[..n], o);
      }
    }
  }

  /** Two messages about different objects commute unless one of them changes the session. */
  lemma DifferentObjectsCommute(t: Table, a: Event, b: Event)
    requires a.Object() != b.Object()
    requires Current(t, a) == t && Current(t, b) == t
    ensures Step(Step(t, a), b) == Step(Step(t, b), a)
    ensures Dispatched(Step(t, a), b) <==> Dispatched(t, b)
    ensures Dispatched(Step(t, b), a) <==> Dispatched(t, a)
  {
    var ab, ba := Step(Step(t, a), b), Step(Step(t, b), a);
    assert forall o :: o in ab.objects <==> o in ba.objects;
    assert forall o :: o in ab.objects ==> ab.objects[o] == ba.objects[o];
  }

  // ----- Online equals batch, per object

  predicate Opens(e: Event) {
    e.channel.Incremental? && e.header.meta.snapshot
  }

  predicate Opened(es: seq<Event>) {
    exists e :: e in es && Opens(e)
  }

  lemma OpenedStep(es: seq<Event>)
    requires es != []
    ensures Opened(es) <==> Opened(es[..|es| - 1]) || Opens(es[|es| - 1])
  {
    var n := |es| - 1;
    assert forall e :: e in es <==> e in es[..n] || e == es[n];
    if Opens(es[n]) {
      assert es[n] in es;
    }
  }

  /** The sequence number a message can put into the state. */
  function ValueOf(e: Event): u32 {
    if e.channel.Incremental? then e.header.seqno else e.header.meta.lastSeqno
  }

  /** What the watermark of a waiting object is the maximum of: the message that came first,
      and every message of the snapshot channel. */
  predicate Counts(es: seq<Event>, k: nat)
    requires k < |es|
  {
    k == 0 || es[k].channel.Snapshot?
  }

  predicate IsWatermark(es: seq<Event>, w: u32) {
    && (forall k :: 0 <= k < |es| && Counts(es, k) ==> ValueOf(es[k]) <= w)
    && (exists k :: 0 <= k < |es| && Counts(es, k) && ValueOf(es[k]) == w)
  }

  predicate IsLastIncremental(es: seq<Event>, k: nat)
    requires k < |es|
  {
    es[k].channel.Incremental? && forall j :: k < j < |es| ==> es[j].channel.Snapshot?
  }

  predicate SameObject(es: seq<Event>, o: Key) {
    forall e :: e in es ==> e.Object() == o
  }

  /** The state of an object in terms of its history as a whole. It is ready exactly if an
      incremental message with the snapshot flag is in it (the snapshot channel never makes it
      ready). While it waits, its number is the maximum of what came first and of all messages
      of the snapshot channel; once ready, it is that of the last incremental message. */
  lemma {:induction false} ObjectState(es: seq<Event>, o: Key)
    requires SameObject(es, o) && o.objectType != 0
    ensures var s := Replay(es);
      && (s.ready <==> Opened(es))
      && (s.lastSeqno.None? <==> es == [])
      && (!s.ready && es != [] ==> IsWatermark(es, s.lastSeqno.value))
      && (s.ready ==> exists k :: 0 <= k < |es| && IsLastIncremental(es, k) && s.lastSeqno.value == es[k].header.seqno)
  {
    if es == [] {
    } else {
      var n := |es| - 1;
      var init, e := es[..n], es[n];
      var s, s' := Replay(init), Replay(es);
      ObjectState(init, o);
      assert forall x :: x in init ==> x in es;
      assert e.Object() == o;
      OpenedStep(es);
      if s'.ready {
        if e.channel.Incremental? {
          assert IsLastIncremental(es, n);
        } else {
          var k :| 0 <= k < n && IsLastIncremental(init, k) && s.lastSeqno.value == init[k].header.seqno;
          assert IsLastIncremental(es, k);
        }
      } else {
        WatermarkStep(es, o);
      }
    }
  }

  predicate IsLastSnapshot(es: seq<Event>, k: nat)
    requires k < |es|
  {
    es[k].channel.Snapshot? && forall j :: k < j < |es| ==> es[j].channel.Incremental?
  }

  /** Objects of type zero are not filtered, so their number follows whatever came last: once
      ready, any message; before, the last message of the snapshot channel, or, if there was
      none, the very first message. */
  lemma {:induction false} UnfilteredObjectState(es: seq<Event>, o: Key)
    requires SameObject(es, o) && o.objectType == 0
    ensures var s := Replay(es);
      && (s.ready <==> Opened(es))
      && (s.lastSeqno.None? <==> es == [])
      && (s.ready ==> s.lastSeqno.value == ValueOf(es[|es| - 1]))
      && (!s.ready && es != [] ==>
            || (exists k :: 0 <= k < |es| && IsLastSnapshot(es, k) && s.lastSeqno.value == ValueOf(es[k]))
            || (s.lastSeqno.value == ValueOf(es[0]) && forall e :: e in es ==> e.channel.Incremental?))
    ensures forall h: Header :: h.meta.objectType == 0 ==> Include(Replay(es), h)
  {
    if es == [] {
    } else {
      var n := |es| - 1;
      var init, e := es[..n], es[n];
      UnfilteredObjectState(init, o);
      assert forall x :: x in init ==> x in es;
      assert e in es && e.Object() == o;
      OpenedStep(es);
      if e.channel.Snapshot? {
        assert IsLastSnapshot(es, n);
      } else if k :| 0 <= k < n && IsLastSnapshot(init, k) && Replay(init).lastSeqno.value == ValueOf(init[k]) {
        assert IsLastSnapshot(es, k);
      }
    }
  }

  lemma WatermarkStep(es: seq<Event>, o: Key)
    requires es != [] && SameObject(es, o) && o.objectType != 0
    requires var init := es[..|es| - 1]; var s := Replay(init);
      && !s.ready && !Opens(es[|es| - 1])
      && (s.lastSeqno.None? <==> init == [])
      && (init != [] ==> IsWatermark(init, s.lastSeqno.value))
    ensures Replay(es).lastSeqno.Some? && IsWatermark(es, Replay(es).lastSeqno.value)
  {
    var n := |es| - 1;
    var init, e := es[..n], es[n];
    var s, w := Replay(init), Replay(es).lastSeqno.value;
    assert e in es;
    assert forall k :: 0 <= k < n ==> es[k] == init[k] && (Counts(es, k) <==> Counts(init, k));
    if w == ValueOf(e) && (n == 0 || e.channel.Snapshot?) {
      assert Counts(es, n);
    } else {
      var k :| 0 <= k < n && Counts(init, k) && ValueOf(init[k]) == w;
      assert Counts(es, k) && ValueOf(es[k]) == w;
    }
  }

  // ----- The snapshot channel within one session

  /** No message changes the session. */
  predicate OneSession(session: u16, es: seq<Event>) {
    forall e :: e in es && e.channel.Incremental? ==> e.header.session == session
  }

  predicate DispatchedAt(session: u16, es: seq<Event>, i: nat)
    requires i < |es|
  {
    Dispatched(Run(Table(session, map[]), es[..i]), es[i])
  }

  lemma {:induction false} HistoryIsOwn(session: u16, es: seq<Event>, o: Key)
    ensures SameObject(History(session, es, o), o)
  {
    if es == [] {
    } else {
      HistoryIsOwn(session, es[..|es| - 1], o);
    }
  }

  /** Over any interleaving with any changes of session, a message of the snapshot channel about
      an object of non-zero type is dispatched exactly if it is of the current session, nothing
      has opened the object in it, and its number is at least that of the object's first message
      and of every earlier one of the snapshot channel since the session changed. */
  lemma SnapshotDispatch(session: u16, es: seq<Event>, i: nat)
    requires i < |es| && es[i].channel.Snapshot? && es[i].header.meta.objectType != 0
    ensures var h := History(session, es[..i], es[i].Object());
      DispatchedAt(session, es, i) <==>
        && es[i].header.session == SessionAfter(session, es[..i])
        && !Opened(h)
        && (forall k :: 0 <= k < |h| && Counts(h, k) ==> ValueOf(h[k]) <= es[i].header.meta.lastSeqno)
  {
    var o := es[i].Object();
    HistoryIsOwn(session, es[..i], o);
    NonInterference(session, es[..i], o);
    ObjectState(History(session, es[..i], o), o);
  }

  /** No message strictly between positions i and j changes the session. */
  predicate Quiet(session: u16, es: seq<Event>, i: nat, j: nat)
    requires j <= |es|
  {
    forall k :: i < k < j && es[k].channel.Incremental? ==> es[k].header.session == SessionAfter(session, es[..k])
  }

  /** Watermark, over runs with any changes of session: of two snapshots dispatched for an object
      of non-zero type with no change of session between them, the later has no smaller number;
      no message since the session changed has opened the object before it; and the earlier
      reaches the number of the incremental message that came first, if one did. */
  lemma SnapshotsAreMonotonic(session: u16, es: seq<Event>, i: nat, j: nat)
    requires i < j < |es| && Quiet(session, es, i, j)
    requires es[i].channel.Snapshot? && es[j].channel.Snapshot?
    requires es[i].Object() == es[j].Object() && es[i].header.meta.objectType != 0
    requires DispatchedAt(session, es, i) && DispatchedAt(session, es, j)
    ensures es[i].header.meta.lastSeqno <= es[j].header.meta.lastSeqno
    ensures !Opened(History(session, es[..j], es[j].Object()))
    ensures forall k :: 0 <= k < j && Quiet(session, es, k, j) && es[k].Object() == es[j].Object() ==> !Opens(es[k])
    ensures var h := History(session, es[..j], es[j].Object());
      h != [] && (h[0].channel.Incremental? ==> h[0].header.seqno <= es[i].header.meta.lastSeqno)
  {
    var o := es[j].Object();
    var hi, hj := History(session, es[..i], o), History(session, es[..j], o);
    SnapshotDispatch(session, es, i);
    SnapshotDispatch(session, es, j);
    HistoryStep(session, es, i, o);
    HistoryGrows(session, es, i + 1, j, o);
    assert hj[|hi|] == es[i] && Counts(hj, |hi|);
    if |hi| > 0 {
      assert Counts(hi, 0) && hj[0] == hi[0];
    }
    forall k | 0 <= k < j && Quiet(session, es, k, j) && es[k].Object() == o ensures !Opens(es[k]) {
      if es[k].channel.Incremental? {
        HistoryStep(session, es, k, o);
        HistoryGrows(session, es, k + 1, j, o);
        assert es[k] in History(session, es[..k + 1], o) && es[k] in hj;
      }
    }
  }

  /** The history after one more message. */
  lemma HistoryStep(session: u16, es: seq<Event>, i: nat, o: Key)
    requires i < |es| && es[i].Object() == o
    requires es[i].channel.Incremental? || es[i].header.session == SessionAfter(session, es[..i])
    ensures var before, after := History(session, es[..i], o), History(session, es[..i + 1], o);
      && after != [] && after[|after| - 1] == es[i]
      && (es[i].channel.Snapshot? ==> after == before + [es[i]])
  {
    assert es[..i + 1][..i] == es[..i];
  }

  /** As long as the session does not change, histories only grow. */
  lemma {:induction false} HistoryGrows(session: u16, es: seq<Event>, n: nat, m: nat, o: Key)
    requires 0 < n <= m <= |es| && Quiet(session, es, n - 1, m)
    ensures History(session, es[..n], o) <= History(session, es[..m], o)
    decreases m - n
  {
    if n == m {
    } else {
      HistoryGrows(session, es, n, m - 1, o);
      assert es[..m][..m - 1] == es[..m - 1];
    }
  }

  // ----- Session safety

  /** Every entry of the map has a number, so every dereference is defined. */
  predicate AllKnown(t: Table) {
    forall o :: o in t.objects ==> t.objects[o].lastSeqno.Some?
  }

  /** After each message of the incremental channel the session is that message's; messages
      dispatched from the snapshot channel are of the session of the last incremental one; and
      no entry without a number is left behind. */
  lemma {:induction false} SessionSafety(t: Table, es: seq<Event>)
    requires AllKnown(t)
    ensures AllKnown(Run(t, es))
    ensures forall i :: 0 <= i < |es| && es[i].channel.Snapshot? && Dispatched(Run(t, es[..i]), es[i]) ==>
              es[i].header.session == SessionAfter(t.session, es[..i])
    ensures forall i :: 0 <= i < |es| && es[i].channel.Incremental? ==>
              Run(t, es[..i + 1]).session == es[i].header.session
  {
    if es == [] {
    } else {
      SessionSafety(t, es[..|es| - 1]);
    }
    forall i | 0 <= i < |es| && es[i].channel.Snapshot? && Dispatched(Run(t, es[..i]), es[i])
      ensures es[i].header.session == SessionAfter(t.session, es[..i])
    {
      SessionFollowsIncremental(t, es[..i]);
    }
    forall i | 0 <= i < |es| && es[i].channel.Incremental?
      ensures Run(t, es[..i + 1]).session == es[i].header.session
    {
      assert es[..i + 1][..i] == es[..i];
    }
  }
}
