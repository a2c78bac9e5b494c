/** One slot of the ring: how it relates to the message it assembles. */
module Reassembly {
  import opened Wire
  import opened Ring

  /** All fragments of the message are in the set. */
  predicate Whole(m: Message, got: set<nat>) {
    forall k: nat :: k < |m.chunks| ==> k in got
  }

  ghost predicate PartOf(m: Message, got: set<nat>) {
    forall k :: k in got ==> k < |m.chunks|
  }

  /** The size field: set by the last fragment. */
  function SizeAfter(m: Message, got: set<nat>): nat {
    var last := |m.chunks| - 1;
    if last in got then Offset(last) + |m.chunks[last]| else 0
  }

  predicate ChunkInPlace(bytes: Bytes, m: Message, k: nat)
    requires k < |m.chunks|
  {
    OffsetFits(k);
    bytes[Offset(k)..Offset(k) + |m.chunks[k]|] == m.chunks[k]
  }

  /** The slot holds these fragments of the message, and nothing else that can be seen. */
  ghost predicate Holds(s: Slot, m: Message, got: set<nat>) {
    && PartOf(m, got)
    && s.available == got
    && s.count == |got|
    && (s.ready <==> Whole(m, got))
    && s.size == SizeAfter(m, got)
    && (forall k :: k in got ==> ChunkInPlace(s.payload, m, k))
    && (s.ready ==> s.meta == m.meta)
  }

  lemma VacantHoldsNothing(s: Slot, m: Message)
    requires Vacant(s)
    ensures Holds(s, m, {})
  {
    var none: set<nat> := {};
    assert 0 !in none;
  }

  lemma VacantIffNothing(s: Slot, m: Message, got: set<nat>)
    requires Holds(s, m, got)
    ensures Vacant(s) <==> got == {}
  {
    if got == {} {
      assert 0 !in got;
    }
  }

  /** Of a message with one fragment a slot holds nothing or everything. */
  lemma IncompleteSingleIsVacant(s: Slot, m: Message, got: set<nat>)
    requires Holds(s, m, got) && |m.chunks| == 1 && !Whole(m, got)
    ensures Vacant(s)
  {
    assert 0 !in got;
    assert got == {};
  }

  lemma {:induction false} WholeByCount(got: set<nat>, n: nat)
    requires forall k :: k in got ==> k < n
    ensures |got| <= n
    ensures |got| == n <==> forall k: nat :: k < n ==> k in got
  {
    if n == 0 {
      assert got == {};
    } else {
      WholeByCount(got - {n - 1}, n - 1);
      if n - 1 in got {
        assert |got| == |got - {n - 1}| + 1;
      } else {
        assert got == got - {n - 1};
      }
    }
  }

  lemma SpliceElsewhere(bytes: Bytes, at: nat, p: Payload, lo: nat, hi: nat)
    requires at + |p| <= MAX_BUFFER && lo <= hi <= MAX_BUFFER
    requires hi <= at || at + |p| <= lo
    ensures Splice(bytes, at, p)[lo..hi] == bytes[lo..hi]
  {
    if hi <= at {
      assert Splice(bytes, at, p)[..at] == bytes[..at];
      assert Splice(bytes, at, p)[lo..hi] == Splice(bytes, at, p)[..at][lo..hi];
    } else {
      var n := at + |p|;
      assert Splice(bytes, at, p)[n..] == bytes[n..];
      assert Splice(bytes, at, p)[lo..hi] == Splice(bytes, at, p)[n..][lo - n..hi - n];
    }
  }

  lemma SpliceHere(bytes: Bytes, at: nat, p: Payload)
    requires at + |p| <= MAX_BUFFER
    ensures Splice(bytes, at, p)[at..at + |p|] == p
  {
  }

  /** Writing one chunk keeps the chunks already in place. */
  lemma SpliceKeepsChunks(bytes: Bytes, m: Message, k: nat, j: nat)
    requires k < |m.chunks| && j < |m.chunks|
    requires j == k || ChunkInPlace(bytes, m, j)
    ensures Offset(k) + |m.chunks[k]| <= MAX_BUFFER
    ensures ChunkInPlace(Splice(bytes, Offset(k), m.chunks[k]), m, j)
  {
    OffsetFits(k);
    OffsetFits(j);
    if j == k {
      SpliceHere(bytes, Offset(k), m.chunks[k]);
    } else {
      if j < k { OffsetsApart(j, k); } else { OffsetsApart(k, j); }
      SpliceElsewhere(bytes, Offset(k), m.chunks[k], Offset(j), Offset(j) + |m.chunks[j]|);
    }
  }

  predicate Carries(f: Frame, p: Payload, m: Message, k: nat) {
    && k < |m.chunks|
    && f.fragment == k
    && f.fragmentMax == |m.chunks| - 1
    && f.meta == m.meta
    && p == m.chunks[k]
  }

  /** Storing a fragment adds it to what the slot holds; no assert fails; the fragment
      completes the message exactly if it is the last one missing. */
  lemma StoreHolds(s: Slot, m: Message, got: set<nat>, f: Frame, p: Payload, k: nat)
    requires Holds(s, m, got) && Carries(f, p, m, k)
    ensures Holds(Store(s, f, p), m, got + {k})
    ensures StoreAsserts(s, f)
    ensures Completes(s, f) <==> !Whole(m, got) && Whole(m, got + {k})
  {
    var after := Store(s, f, p);
    if k in got {
      assert got + {k} == got;
    } else {
      WholeByCount(got, |m.chunks|);
      WholeByCount(got + {k}, |m.chunks|);
      assert |got + {k}| == |got| + 1;
      assert after.available == got + {k};
      forall j | j in got + {k} ensures ChunkInPlace(after.payload, m, j) {
        SpliceKeepsChunks(s.payload, m, k, j);
      }
    }
  }

  lemma {:induction false} PrefixInPlace(bytes: Bytes, m: Message, n: nat)
    requires n < |m.chunks|
    requires forall k: nat :: k < n ==> ChunkInPlace(bytes, m, k)
    ensures Offset(n) <= MAX_BUFFER
    ensures bytes[..Offset(n)] == Body(m.chunks[..n])
  {
    OffsetFits(n);
    if n == 0 {
    } else {
      PrefixInPlace(bytes, m, n - 1);
      assert ChunkInPlace(bytes, m, n - 1);
      assert Offset(n) == Offset(n - 1) + MAX_PAYLOAD;
      assert m.chunks[..n][..n - 1] == m.chunks[..n - 1];
      assert bytes[..Offset(n)] == bytes[..Offset(n - 1)] + bytes[Offset(n - 1)..Offset(n)];
    }
  }

  /** Reassembly integrity: a ready slot delivers the bytes and the header of its message,
      whatever the slot's buffer contained before. */
  lemma ReadyDeliversBody(s: Slot, m: Message, got: set<nat>)
    requires Holds(s, m, got)
    ensures s.ready ==> s.payload[..s.size] == Body(m.chunks) && s.meta == m.meta
  {
    if s.ready {
      var n := |m.chunks| - 1;
      assert forall k: nat :: k < |m.chunks| ==> k in got && ChunkInPlace(s.payload, m, k);
      PrefixInPlace(s.payload, m, n);
      OffsetFits(n);
      assert ChunkInPlace(s.payload, m, n);
      assert s.payload[..s.size] == s.payload[..Offset(n)] + s.payload[Offset(n)..s.size];
    }
  }

  // ----- Fragment confluence

  predicate FragmentsOf(m: Message, ks: seq<nat>) {
    forall i :: 0 <= i < |ks| ==> ks[i] < |m.chunks|
  }

  function ToSet(ks: seq<nat>): (r: set<nat>)
    ensures forall k :: k in r <==> k in ks
  {
    if ks == [] then {} else ToSet(ks[..|ks| - 1]) + {ks[|ks| - 1]}
  }

  /** The fragments ks of a message, stored one after the other. */
  function StoreAll(s: Slot, session: u16, seqno: u32, m: Message, ks: seq<nat>): Slot
    requires FragmentsOf(m, ks)
  {
    if ks == [] then s
    else
      var k := ks[|ks| - 1];
      var f := Frame(session, seqno, k, |m.chunks| - 1, m.meta);
      Store(StoreAll(s, session, seqno, m, ks[..|ks| - 1]), f, m.chunks[k])
  }

  lemma {:induction false} StoreAllHolds(s: Slot, session: u16, seqno: u32, m: Message, ks: seq<nat>)
    requires Vacant(s) && FragmentsOf(m, ks)
    ensures Holds(StoreAll(s, session, seqno, m, ks), m, ToSet(ks))
  {
    if ks == [] {
      VacantHoldsNothing(s, m);
    } else {
      var n := |ks| - 1;
      var f := Frame(session, seqno, ks[n], |m.chunks| - 1, m.meta);
      var before := StoreAll(s, session, seqno, m, ks[..n]);
      StoreAllHolds(s, session, seqno, m, ks[..n]);
      StoreHolds(before, m, ToSet(ks[..n]), f, m.chunks[ks[n]], ks[n]);
    }
  }

  /** Two slots that hold the same fragments of a message cannot be told apart. */
  lemma SameFragmentsSameSlot(a: Slot, b: Slot, m: Message, got: set<nat>)
    requires Holds(a, m, got) && Holds(b, m, got)
    ensures a.ready == b.ready && a.count == b.count && a.available == b.available && a.size == b.size
    ensures a.ready <==> Whole(m, got)
    ensures a.ready ==> a.meta == b.meta == m.meta && a.payload[..a.size] == b.payload[..b.size] == Body(m.chunks)
  {
    if a.ready {
      ReadyDeliversBody(a, m, got);
      ReadyDeliversBody(b, m, got);
    }
  }

  // ----- The whole slot, from the same start

  /** Byte j belongs to one of the chunks. */
  ghost predicate InChunk(m: Message, got: set<nat>, j: nat) {
    exists k :: k in got && k < |m.chunks| && Offset(k) <= j < Offset(k) + |m.chunks[k]|
  }

  /** Everything the fragments do not determine is as it was. */
  ghost predicate OtherwiseAs(s: Slot, base: Slot, m: Message, got: set<nat>) {
    && (forall j: nat :: j < MAX_BUFFER && !InChunk(m, got, j) ==> s.payload[j] == base.payload[j])
    && (!s.ready ==> s.meta == base.meta)
  }

  lemma StoreOtherwiseAs(s: Slot, base: Slot, m: Message, got: set<nat>, f: Frame, p: Payload, k: nat)
    requires Holds(s, m, got) && OtherwiseAs(s, base, m, got) && Carries(f, p, m, k)
    ensures OtherwiseAs(Store(s, f, p), base, m, got + {k})
  {
    OffsetFits(k);
    if k in got {
      assert got + {k} == got;
    } else {
      var after := Store(s, f, p);
      forall j: nat | j < MAX_BUFFER && !InChunk(m, got + {k}, j) ensures after.payload[j] == base.payload[j] {
        NotInFewer(m, got, k, j);
      }
    }
  }

  lemma NotInFewer(m: Message, got: set<nat>, k: nat, j: nat)
    requires k < |m.chunks| && !InChunk(m, got + {k}, j)
    ensures !InChunk(m, got, j) && !(Offset(k) <= j < Offset(k) + |m.chunks[k]|)
  {
    assert k in got + {k};
    assert forall i :: i in got ==> i in got + {k};
  }

  lemma {:induction false} StoreAllOtherwiseAs(s: Slot, session: u16, seqno: u32, m: Message, ks: seq<nat>)
    requires Vacant(s) && FragmentsOf(m, ks)
    ensures OtherwiseAs(StoreAll(s, session, seqno, m, ks), s, m, ToSet(ks))
  {
    if ks == [] {
    } else {
      var n := |ks| - 1;
      var f := Frame(session, seqno, ks[n], |m.chunks| - 1, m.meta);
      var before := StoreAll(s, session, seqno, m, ks[..n]);
      StoreAllOtherwiseAs(s, session, seqno, m, ks[..n]);
      StoreAllHolds(s, session, seqno, m, ks[..n]);
      StoreOtherwiseAs(before, s, m, ToSet(ks[..n]), f, m.chunks[ks[n]], ks[n]);
    }
  }

  lemma SameEverywhere(a: Slot, b: Slot, base: Slot, m: Message, got: set<nat>)
    requires Holds(a, m, got) && Holds(b, m, got)
    requires OtherwiseAs(a, base, m, got) && OtherwiseAs(b, base, m, got)
    ensures a == b
  {
    forall j: nat | j < MAX_BUFFER ensures a.payload[j] == b.payload[j] {
      if InChunk(m, got, j) {
        var k :| k in got && k < |m.chunks| && Offset(k) <= j < Offset(k) + |m.chunks[k]|;
        ByteOfChunk(a.payload, m, k, j);
        ByteOfChunk(b.payload, m, k, j);
      }
    }
    assert a.payload == b.payload;
  }

  lemma ByteOfChunk(bytes: Bytes, m: Message, k: nat, j: nat)
    requires k < |m.chunks| && ChunkInPlace(bytes, m, k)
    requires Offset(k) <= j < Offset(k) + |m.chunks[k]|
    ensures j < MAX_BUFFER && bytes[j] == m.chunks[k][j - Offset(k)]
  {
    OffsetFits(k);
    assert bytes[j] == bytes[Offset(k)..Offset(k) + |m.chunks[k]|][j - Offset(k)];
  }

  /** A slot is a function of the set of fragments received: any two orders of arrival, with any
      duplicates, turn the same vacant slot into the same slot, to the last byte, complete or not. */
  lemma Confluence(s: Slot, session: u16, seqno: u32, m: Message, ks: seq<nat>, ks': seq<nat>)
    requires Vacant(s)
    requires FragmentsOf(m, ks) && FragmentsOf(m, ks')
    requires ToSet(ks) == ToSet(ks')
    ensures StoreAll(s, session, seqno, m, ks) == StoreAll(s, session, seqno, m, ks')
  {
    StoreAllHolds(s, session, seqno, m, ks);
    StoreAllHolds(s, session, seqno, m, ks');
    StoreAllOtherwiseAs(s, session, seqno, m, ks);
    StoreAllOtherwiseAs(s, session, seqno, m, ks');
    SameEverywhere(StoreAll(s, session, seqno, m, ks), StoreAll(s, session, seqno, m, ks'), s, m, ToSet(ks));
  }

  /** From vacant slots with different stale bytes and headers, the slots agree in everything but
      those: all chunks received are in place in both, complete or not, and what is delivered
      when complete is equal. */
  lemma ConfluenceOverStaleBytes(s: Slot, s': Slot, session: u16, seqno: u32, m: Message, ks: seq<nat>, ks': seq<nat>)
    requires Vacant(s) && Vacant(s')
    requires FragmentsOf(m, ks) && FragmentsOf(m, ks')
    requires ToSet(ks) == ToSet(ks')
    ensures var a, b := StoreAll(s, session, seqno, m, ks), StoreAll(s', session, seqno, m, ks');
      && a.ready == b.ready && a.count == b.count && a.available == b.available && a.size == b.size
      && (forall k :: k in ToSet(ks) ==>
            k < |m.chunks| && ChunkInPlace(a.payload, m, k) && ChunkInPlace(b.payload, m, k))
      && (a.ready <==> Whole(m, ToSet(ks)))
      && (a.ready ==> a.meta == b.meta == m.meta && a.payload[..a.size] == b.payload[..b.size] == Body(m.chunks))
  {
    StoreAllHolds(s, session, seqno, m, ks);
    StoreAllHolds(s', session, seqno, m, ks');
    SameFragmentsSameSlot(StoreAll(s, session, seqno, m, ks), StoreAll(s', session, seqno, m, ks'), m, ToSet(ks));
  }
}
