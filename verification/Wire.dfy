/** What travels on the wire: integer widths, frame headers, datagrams, and the
    messages a sender splits into datagrams. */
module Wire {

  const TWO_32: int := 0x1_0000_0000

  type u8 = n: int | 0 <= n < 0x100
  type u16 = n: int | 0 <= n < 0x1_0000
  type u32 = n: int | 0 <= n < TWO_32
  type Positive = n: int | 0 < n witness 1

  /** Longest payload of one datagram; an arbitrary positive number. */
  const MAX_PAYLOAD: Positive

  /** Flat reassembly buffer of one slot: room for 256 full fragments. */
  const MAX_BUFFER: nat := 256 * MAX_PAYLOAD

  /** Number of slots in the ring. */
  const MAX_BUFFERS: nat := 16

  type Payload = p: seq<u8> | |p| <= MAX_PAYLOAD witness []
  type Bytes = p: seq<u8> | |p| == MAX_BUFFER witness seq(MAX_BUFFER, _ => 0)

  /** The part of a frame that is handed on to the callback unchanged. The encoding and
      the snapshot flag are decoded from the control byte by code outside this model. */
  datatype Meta = Meta(lastSeqno: u32, objectType: u8, objectId: u16, encoding: u8, snapshot: bool)

  datatype Frame = Frame(session: u16, seqno: u32, fragment: u8, fragmentMax: u8, meta: Meta)

  datatype Header = Header(session: u16, seqno: u32, meta: Meta)

  /** What one datagram makes the buffer do to the outside: call back with a complete
      message, or log a sequence gap. */
  datatype Output =
    | Callback(header: Header, payload: seq<u8>)
    | GapWarning(from: u32, upTo: u32)

  datatype Datagram = Datagram(frame: Frame, payload: Payload)

  /** A message as its sender sees it: at most 256 chunks, all of them full except
      possibly the last. */
  datatype RawMessage = Message(meta: Meta, chunks: seq<Payload>) {
    predicate WellFormed() {
      && 1 <= |chunks| <= 256
      && forall k :: 0 <= k < |chunks| - 1 ==> |chunks[k]| == MAX_PAYLOAD
    }
  }

  type Message = m: RawMessage | m.WellFormed() witness Message(Meta(0, 0, 0, 0, false), [[]])

  /** The bytes the receiver has to deliver. */
  function Body(chunks: seq<Payload>): seq<u8> {
    if chunks == [] then [] else Body(chunks[..|chunks| - 1]) + chunks[|chunks| - 1]
  }

  /** Where a fragment is written in the flat buffer. */
  function Offset(fragment: nat): nat {
    fragment * MAX_PAYLOAD
  }

  /** Every fragment number fits the flat buffer, whatever its payload. */
  lemma OffsetFits(fragment: u8)
    ensures Offset(fragment) + MAX_PAYLOAD <= MAX_BUFFER
  {
    OffsetsApart(fragment, 256);
  }

  /** Different fragments are written to disjoint ranges. */
  lemma OffsetsApart(lower: nat, upper: nat)
    requires lower < upper
    ensures Offset(lower) + MAX_PAYLOAD <= Offset(upper)
  {
    assert (lower + 1) * MAX_PAYLOAD <= upper * MAX_PAYLOAD;
  }

  /** A sender is a choice of message for every index of the unbounded sequence. */
  type Sender = int -> Message

  /** One datagram of a sender, named by the true index of its message. */
  datatype Packet = Packet(index: int, fragment: nat) {
    predicate Of(sender: Sender) {
      fragment < |sender(index).chunks|
    }
  }

  /** The datagram that carries a packet: the index is cut to 32 bits. */
  function DatagramOf(session: u16, sender: Sender, p: Packet): Datagram
    requires p.Of(sender)
  {
    var m := sender(p.index);
    Datagram(
      Frame(session, p.index % TWO_32, p.fragment, |m.chunks| - 1, m.meta),
      m.chunks[p.fragment])
  }

  function DatagramsOf(session: u16, sender: Sender, packets: seq<Packet>): (r: seq<Datagram>)
    requires forall p :: p in packets ==> p.Of(sender)
    ensures |r| == |packets|
    ensures forall k :: 0 <= k < |packets| ==> r[k] == DatagramOf(session, sender, packets[k])
  {
    seq(|packets|, k requires 0 <= k < |packets| => DatagramOf(session, sender, packets[k]))
  }
}
