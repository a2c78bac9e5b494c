/** 32-bit sequence number arithmetic. */
module Serial {
  import opened Wire

  /** Template diff<T>, max being the largest value of T. Branches as in the source, so that
      no intermediate value leaves the type. */
  function DiffWide(lhs: int, rhs: int, max: nat): int
    requires 0 <= lhs <= max && 0 <= rhs <= max
  {
    if lhs >= rhs then lhs - rhs else lhs + (max - rhs) + 1
  }

  /** In every width, diff is subtraction modulo the width, computed without overflow. */
  lemma DiffIsModular(lhs: int, rhs: int, max: nat)
    requires 0 <= lhs <= max && 0 <= rhs <= max
    ensures 0 <= DiffWide(lhs, rhs, max) <= max
    ensures DiffWide(lhs, rhs, max) == (lhs - rhs) % (max + 1)
    ensures lhs < rhs ==> 0 <= max - rhs && lhs + (max - rhs) <= max
  {
    if lhs < rhs {
      ModulusBelowZero(lhs - rhs, max + 1);
    } else {
      ModulusInRange(lhs - rhs, max + 1);
    }
  }

  lemma ModulusInRange(x: int, m: int)
    requires 0 <= x < m
    ensures x % m == x
  {
  }

  lemma ModulusBelowZero(x: int, m: int)
    requires -m <= x < 0
    ensures x % m == x + m
  {
    assert x == m * (x / m) + x % m;
  }

  /** Distance of a sequence number from the next expected one. */
  function Distance(seqno: u32, next: u32): (d: u32)
    ensures d == (seqno - next) % TWO_32
  {
    DiffIsModular(seqno, next, TWO_32 - 1);
    DiffWide(seqno, next, TWO_32 - 1)
  }

  const THRESHOLD: int := 3 * 0x4000_0000

  predicate IsReplay(seqno: u32, next: u32) {
    Distance(seqno, next) > THRESHOLD
  }

  function Plus(seqno: u32, n: int): u32 {
    (seqno + n) % TWO_32
  }

  /** The index the receiver believes a frame to have, given the index it expects next. */
  function Unwrap(next: int, seqno: u32): int {
    var d := Distance(seqno, next % TWO_32);
    if IsReplay(seqno, next % TWO_32) then next + d - TWO_32 else next + d
  }

  /** How far an index may be from the expected one for the 32 bits to identify it. */
  predicate InReach(next: int, index: int) {
    next - 0x4000_0000 < index <= next + THRESHOLD
  }

  lemma DistanceOfIndices(index: int, next: int)
    ensures Distance(index % TWO_32, next % TWO_32) == (index - next) % TWO_32
  {
    assert (index % TWO_32 - next % TWO_32) % TWO_32 == (index - next) % TWO_32;
  }

  /** Unwrapping inverts the truncation to 32 bits exactly for the indices in reach. */
  lemma UnwrapExact(next: int, index: int)
    ensures Unwrap(next, index % TWO_32) == index <==> InReach(next, index)
    ensures InReach(next, index) ==> (IsReplay(index % TWO_32, next % TWO_32) <==> index < next)
    ensures InReach(next, index) && next <= index ==> Distance(index % TWO_32, next % TWO_32) == index - next
  {
    DistanceOfIndices(index, next);
  }

  /** Consecutive window indices use consecutive sequence numbers and slots, across the wrap. */
  lemma PlusOfIndex(next: int, n: int)
    ensures Plus(next % TWO_32, n) == (next + n) % TWO_32
    ensures (next % TWO_32) % MAX_BUFFERS == next % MAX_BUFFERS
  {
  }

  /** Moving the expected number forward shortens the distance by as much. */
  lemma DistanceAfterSkip(seqno: u32, next: u32, k: nat)
    requires k <= Distance(seqno, next)
    ensures Distance(seqno, Plus(next, k)) == Distance(seqno, next) - k
  {
  }

  /** The slot of a sequence number is that of its index, across the wrap. */
  lemma SlotOfSeqno(i: int)
    ensures (i % TWO_32) % MAX_BUFFERS == i % MAX_BUFFERS
  {
  }

  lemma MultipleOfSixteen(x: int, k: int)
    ensures (x + 16 * k) % 16 == x % 16
  {
  }

  lemma DistanceOfNext(next: u32, n: nat)
    requires n < TWO_32
    ensures Distance(Plus(next, n), next) == n
  {
  }

  lemma DistanceInverse(seqno: u32, next: u32)
    ensures Plus(next, Distance(seqno, next)) == seqno
  {
  }
}
