/** Sequence numbers on the wire: 31 bits, compared around a circle. The other modules number packets with unbounded
    integers; the lemmas here say when the two agree. */
module SeqNo {
  const SEQ_MAX := 0x7FFF_FFFF
  const SEQ_THRESHOLD := 0x3FFF_FFFF
  const SEQ_SPAN := 0x8000_0000

  type Seq31 = x: int | 0 <= x <= SEQ_MAX

  /** The number on the wire of packet x. */
  function Wire(x: int): Seq31 {
    x % SEQ_SPAN
  }

  function Abs(x: int): nat {
    if x < 0 then -x else x
  }

  /** Only the sign of the result means anything. */
  function SeqCmp(a: Seq31, b: Seq31): int {
    if Abs(a - b) < SEQ_THRESHOLD then a - b else b - a
  }

  function SeqOff(a: Seq31, b: Seq31): int {
    if Abs(a - b) < SEQ_THRESHOLD then b - a
    else if a < b then b - a - SEQ_MAX - 1
    else b - a + SEQ_MAX + 1
  }

  function SeqLen(a: Seq31, b: Seq31): int {
    if a <= b then b - a + 1 else b - a + SEQ_MAX + 2
  }

  function IncSeq(a: Seq31): Seq31 {
    if a == SEQ_MAX then 0 else a + 1
  }

  function DecSeq(a: Seq31): Seq31 {
    if a == 0 then SEQ_MAX else a - 1
  }

  function IncSeqBy(a: Seq31, inc: Seq31): Seq31 {
    if SEQ_MAX - a >= inc then a + inc else a - SEQ_MAX + inc - 1
  }

  function DecSeqBy(a: Seq31, dec: Seq31): Seq31 {
    if a < dec then SEQ_MAX - (dec - a) + 1 else a - dec
  }

  function Sign(x: int): int {
    if x < 0 then -1 else if x == 0 then 0 else 1
  }

  lemma WireNear(x: int, d: int)
    requires -SEQ_SPAN < d < SEQ_SPAN
    ensures Wire(x + d) == if Wire(x) + d < 0 then Wire(x) + d + SEQ_SPAN
                           else if Wire(x) + d >= SEQ_SPAN then Wire(x) + d - SEQ_SPAN else Wire(x) + d
  {
  }

  /** Below the threshold, circular distance and comparison are those of the packets themselves. */
  lemma CircularAgrees(x: int, y: int)
    requires Abs(y - x) < SEQ_THRESHOLD
    ensures SeqOff(Wire(x), Wire(y)) == y - x
    ensures Sign(SeqCmp(Wire(x), Wire(y))) == Sign(x - y)
  {
    WireNear(x, y - x);
  }

  /** At the threshold this stops: packet 0 is taken to lie after packet SEQ_THRESHOLD. */
  lemma ThresholdIsTight()
    ensures SeqOff(Wire(0), Wire(SEQ_THRESHOLD)) < 0 < SeqCmp(Wire(0), Wire(SEQ_THRESHOLD))
  {
  }

  /** Stepping agrees everywhere, and the length of a range does up to a whole circle. */
  lemma SteppingAgrees(x: int, n: Seq31)
    ensures IncSeq(Wire(x)) == Wire(x + 1) && DecSeq(Wire(x)) == Wire(x - 1)
    ensures IncSeqBy(Wire(x), n) == Wire(x + n) && DecSeqBy(Wire(x), n) == Wire(x - n)
    ensures SeqLen(Wire(x), Wire(x + n)) == n + 1
  {
    WireNear(x, 1);
    WireNear(x, -1);
    WireNear(x, n);
    WireNear(x, 0 - n);
  }
}
