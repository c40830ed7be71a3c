/** Byte counters of one peer and the differences between two samples
    (internal/traffic/traffic.go). */
module Traffic {

  /** One value per channel. `rx` is what the server received, so the client's
      upload; `tx` is what the server sent, so the client's download. The empty
      `reads` clauses stop the verifier from unfolding sums of literals. */
  datatype Bytes = Bytes(rx: int, tx: int) {

    function Plus(other: Bytes): Bytes
      reads {}
    {
      Bytes(rx + other.rx, tx + other.tx)
    }

    function Minus(other: Bytes): Bytes
      reads {}
    {
      Bytes(rx - other.rx, tx - other.tx)
    }

    predicate AtMost(other: Bytes) {
      rx <= other.rx && tx <= other.tx
    }

    predicate NonNegative() {
      0 <= rx && 0 <= tx
    }
  }

  const ZERO := Bytes(0, 0)

  lemma PlusZero(a: Bytes)
    ensures a.Plus(ZERO) == a == ZERO.Plus(a) && a.Minus(ZERO) == a && a.Minus(a) == ZERO
  {
  }

  lemma PlusAssociative(a: Bytes, b: Bytes, c: Bytes)
    ensures a.Plus(b).Plus(c) == a.Plus(b.Plus(c))
  {
  }

  /** Growth of one counter; a counter that went down was reset in between. */
  function Delta(prev: int, current: int): int {
    if current >= prev then current - prev else current
  }

  function ClientUploadDelta(prev: int, current: int): int {
    Delta(prev, current)
  }

  function ClientDownloadDelta(prev: int, current: int): int {
    Delta(prev, current)
  }

  /** Either counter went down between the two samples. */
  predicate Dropped(prev: Bytes, cur: Bytes) {
    cur.rx < prev.rx || cur.tx < prev.tx
  }

  /** Reference reading of two consecutive samples: the growth, or everything
      since the reset on both channels as soon as one counter went down. */
  function JointDelta(prev: Bytes, cur: Bytes): Bytes {
    if Dropped(prev, cur) then cur else cur.Minus(prev)
  }

  function Max(a: int, b: int): int {
    if a >= b then a else b
  }

  function MaxBytes(a: Bytes, b: Bytes): Bytes {
    Bytes(Max(a.rx, b.rx), Max(a.tx, b.tx))
  }

  ghost predicate AllNonNegative(samples: seq<Bytes>) {
    forall i :: 0 <= i < |samples| ==> samples[i].NonNegative()
  }

  /** The plain accumulator: the joint deltas of a run of samples, the first
      one taken against `prev`. */
  function SumDeltas(prev: Bytes, samples: seq<Bytes>): Bytes
    decreases |samples|
  {
    if samples == [] then ZERO
    else JointDelta(prev, samples[0]).Plus(SumDeltas(samples[0], samples[1..]))
  }
}
