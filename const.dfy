/**
 * The bit layout and the coordination paths of common/const.go.
 *
 * The shift amounts are the literals of the source, not the values their
 * comments suggest: the sequence is 13 bits wide but the worker field starts at
 * bit 12, and the 3-bit data-center field starts at bit 16, inside the 12-bit
 * worker field. The lemmas at the end of this module state both overlaps.
 */
module Const {
  import opened Bits

  const WorkerIDBits: nat := 12
  const DataCenterIDBits: nat := 3
  const SequenceBits: nat := 13

  /** `int64(-1) ^ (int64(-1) << bits)`: the largest value that fits in `bits` bits. */
  function MaxOf(bits: nat): (r: int)
    requires bits <= 62
    ensures r == Pow2(bits) - 1
  {
    LowMask(bits, ToUint64(-1));
    Pow2Mono(bits, 62);
    Pow2Values();
    ToInt64(Xor(ToUint64(-1), Shl(ToUint64(-1), bits)))
  }

  /** The values of `MaxOf` for the three widths; MaxValues proves them. */
  const MaxWorkerID: int := 4095
  const MaxDataCenterID: int := 7
  const MaxSequence: int := 8191

  /** Left shifts of the timestamp, the data-center ID and the worker ID (uint8 in the source). */
  const TimeLeft: nat := 25
  const DataLeft: nat := 16
  const WorkLeft: nat := 12

  /** The custom epoch, in milliseconds. */
  const Twepoch: int := 15809923200000

  const WorkIdPathPrefix: string := "/IDMaker/Id-"
  const WorkIdPath: string := "/IDMaker"

  /** The three masks are the values the source's constant expressions yield. */
  lemma MaxValues()
    ensures MaxWorkerID == MaxOf(WorkerIDBits)
    ensures MaxDataCenterID == MaxOf(DataCenterIDBits)
    ensures MaxSequence == MaxOf(SequenceBits)
  {
    Pow2Values();
  }

  /**
   * TimeLeft and DataLeft agree with the sums their comments give, but WorkLeft
   * is one less than SequenceBits, which its comment says it equals; the
   * time shift also leaves no room for the data-center bits.
   */
  lemma ShiftAmounts()
    ensures TimeLeft == WorkerIDBits + SequenceBits
    ensures DataLeft == DataCenterIDBits + SequenceBits
    ensures WorkLeft == SequenceBits - 1 && WorkLeft != SequenceBits
    ensures TimeLeft < WorkerIDBits + DataCenterIDBits + SequenceBits
  {
  }

  /** `(x+1) & MaxSequence` is `(x+1)` modulo MaxSequence + 1 for any non-negative x. */
  lemma SequenceMaskIsModulo(x: nat)
    ensures And(x, MaxSequence) == x % (MaxSequence + 1)
    ensures And(x, MaxSequence) <= MaxSequence
  {
    Pow2Values();
    AndLowMask(x, SequenceBits);
  }

  /** The sequence mask and the shifted worker mask share exactly bit 12. */
  lemma SequenceOverlapsWorker()
    ensures And(MaxSequence, Shl(MaxWorkerID, WorkLeft)) == Pow2(12)
  {
    Pow2Values();
    var w := Shl(MaxWorkerID, WorkLeft);
    ShlNoWrap(MaxWorkerID, WorkLeft, 4096);
    SplitAt(AndOp, MaxSequence, w, 12, 4096, 1, 4095, 4095, 0);
    AndOnes(1, 12);
    AndZero(4095);
    assert And(4095, 1) == And(1, 4095) by {
      Unfold(AndOp, 4095, 1);
      Unfold(AndOp, 1, 4095);
      AndZero(2047);
    }
  }

  /** The shifted data-center mask lies inside the shifted worker mask: bits 16 to 18. */
  lemma DataCenterOverlapsWorker()
    ensures And(Shl(MaxWorkerID, WorkLeft), Shl(MaxDataCenterID, DataLeft)) == 7 * Pow2(16)
    ensures Shl(MaxDataCenterID, DataLeft) == 7 * Pow2(16)
  {
    Pow2Values();
    var w, d := Shl(MaxWorkerID, WorkLeft), Shl(MaxDataCenterID, DataLeft);
    ShlNoWrap(MaxWorkerID, WorkLeft, 4096);
    ShlNoWrap(MaxDataCenterID, DataLeft, 65536);
    SplitAt(AndOp, w, d, 16, 65536, 255, 61440, 7, 0);
    AndLowMask(255, 3);
    AndZero(61440);
  }

  lemma PathPrefix()
    ensures WorkIdPathPrefix == WorkIdPath + "/Id-"
  {
  }
}
