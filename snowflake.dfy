/**
 * The ID generator of snowflake.go: the worker record, its clamping
 * constructor `newWorker`, and `nextID`, which advances the (timestamp,
 * sequence) pair and packs it with the node's IDs into a 64-bit ID.
 *
 * The clock is an input: a sequence of successive millisecond readings, the
 * first for the initial reading and the rest for the busy-wait.
 */
module Snowflake {
  import opened Bits
  import opened Const

  /** Field ranges of the worker that the ID layout is stated for. */
  predicate NodeInRange(dc: int, w: int) {
    0 <= dc <= MaxDataCenterID && 0 <= w <= MaxWorkerID
  }

  /**
   * `uint64(((t - Twepoch) << TimeLeft) | (dc << DataLeft) | (w << WorkLeft) | seq)`
   * with every operand an int64 and the shift wrapping at 64 bits.
   */
  function ComposeId(t: int, dc: int, w: int, s: int): nat {
    var time := Shl(ToUint64(t - Twepoch), TimeLeft);
    Or(Or(Or(time, Shl(ToUint64(dc), DataLeft)), Shl(ToUint64(w), WorkLeft)), ToUint64(s))
  }

  /** Every ID fits in 64 bits. */
  lemma ComposeBound(t: int, dc: int, w: int, s: int)
    ensures ComposeId(t, dc, w, s) < Two64
  {
    var time := Shl(ToUint64(t - Twepoch), TimeLeft);
    var a := Or(time, Shl(ToUint64(dc), DataLeft));
    var b := Or(a, Shl(ToUint64(w), WorkLeft));
    OrBelow64(time, Shl(ToUint64(dc), DataLeft));
    OrBelow64(a, Shl(ToUint64(w), WorkLeft));
    OrBelow64(b, ToUint64(s));
  }

  lemma OrBelow64(a: nat, b: nat)
    requires a < Two64 && b < Two64
    ensures Or(a, b) < Two64
  {
    Pow2Values();
    Below(OrOp, a, b, 64, Two64);
  }

  /** The 39 low bits of t - Twepoch: all of the time that survives the 25-bit shift. */
  function TimeBits(t: int): (h: nat)
    ensures h < 0x80_0000_0000
  {
    ToUint64(t - Twepoch) % 0x80_0000_0000
  }

  /** The 25 low bits of an ID: the data-center, worker and sequence fields or-ed together. */
  function NodeBits(dc: nat, w: nat, s: nat): nat {
    Or(Or(dc * 0x1_0000, w * 0x1000), s)
  }

  lemma ShiftedTime(t: int)
    ensures Shl(ToUint64(t - Twepoch), TimeLeft) == TimeBits(t) * 0x200_0000
  {
    Pow2Values();
    var u := ToUint64(t - Twepoch);
    var q, r := u / 0x80_0000_0000, u % 0x80_0000_0000;
    assert u * 0x200_0000 == Two64 * q + r * 0x200_0000;
    DivModUnique(u * 0x200_0000, Two64, q, r * 0x200_0000);
  }

  /** Or-ing below bit 25 leaves the bits above it alone. */
  lemma OrBelow25(x: nat, h: nat, b: nat, c: nat)
    requires x == h * 0x200_0000 + b && b < 0x200_0000 && c < 0x200_0000
    ensures Or(b, c) < 0x200_0000
    ensures Or(x, c) == h * 0x200_0000 + Or(b, c)
  {
    Pow2Values();
    Below(OrOp, b, c, 25, 0x200_0000);
    OrHigh(h, b, c, 25, 0x200_0000);
  }

  lemma ShiftedNode(dc: int, w: int)
    requires NodeInRange(dc, w)
    ensures Shl(ToUint64(dc), DataLeft) == dc * 0x1_0000
    ensures Shl(ToUint64(w), WorkLeft) == w * 0x1000
  {
    Pow2Values();
    ShlNoWrap(dc, DataLeft, 0x1_0000);
    ShlNoWrap(w, WorkLeft, 0x1000);
  }

  lemma NodeBound(dc: nat, w: nat, s: nat)
    requires NodeInRange(dc, w) && s <= MaxSequence
    ensures NodeBits(dc, w, s) < 0x200_0000
  {
    var b := dc * 0x1_0000;
    OrBelow25(b, 0, b, w * 0x1000);
    OrBelow25(Or(b, w * 0x1000), 0, Or(b, w * 0x1000), s);
  }

  /** An ID is its time bits above bit 25 and its node bits below. */
  lemma ComposeSplits(t: int, dc: int, w: int, s: int)
    requires NodeInRange(dc, w) && 0 <= s <= MaxSequence
    ensures NodeBits(dc, w, s) < 0x200_0000
    ensures ComposeId(t, dc, w, s) == TimeBits(t) * 0x200_0000 + NodeBits(dc, w, s)
  {
    var h := TimeBits(t);
    var time := Shl(ToUint64(t - Twepoch), TimeLeft);
    var dd, kk, ss := Shl(ToUint64(dc), DataLeft), Shl(ToUint64(w), WorkLeft), ToUint64(s);
    NodeBound(dc, w, s);
    ShiftedNode(dc, w);
    ShiftedTime(t);
    OrBelow25(time, h, 0, dd);
    OrZero(dd);
    var x := Or(time, dd);
    OrBelow25(x, h, dd, kk);
    var y := Or(x, kk);
    OrBelow25(y, h, Or(dd, kk), ss);
  }

  /** Below bit 12 the node bits hold the sequence alone. */
  lemma NodeLowBits(dc: int, w: int, s: int)
    requires NodeInRange(dc, w) && 0 <= s <= MaxSequence
    ensures NodeBits(dc, w, s) == Or(Or(dc * 0x10, w), s / 0x1000) * 0x1000 + s % 0x1000
  {
    Pow2Values();
    var hi := Or(dc * 0x10, w);
    assert Or(dc * 0x1_0000, w * 0x1000) == hi * 0x1000 by {
      SplitAt(OrOp, dc * 0x1_0000, w * 0x1000, 12, 0x1000, dc * 0x10, 0, w, 0);
      OrZero(0);
    }
    SplitAt(OrOp, hi * 0x1000, s, 12, 0x1000, hi, 0, s / 0x1000, s % 0x1000);
    OrZero(s % 0x1000);
  }

  /** The low 12 bits of an ID are the low 12 bits of the sequence. */
  lemma ComposeLowBits(t: int, dc: int, w: int, s: int)
    requires NodeInRange(dc, w) && 0 <= s <= MaxSequence
    ensures ComposeId(t, dc, w, s) % 0x1000 == s % 0x1000
  {
    ComposeSplits(t, dc, w, s);
    NodeLowBits(dc, w, s);
    var x := Or(Or(dc * 0x10, w), s / 0x1000);
    var id := ComposeId(t, dc, w, s);
    assert id == (TimeBits(t) * 0x2000 + x) * 0x1000 + s % 0x1000;
    DivModUnique(id, 0x1000, TimeBits(t) * 0x2000 + x, s % 0x1000);
  }

  /** With an even worker ID the 13 sequence bits are free: the node bits are the node's part plus the sequence. */
  lemma EvenWorkerNode(dc: int, w: int, s: int)
    requires NodeInRange(dc, w) && w % 2 == 0 && 0 <= s <= MaxSequence
    ensures NodeBits(dc, w, s) == Or(dc * 8, w / 2) * 0x2000 + s
  {
    Pow2Values();
    var d, k := dc * 0x1_0000, w * 0x1000;
    SplitAt(OrOp, d, k, 13, 0x2000, dc * 8, 0, w / 2, 0);
    OrZero(0);
    OrHigh(Or(dc * 8, w / 2), 0, s, 13, 0x2000);
    OrZero(s);
  }

  lemma ModOfPattern(x: int)
    ensures ToUint64(x) % 0x80_0000_0000 == x % 0x80_0000_0000
  {
    var a, r, b := x / 0x80_0000_0000, x % 0x80_0000_0000, x / Two64;
    assert ToUint64(x) == x - Two64 * b;
    assert ToUint64(x) == 0x80_0000_0000 * (a - 0x200_0000 * b) + r;
    DivModUnique(ToUint64(x), 0x80_0000_0000, a - 0x200_0000 * b, r);
  }

  /** Within a window of 2^39 milliseconds the time bits determine the timestamp. */
  lemma TimeBitsWindow(t1: int, t2: int)
    requires 0 <= t2 - t1 < 0x80_0000_0000
    ensures TimeBits(t1) == TimeBits(t2) ==> t1 == t2
  {
    ModOfPattern(t1 - Twepoch);
    ModOfPattern(t2 - Twepoch);
    var a1, a2 := (t1 - Twepoch) / 0x80_0000_0000, (t2 - Twepoch) / 0x80_0000_0000;
    if TimeBits(t1) == TimeBits(t2) {
      assert t2 - t1 == 0x80_0000_0000 * (a2 - a1);
      MulSign(0x80_0000_0000, a2 - a1);
    }
  }

  /**
   * For an even worker ID, two IDs of the node taken less than 2^39 ms apart
   * are equal only if they carry the same timestamp and the same sequence.
   */
  lemma ComposeInjective(t1: int, t2: int, dc: int, w: int, s1: int, s2: int)
    requires NodeInRange(dc, w) && w % 2 == 0
    requires 0 <= s1 <= MaxSequence && 0 <= s2 <= MaxSequence
    requires 0 <= t2 - t1 < 0x80_0000_0000
    ensures ComposeId(t1, dc, w, s1) == ComposeId(t2, dc, w, s2) ==> t1 == t2 && s1 == s2
  {
    ComposeSplits(t1, dc, w, s1);
    ComposeSplits(t2, dc, w, s2);
    EvenWorkerNode(dc, w, s1);
    EvenWorkerNode(dc, w, s2);
    var id1, id2 := ComposeId(t1, dc, w, s1), ComposeId(t2, dc, w, s2);
    if id1 == id2 {
      DivModUnique(id1, 0x200_0000, TimeBits(t1), NodeBits(dc, w, s1));
      DivModUnique(id2, 0x200_0000, TimeBits(t2), NodeBits(dc, w, s2));
      TimeBitsWindow(t1, t2);
    }
  }

  /**
   * For an odd worker ID bit 12 of the ID is set whatever the sequence, so the
   * sequences s and s + 4096 of one millisecond give the same ID.
   */
  lemma OddWorkerCollision(t: int, dc: int, w: int, s: int)
    requires NodeInRange(dc, w) && w % 2 == 1 && 0 <= s < 0x1000
    ensures ComposeId(t, dc, w, s) == ComposeId(t, dc, w, s + 0x1000)
  {
    var y := Or(dc * 0x10, w);
    assert NodeBits(dc, w, s) == y * 0x1000 + s by {
      NodeLowBits(dc, w, s);
      assert s / 0x1000 == 0 && s % 0x1000 == s;
      OrZero(y);
    }
    assert NodeBits(dc, w, s + 0x1000) == y * 0x1000 + s by {
      NodeLowBits(dc, w, s + 0x1000);
      assert (s + 0x1000) / 0x1000 == 1 && (s + 0x1000) % 0x1000 == s;
      OrOdd(dc * 0x10, w);
      OrOne(y);
    }
    ComposeSplits(t, dc, w, s);
    ComposeSplits(t, dc, w, s + 0x1000);
  }

  /**
   * The data-center field lies inside the worker field: data center 1 with
   * worker 0 and data center 0 with worker 16 issue the same IDs.
   */
  lemma WorkerDataCenterCollision(t: int, s: int)
    requires 0 <= s <= MaxSequence
    ensures ComposeId(t, 1, 0, s) == ComposeId(t, 0, 16, s)
  {
    ComposeSplits(t, 1, 0, s);
    ComposeSplits(t, 0, 16, s);
    OrZero(0x1_0000);
  }

  // ----- The worker -----

  /** `(a.0, a.1)` comes strictly before `(b.0, b.1)` in lexicographic order. */
  predicate Before(a: (int, int), b: (int, int)) {
    a.0 < b.0 || (a.0 == b.0 && a.1 < b.1)
  }

  predicate StrictlyIncreasing(h: seq<(int, int)>) {
    forall i, j :: 0 <= i < j < |h| ==> Before(h[i], h[j])
  }

  /** Appending a pair after the last one keeps a history increasing. */
  lemma AppendIncreasing(h: seq<(int, int)>, last: (int, int), x: (int, int))
    requires StrictlyIncreasing(h) && (|h| > 0 ==> h[|h| - 1] == last) && Before(last, x)
    ensures StrictlyIncreasing(h + [x])
  {
    forall i | 0 <= i < |h|
      ensures Before(h[i], x)
    {
      assert i == |h| - 1 || Before(h[i], h[|h| - 1]);
    }
  }

  /** `newWorker` replaces an ID outside [0, max] by max. */
  function Clamp(x: int, max: int): (r: int)
    requires max >= 0
    ensures 0 <= r <= max
    ensures 0 <= x <= max ==> r == x
    ensures x < 0 || x > max ==> r == max
  {
    if x > max || x < 0 then max else x
  }

  /** `(s + 1) & MaxSequence`: the next sequence number, wrapping to 0 after MaxSequence. */
  method NextSequence(s: int) returns (n: int)
    requires 0 <= s <= MaxSequence
    ensures s < MaxSequence ==> n == s + 1
    ensures s == MaxSequence ==> n == 0
  {
    n := And(s + 1, MaxSequence);
    SequenceMaskIsModulo(s + 1);
  }

  datatype IdResult = Generated(id: nat) | ClockBackwards(message: string)

  const BackwardsMessage: string := "time is moving backwards,waiting until"

  class Worker {
    var LastStamp: int
    var WorkerID: int
    var DataCenterID: int
    var Sequence: int
    /** The (timestamp, sequence) pairs of the IDs issued so far, oldest first. */
    ghost var Issued: seq<(int, int)>

    ghost predicate Valid()
      reads this
    {
      && NodeInRange(DataCenterID, WorkerID)
      && 0 <= Sequence <= MaxSequence
      && StrictlyIncreasing(Issued)
      && (forall i :: 0 <= i < |Issued| ==> 0 <= Issued[i].1 <= MaxSequence)
      && (|Issued| > 0 ==> Issued[|Issued| - 1] == (LastStamp, Sequence))
    }

    /** `newWorker(workerID, dataCenterID, zkSrv)`; the server handle is not part of this model. */
    constructor(workerID: int, dataCenterID: int)
      ensures Valid()
      ensures WorkerID == Clamp(workerID, MaxWorkerID)
      ensures DataCenterID == Clamp(dataCenterID, MaxDataCenterID)
      ensures LastStamp == 0 && Sequence == 0 && Issued == []
    {
      WorkerID := Clamp(workerID, MaxWorkerID);
      DataCenterID := Clamp(dataCenterID, MaxDataCenterID);
      LastStamp := 0;
      Sequence := 0;
      Issued := [];
    }

    /**
     * Lines 82-98 of `nextID`: read the clock and advance (LastStamp,
     * Sequence). `clock[0]` is the first reading; on a sequence rollover the
     * busy-wait reads `clock[1]`, `clock[2]`, ... until one exceeds
     * LastStamp, and the caller must supply such a reading. `ok` is false when
     * the clock went backwards; `used` is how many readings were taken.
     */
    method Tick(clock: seq<int>) returns (ok: bool, used: nat)
      requires Valid()
      requires |clock| > 0
      requires clock[0] == LastStamp && Sequence == MaxSequence ==>
        exists k :: 1 <= k < |clock| && clock[k] > LastStamp
      modifies this`LastStamp, this`Sequence, this`Issued
      ensures Valid()
      ensures ok == (clock[0] >= old(LastStamp)) && 1 <= used <= |clock|
      ensures !ok ==>
        used == 1 && LastStamp == old(LastStamp) && Sequence == old(Sequence) && Issued == old(Issued)
      ensures clock[0] == old(LastStamp) && old(Sequence) < MaxSequence ==>
        used == 1 && LastStamp == old(LastStamp) && Sequence == old(Sequence) + 1
      ensures clock[0] == old(LastStamp) && old(Sequence) == MaxSequence ==>
        && used > 1 && LastStamp == clock[used - 1] > old(LastStamp) && Sequence == 0
        && (forall k :: 0 < k < used - 1 ==> clock[k] <= old(LastStamp))
      ensures clock[0] > old(LastStamp) ==> used == 1 && LastStamp == clock[0] && Sequence == 0
      ensures ok ==>
        && Before((old(LastStamp), old(Sequence)), (LastStamp, Sequence))
        && Issued == old(Issued) + [(LastStamp, Sequence)]
    {
      used := 1;
      var timeStamp := clock[0];
      if timeStamp < LastStamp {
        return false, used;
      }
      if LastStamp == timeStamp {
        Sequence := NextSequence(Sequence);
        if Sequence == 0 {
          ghost var later :| 1 <= later < |clock| && clock[later] > LastStamp;
          while timeStamp <= LastStamp
            invariant 1 <= used <= |clock| && timeStamp == clock[used - 1]
            invariant forall k :: 0 < k < used - 1 ==> clock[k] <= LastStamp
            invariant timeStamp <= LastStamp ==> used <= later
            decreases |clock| - used
          {
            timeStamp := clock[used];
            used := used + 1;
          }
        }
      } else {
        Sequence := 0;
      }
      AppendIncreasing(Issued, (LastStamp, old(Sequence)), (timeStamp, Sequence));
      LastStamp := timeStamp;
      Issued := Issued + [(LastStamp, Sequence)];
      ok := true;
    }

    /**
     * `nextID`: advance the state with Tick, then pack the new timestamp and
     * sequence with the node's IDs (lines 99-103).
     */
    method NextID(clock: seq<int>) returns (r: IdResult, used: nat)
      requires Valid()
      requires |clock| > 0
      requires clock[0] == LastStamp && Sequence == MaxSequence ==>
        exists k :: 1 <= k < |clock| && clock[k] > LastStamp
      modifies this`LastStamp, this`Sequence, this`Issued
      ensures Valid()
      ensures 1 <= used <= |clock|
      ensures WorkerID == old(WorkerID) && DataCenterID == old(DataCenterID)
      ensures clock[0] < old(LastStamp) ==>
        && r == ClockBackwards(BackwardsMessage) && used == 1
        && LastStamp == old(LastStamp) && Sequence == old(Sequence) && Issued == old(Issued)
      ensures clock[0] == old(LastStamp) && old(Sequence) < MaxSequence ==>
        used == 1 && LastStamp == old(LastStamp) && Sequence == old(Sequence) + 1
      ensures clock[0] == old(LastStamp) && old(Sequence) == MaxSequence ==>
        && used > 1 && LastStamp == clock[used - 1] > old(LastStamp) && Sequence == 0
        && (forall k :: 0 < k < used - 1 ==> clock[k] <= old(LastStamp))
      ensures clock[0] > old(LastStamp) ==> used == 1 && LastStamp == clock[0] && Sequence == 0
      ensures clock[0] >= old(LastStamp) ==>
        && r == Generated(ComposeId(LastStamp, DataCenterID, WorkerID, Sequence))
        && r.id % 0x1000 == Sequence % 0x1000
        && Before((old(LastStamp), old(Sequence)), (LastStamp, Sequence))
        && Issued == old(Issued) + [(LastStamp, Sequence)]
    {
      var ok;
      ok, used := Tick(clock);
      if !ok {
        r := ClockBackwards(BackwardsMessage);
        return;
      }
      ComposeLowBits(LastStamp, DataCenterID, WorkerID, Sequence);
      r := Generated(ComposeId(LastStamp, DataCenterID, WorkerID, Sequence));
    }
  }

  /**
   * The IDs a worker with an even worker ID has issued are pairwise distinct,
   * as long as its timestamps span less than 2^39 ms.
   */
  lemma IssuedIdsDistinct(issued: seq<(int, int)>, dc: int, w: int)
    requires NodeInRange(dc, w) && w % 2 == 0
    requires StrictlyIncreasing(issued)
    requires forall i :: 0 <= i < |issued| ==> 0 <= issued[i].1 <= MaxSequence
    requires |issued| > 0 ==> issued[|issued| - 1].0 - issued[0].0 < 0x80_0000_0000
    ensures forall i, j :: 0 <= i < j < |issued| ==>
      ComposeId(issued[i].0, dc, w, issued[i].1) != ComposeId(issued[j].0, dc, w, issued[j].1)
  {
    forall i, j | 0 <= i < j < |issued|
      ensures ComposeId(issued[i].0, dc, w, issued[i].1) != ComposeId(issued[j].0, dc, w, issued[j].1)
    {
      var n := |issued| - 1;
      assert issued[0].0 <= issued[i].0 by {
        assert i == 0 || Before(issued[0], issued[i]);
      }
      assert issued[j].0 <= issued[n].0 by {
        assert j == n || Before(issued[j], issued[n]);
      }
      ComposeInjective(issued[i].0, issued[j].0, dc, w, issued[i].1, issued[j].1);
    }
  }

  /** Two successive calls within one millisecond can issue the same ID when the worker ID is odd. */
  lemma OddWorkerRepeats(t: int, dc: int, w: int)
    requires NodeInRange(dc, w) && w % 2 == 1
    ensures StrictlyIncreasing([(t, 1), (t, 0x1001)])
    ensures ComposeId(t, dc, w, 1) == ComposeId(t, dc, w, 0x1001)
  {
    OddWorkerCollision(t, dc, w, 1);
  }
}
