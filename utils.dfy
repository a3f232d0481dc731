/**
 * The helpers of utils/utils.go that the ID allocator uses, and the decimal
 * rendering of Go's `strconv.Itoa` that builds its node names.
 */
module Utils {
  import opened Bits

  /** What `RandomNum` does: return a number, or panic inside `rand.Intn`. */
  datatype Drawn = Value(n: int) | Panic

  /**
   * `RandomNum(min, max)` on Go's 64-bit `int`. `draw` is the value
   * `rand.Intn(max - min)` would produce; it is consulted only when the range
   * is not degenerate. When `max - min` does not fit in an `int`, the
   * subtraction wraps to a negative bound and `rand.Intn` panics.
   */
  function RandomNum(min: int, max: int, draw: int): (r: Drawn)
    requires IsInt64(min) && IsInt64(max)
    requires min < max && max != 0 && max - min < 0x8000_0000_0000_0000 ==> 0 <= draw < max - min
    ensures min >= max || max == 0 ==> r == Value(max)
    ensures min < max && max != 0 && max - min >= 0x8000_0000_0000_0000 ==> r == Panic
    ensures min < max && max != 0 && max - min < 0x8000_0000_0000_0000 ==>
      r.Value? && min <= r.n < max && r.n - min == draw
  {
    if min >= max || max == 0 then Value(max)
    else
      var bound := ToInt64(ToUint64(max - min));
      if bound <= 0 then Panic else Value(draw + min)
  }

  /** The subtraction `max - min` wraps to a non-positive `int` exactly when it is at least 2^63. */
  lemma RandomNumBound(min: int, max: int)
    requires IsInt64(min) && IsInt64(max) && min < max
    ensures ToInt64(ToUint64(max - min)) <= 0 <==> max - min >= 0x8000_0000_0000_0000
  {
    var d := max - min;
    assert 0 < d < Two64;
    DivModUnique(d, Two64, 0, d);
  }

  /** RandomNum is onto its range: every value of [min, max) is produced by exactly one draw. */
  lemma RandomNumOnto(min: int, max: int, v: int)
    requires IsInt64(min) && IsInt64(max) && max - min < 0x8000_0000_0000_0000
    requires min < max && max != 0 && min <= v < max
    ensures RandomNum(min, max, v - min) == Value(v)
    ensures forall d :: 0 <= d < max - min && RandomNum(min, max, d) == Value(v) ==> d == v - min
  {
  }

  // ----- Int64ToBytes -----

  type Byte = b: int | 0 <= b < 256

  function Pow256(n: nat): (r: nat)
    ensures r >= 1
  {
    if n == 0 then 1 else 256 * Pow256(n - 1)
  }

  lemma Pow256Eight()
    ensures Pow256(7) == 0x100_0000_0000_0000 && Pow256(8) == Two64
  {
  }

  /** The `n` low-order bytes of `u`, most significant first. */
  function BigEndian(u: nat, n: nat): (bs: seq<Byte>)
    ensures |bs| == n
  {
    if n == 0 then [] else BigEndian(u / 256, n - 1) + [u % 256]
  }

  /** The number a byte string spells, most significant byte first. */
  function FromBigEndian(bs: seq<Byte>): (u: nat)
    ensures u < Pow256(|bs|)
  {
    if bs == [] then 0
    else
      var u := FromBigEndian(bs[..|bs| - 1]);
      assert u * 256 <= (Pow256(|bs| - 1) - 1) * 256;
      u * 256 + bs[|bs| - 1]
  }

  /** `Int64ToBytes(n)`: `binary.Write` of an int64 in big-endian order, i.e. its two's-complement pattern. */
  function Int64ToBytes(n: int): (bs: seq<Byte>)
    requires IsInt64(n)
    ensures |bs| == 8
  {
    BigEndian(ToUint64(n), 8)
  }

  /** The reverse conversion, `binary.BigEndian.Uint64` read back as an int64. */
  function BytesToInt64(bs: seq<Byte>): (n: int)
    requires |bs| == 8
    ensures IsInt64(n)
  {
    Pow256Eight();
    ToInt64(FromBigEndian(bs))
  }

  lemma DivDiv(u: nat, a: nat, b: nat)
    requires a > 0 && b > 0
    ensures u / a / b == u / (a * b)
  {
    var q, r := u / a, u % a;
    var q2, r2 := q / b, q % b;
    assert u == a * q + r;
    assert q == b * q2 + r2;
    assert a * q == (a * b) * q2 + a * r2 by {
      Distribute(a, b, q2, r2);
    }
    assert a * r2 + r < a * b by {
      assert a * r2 <= a * (b - 1) by {
        MulMono(a, r2, b - 1);
      }
    }
    DivModUnique(u, a * b, q2, a * r2 + r);
  }

  lemma DivBelow(u: nat, d: nat, p: nat)
    requires d > 0 && u < d * p
    ensures u / d < p
  {
    var q := u / d;
    if q >= p {
      MulMono(d, p, q);
    }
  }

  lemma Distribute(a: int, b: int, q: int, r: int)
    ensures a * (b * q + r) == (a * b) * q + a * r
  {
  }

  lemma MulMono(a: nat, x: int, y: int)
    requires x <= y
    ensures a * x <= a * y
  {
  }

  lemma {:induction false} DecodeEncode(u: nat, n: nat)
    requires u < Pow256(n)
    ensures FromBigEndian(BigEndian(u, n)) == u
  {
    if n > 0 {
      var q, r := u / 256, u % 256;
      assert q < Pow256(n - 1) by {
        DivBelow(u, 256, Pow256(n - 1));
      }
      var bs := BigEndian(u, n);
      assert bs == BigEndian(q, n - 1) + [r];
      assert bs[..n - 1] == BigEndian(q, n - 1);
      DecodeEncode(q, n - 1);
      assert FromBigEndian(bs) == FromBigEndian(bs[..n - 1]) * 256 + r;
    }
  }

  lemma {:induction false} EncodeDecode(bs: seq<Byte>)
    ensures BigEndian(FromBigEndian(bs), |bs|) == bs
  {
    if bs != [] {
      var n := |bs|;
      var u := FromBigEndian(bs);
      EncodeDecode(bs[..n - 1]);
      DivModUnique(u, 256, FromBigEndian(bs[..n - 1]), bs[n - 1]);
      assert bs == bs[..n - 1] + [bs[n - 1]];
    }
  }

  /** Byte `i` of the encoding is digit `n - 1 - i` of `u` in base 256. */
  lemma {:induction false} BigEndianAt(u: nat, n: nat, i: nat)
    requires i < n
    ensures BigEndian(u, n)[i] == u / Pow256(n - 1 - i) % 256
  {
    if i < n - 1 {
      BigEndianAt(u / 256, n - 1, i);
      DivDiv(u, 256, Pow256(n - 2 - i));
    }
  }

  /** Decoding the eight bytes gives back the int64. */
  lemma Int64RoundTrip(n: int)
    requires IsInt64(n)
    ensures BytesToInt64(Int64ToBytes(n)) == n
  {
    Pow256Eight();
    DecodeEncode(ToUint64(n), 8);
    Int64Pattern(n);
  }

  /** Every 8-byte string is the encoding of exactly one int64. */
  lemma BytesRoundTrip(bs: seq<Byte>)
    requires |bs| == 8
    ensures Int64ToBytes(BytesToInt64(bs)) == bs
  {
    Pow256Eight();
    EncodeDecode(bs);
  }

  /** The first byte is the most significant one: it carries the sign bit. */
  lemma SignByteFirst(n: int)
    requires IsInt64(n)
    ensures Int64ToBytes(n)[0] == ToUint64(n) / 0x100_0000_0000_0000
    ensures Int64ToBytes(n)[0] >= 128 <==> n < 0
  {
    var u := ToUint64(n);
    var q := u / 0x100_0000_0000_0000;
    assert Int64ToBytes(n)[0] == q % 256 by {
      Pow256Eight();
      BigEndianAt(u, 8, 0);
    }
    assert q < 256 by {
      DivBelow(u, 0x100_0000_0000_0000, 256);
    }
    assert u == 0x100_0000_0000_0000 * q + u % 0x100_0000_0000_0000;
    assert n < 0 <==> u >= 0x8000_0000_0000_0000;
  }

  // ----- SpliceString -----

  /** The concatenation of `strs` in order. */
  function Concat(strs: seq<string>): string {
    if strs == [] then "" else Concat(strs[..|strs| - 1]) + strs[|strs| - 1]
  }

  /** The sum of the lengths of `strs`, counted from the front. */
  function TotalLength(strs: seq<string>): nat {
    if strs == [] then 0 else |strs[0]| + TotalLength(strs[1..])
  }

  lemma {:induction false} ConcatAppend(a: seq<string>, b: seq<string>)
    ensures Concat(a + b) == Concat(a) + Concat(b)
  {
    if b == [] {
      assert a + b == a;
    } else {
      var b0 := b[..|b| - 1];
      assert (a + b)[..|a + b| - 1] == a + b0;
      ConcatAppend(a, b0);
    }
  }

  lemma {:induction false} ConcatLength(strs: seq<string>)
    ensures |Concat(strs)| == TotalLength(strs)
  {
    if strs != [] {
      ConcatLength(strs[1..]);
      ConcatAppend([strs[0]], strs[1..]);
      assert [strs[0]] + strs[1..] == strs;
      assert Concat([strs[0]]) == strs[0] by {
        assert [strs[0]][..0] == [];
      }
    }
  }

  /** The two- and three-argument forms used by the allocator. */
  lemma ConcatFew(a: string, b: string, c: string)
    ensures Concat([a, b]) == a + b
    ensures Concat([a, b, c]) == a + b + c
  {
    assert [a][..0] == [];
    assert Concat([a]) == a;
    assert [a, b][..1] == [a];
    assert [a, b, c][..2] == [a, b];
  }

  /** `SpliceString(strs...)`: writes each argument into a buffer in turn. */
  method SpliceString(strs: seq<string>) returns (s: string)
    ensures s == Concat(strs)
    ensures |s| == TotalLength(strs)
    ensures strs == [] ==> s == ""
  {
    var buffer := "";
    var i := 0;
    while i < |strs|
      invariant 0 <= i <= |strs|
      invariant buffer == Concat(strs[..i])
    {
      assert strs[..i + 1][..i] == strs[..i];
      buffer := buffer + strs[i];
      i := i + 1;
    }
    assert strs[..i] == strs;
    s := buffer;
    ConcatLength(strs);
  }

  // ----- strconv.Itoa on non-negative integers -----

  function DigitChar(d: nat): (c: char)
    requires d < 10
    ensures '0' <= c <= '9' && c as int - '0' as int == d
  {
    "0123456789"[d]
  }

  /** `strconv.Itoa(n)` for `n >= 0`: decimal digits, no leading zero. */
  function Itoa(n: nat): (s: string)
    ensures |s| >= 1 && (|s| > 1 ==> s[0] != '0')
    ensures forall i :: 0 <= i < |s| ==> '0' <= s[i] <= '9'
  {
    if n < 10 then [DigitChar(n)] else Itoa(n / 10) + [DigitChar(n % 10)]
  }

  /** The value of a string of decimal digits. */
  function ParseDecimal(s: string): nat
    requires forall i :: 0 <= i < |s| ==> '0' <= s[i] <= '9'
  {
    if s == [] then 0 else ParseDecimal(s[..|s| - 1]) * 10 + (s[|s| - 1] as int - '0' as int)
  }

  lemma {:induction false} ParseItoa(n: nat)
    ensures ParseDecimal(Itoa(n)) == n
  {
    if n >= 10 {
      var s := Itoa(n);
      assert s[..|s| - 1] == Itoa(n / 10);
      ParseItoa(n / 10);
    }
  }

  /** Different numbers get different names. */
  lemma ItoaInjective(a: nat, b: nat)
    ensures Itoa(a) == Itoa(b) ==> a == b
  {
    ParseItoa(a);
    ParseItoa(b);
  }
}
