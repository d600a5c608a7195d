/**
 * Counters of the decoding and output processes: FrameNum, picture order counts (clause 8.2.1 of
 * H.264) and the display key of output pictures.
 */
module Counters {
  import opened Arithmetic

  // Two numbers of the same residue in a range of m numbers are equal.
  lemma ModUnique(a: int, b: int, lo: int, m: int)
    requires m > 0 && lo <= a < lo + m && lo <= b < lo + m && a % m == b % m
    ensures a == b
  {
    var p, q := a / m, b / m;
    assert a == p * m + a % m && b == q * m + b % m;
    if p < q {
      MulLess(p, q, m);
    } else if q < p {
      MulLess(q, p, m);
    }
  }

  lemma ModShift(x: int, k: int, m: int)
    requires m > 0
    ensures (x + k * m) % m == x % m
  {
    var a, b := x / m, x % m;
    assert x + k * m == (a + k) * m + b;
    Digits(x + k * m, a + k, b, m);
  }

  /** derive_FrameNum; maxFrameNum is a power of two, so that & with the mask is the residue. */
  function DeriveFrameNum(prev: int, frameNum: nat, maxFrameNum: nat, field: bool): int
    requires maxFrameNum > 0
  {
    if field && (frameNum - prev) % maxFrameNum == 0 then prev
    else prev + 1 + (frameNum - prev - 1) % maxFrameNum
  }

  /** FrameNum is the first number after prev that has frame_num as residue, or prev itself for a second field. */
  lemma FrameNumUnique(prev: int, frameNum: nat, maxFrameNum: nat, field: bool, n: int)
    requires frameNum < maxFrameNum
    ensures n == DeriveFrameNum(prev, frameNum, maxFrameNum, field) <==>
            n % maxFrameNum == frameNum
            && if field && prev % maxFrameNum == frameNum then n == prev else prev < n <= prev + maxFrameNum
  {
    var m := maxFrameNum;
    SameResidue(frameNum, prev, m);
    Digits(frameNum, 0, frameNum, m);
    var d := (frameNum - prev - 1) % m;
    SameResidue(prev + 1 + d, frameNum, m);
    var k := (frameNum - prev - 1) / m;
    assert frameNum - prev - 1 == k * m + d;
    ModShift(prev + 1 + d, k, m);
    if n % m == frameNum && prev < n <= prev + m {
      ModUnique(n, prev + 1 + d, prev + 1, m);
    }
  }

  lemma SameResidue(a: int, b: int, m: int)
    requires m > 0
    ensures (a - b) % m == 0 <==> a % m == b % m
  {
    var p, q := a / m, b / m;
    assert a == p * m + a % m && b == q * m + b % m;
    assert a - b == (p - q) * m + (a % m - b % m);
    if a % m >= b % m {
      Digits(a - b, p - q, a % m - b % m, m);
    } else {
      assert a - b == (p - q - 1) * m + (m + a % m - b % m);
      Digits(a - b, p - q - 1, m + a % m - b % m, m);
    }
  }

  /** FrameNumOffset + frame_num of 8.2.1.2, from those of the previous picture. */
  lemma FrameNumOffset(offset: int, prevFrameNum: nat, frameNum: nat, maxFrameNum: nat, k: int)
    requires prevFrameNum < maxFrameNum && frameNum < maxFrameNum && frameNum != prevFrameNum
    requires offset == k * maxFrameNum
    ensures DeriveFrameNum(offset + prevFrameNum, frameNum, maxFrameNum, false) ==
            frameNum + if prevFrameNum > frameNum then offset + maxFrameNum else offset
  {
    var n := frameNum + if prevFrameNum > frameNum then offset + maxFrameNum else offset;
    var j := if prevFrameNum > frameNum then k + 1 else k;
    assert (k + 1) * maxFrameNum == offset + maxFrameNum;
    ModShift(frameNum, j, maxFrameNum);
    Digits(frameNum, 0, frameNum, maxFrameNum);
    FrameNumUnique(offset + prevFrameNum, frameNum, maxFrameNum, false, n);
  }

  /** FrameNumWrap (8-27) of a reference, from the frame_num of it and of the current picture. */
  function FrameNumWrap(frameNum: nat, current: nat, maxFrameNum: nat): int {
    if frameNum > current then frameNum - maxFrameNum else frameNum
  }

  /** Picture numbers of short-term references compare as the unwrapped frame numbers the code keeps. */
  lemma PicNumUnwrapped(ref: int, current: int, maxFrameNum: nat, difference: nat)
    requires maxFrameNum > 0 && current - maxFrameNum < ref <= current
    ensures FrameNumWrap(ref % maxFrameNum, current % maxFrameNum,
        maxFrameNum) == current % maxFrameNum - (difference + 1)
            <==> ref == current - 1 - difference
  {
    var m := maxFrameNum;
    var p, q := ref / m, current / m;
    assert ref == p * m + ref % m && current == q * m + current % m;
    if p < q {
      MulLess(p, q, m);
      if p + 1 < q {
        MulLess(p + 1, q, m);
      }
      assert (p + 1) * m == p * m + m;
    } else if q < p {
      MulLess(q, p, m);
    }
  }

  /** (int)(x << shift) >> shift, with k = 1 << shift and m * k = 2^32. */
  function SignExtend(x: int, k: nat): int
    requires k > 0
  {
    Int32(x * k) / k
  }

  /** Sign extension finds the number of the same residue around zero. */
  lemma SignExtends(x: int, m: nat, k: nat)
    requires m > 0 && k > 0 && m % 2 == 0 && m * k == 0x1_0000_0000
    ensures -(m / 2) <= SignExtend(x, k) < m / 2 && SignExtend(x, k) % m == x % m
  {
    var h, q, r := m / 2, x / m, x % m;
    assert x == q * m + r;
    assert x * k == q * (m * k) + r * k;
    MulLess(r, m, k);
    Digits(x * k, q, r * k, m * k);
    assert 2 * (h * k) == m * k;
    if r < h {
      MulLess(r, h, k);
      Digits(r * k, r, 0, k);
      Digits(r, 0, r, m);
    } else {
      if r > h {
        MulLess(h, r, k);
      }
      assert r * k - m * k == (r - m) * k;
      Digits(r * k - m * k, r - m, 0, k);
      Digits(r - m, -1, r, m);
    }
  }

  /** Type 0, with m = MaxPicOrderCntLsb: the previous picture order count plus the lsb difference. */
  function PocType0(prev: int, lsb: nat, k: nat): int
    requires k > 0
  {
    Int32(prev + SignExtend(lsb - prev, k))
  }

  /** 8.2.1.1, from the msb and lsb parts of the previous picture order count. */
  function SpecPocType0(prevMsb: int, prevLsb: nat, lsb: nat, m: nat): int {
    var msb :=
      if lsb < prevLsb && prevLsb - lsb >= m / 2 then prevMsb + m
      else if lsb > prevLsb && lsb - prevLsb > m / 2 then prevMsb - m
      else prevMsb;
    msb + lsb
  }

  // What the code computes before the wrap to 32 bits: the count of this lsb in [prev - m/2, prev + m/2).
  lemma PocType0Unique(prev: int, lsb: nat, m: nat, k: nat, n: int)
    requires lsb < m && k > 0 && m % 2 == 0 && m * k == 0x1_0000_0000
    ensures n == prev + SignExtend(lsb - prev, k) <==> n % m == lsb && prev - m / 2 <= n < prev + m / 2
  {
    SignExtends(lsb - prev, m, k);
    var v := SignExtend(lsb - prev, k);
    assert v % m == (lsb - prev) % m;
    SameResidue(v, lsb - prev, m);
    SameResidue(prev + v, lsb, m);
    assert v - (lsb - prev) == prev + v - lsb;
    Digits(lsb, 0, lsb, m);
    if n % m == lsb && prev - m / 2 <= n < prev + m / 2 {
      ModUnique(n, prev + v, prev - m / 2, m);
    }
  }

  lemma Int32Differ(a: int, b: int)
    requires a != b && -0x1_0000_0000 < a - b < 0x1_0000_0000
    ensures Int32(a) != Int32(b)
  {
    SameResidue(a, b, 0x1_0000_0000);
  }

  /** The code meets 8.2.1.1 unless the lsb moved by exactly half of MaxPicOrderCntLsb. */
  lemma PocType0MeetsSpec(prevMsb: int, prevLsb: nat, lsb: nat, m: nat, k: nat, j: int)
    requires prevLsb < m && lsb < m <= 0x1_0000 && k > 0 && m % 2 == 0 && m * k == 0x1_0000_0000
    requires prevMsb == j * m
    ensures PocType0(prevMsb + prevLsb, lsb, k) == Int32(SpecPocType0(prevMsb, prevLsb, lsb, m)) <==>
            lsb - prevLsb != m / 2 && prevLsb - lsb != m / 2
  {
    var prev, spec := prevMsb + prevLsb, SpecPocType0(prevMsb, prevLsb, lsb, m);
    var code := prev + SignExtend(lsb - prev, k);
    assert (j + 1) * m == prevMsb + m && (j - 1) * m == prevMsb - m;
    ModShift(lsb, j, m);
    ModShift(lsb, j + 1, m);
    ModShift(lsb, j - 1, m);
    Digits(lsb, 0, lsb, m);
    PocType0Unique(prev, lsb, m, k, spec);
    PocType0Unique(prev, lsb, m, k, code);
    if spec != code {
      Int32Differ(code, spec);
    }
  }

  lemma PocType0Half()
    ensures PocType0(0, 8, 0x1000_0000) == -8 && SpecPocType0(0, 0, 8, 16) == 8
  {
  }

  // Sum of the first n of the offsets, repeated cyclically: expectedDelta of n reference frames.
  function CycleSum(offsets: seq<int>, n: nat): int
    requires offsets != []
  {
    if n == 0 then 0 else CycleSum(offsets, n - 1) + offsets[(n - 1) % |offsets|]
  }

  // Sum of the first n offsets.
  function Prefix(offsets: seq<int>, n: nat): int
    requires n <= |offsets|
  {
    if n == 0 then 0 else Prefix(offsets, n - 1) + offsets[n - 1]
  }

  /** The loop of the SPS parser: prefix sums, stored in 16 bits. */
  method PicOrderCntDeltas(offsets: seq<int>) returns (deltas: array<int>)
    ensures fresh(deltas) && deltas[..] == Deltas(offsets)
  {
    deltas := new int[|offsets|];
    var delta := 0;
    for i := 0 to |offsets|
      invariant delta == Prefix(offsets, i)
      invariant forall j | 0 <= j < i :: deltas[j] == Deltas(offsets)[j]
    {
      delta := delta + offsets[i];
      deltas[i] := Int16(delta);
    }
  }

  function Deltas(offsets: seq<int>): (d: seq<int>)
    ensures |d| == |offsets|
  {
    seq(|offsets|, i requires 0 <= i < |offsets| => Int16(Prefix(offsets, i + 1)))
  }

  /** Expected picture order count of 8.2.1.2 by quotient and remainder, before the wrap to 32 bits. */
  function ExpectedType1(deltas: seq<int>, absFrameNum: int): int
    requires deltas != []
  {
    if absFrameNum > 0 then
      (absFrameNum - 1) / |deltas| * deltas[|deltas| - 1] + deltas[(absFrameNum - 1) % |deltas|]
    else 0
  }

  lemma {:induction false} CycleSumQuotient(offsets: seq<int>, n: nat)
    requires offsets != []
    ensures CycleSum(offsets, n) ==
            n / |offsets| * Prefix(offsets, |offsets|) + Prefix(offsets, n % |offsets|)
  {
    var m, p := |offsets|, Prefix(offsets, |offsets|);
    if n == 0 {
      assert 0 / m * p == 0;
    } else {
      CycleSumQuotient(offsets, n - 1);
      var q, r := (n - 1) / m, (n - 1) % m;
      assert n - 1 == q * m + r;
      if r + 1 < m {
        Digits(n, q, r + 1, m);
      } else {
        assert n == (q + 1) * m;
        Digits(n, q + 1, 0, m);
        assert (q + 1) * p == q * p + p;
      }
    }
  }

  // As CycleSumQuotient, with the last offset kept apart.
  lemma CycleSumLast(offsets: seq<int>, n: nat)
    requires offsets != []
    ensures CycleSum(offsets, n + 1) ==
            n / |offsets| * Prefix(offsets, |offsets|) + Prefix(offsets, n % |offsets| + 1)
  {
    CycleSumQuotient(offsets, n);
  }

  lemma Stored(offsets: seq<int>, i: nat)
    requires i < |offsets| && Fits16(Prefix(offsets, i + 1))
    ensures Deltas(offsets)[i] == Prefix(offsets, i + 1)
  {
  }

  /** The code's form is the sum of absFrameNum offsets, as long as the prefix sums keep within 16 bits. */
  lemma CycleSumDeltas(offsets: seq<int>, absFrameNum: nat)
    requires offsets != [] && forall i | 0 <= i <= |offsets| :: Fits16(Prefix(offsets, i))
    ensures ExpectedType1(Deltas(offsets), absFrameNum) == CycleSum(offsets, absFrameNum)
  {
    if absFrameNum > 0 {
      var m := |offsets|;
      CycleSumLast(offsets, absFrameNum - 1);
      Stored(offsets, m - 1);
      Stored(offsets, (absFrameNum - 1) % m);
    }
  }

  predicate Fits16(x: int) {
    -0x8000 <= x < 0x8000
  }

  lemma {:induction false} PrefixBound(offsets: seq<int>, n: nat)
    requires n <= |offsets| && forall i | 0 <= i < |offsets| :: -65535 <= offsets[i] <= 65535
    ensures -65535 * n <= Prefix(offsets, n) <= 65535 * n
  {
    if n > 0 {
      PrefixBound(offsets, n - 1);
    }
  }

  lemma {:induction false} CycleSumPrefix(offsets: seq<int>, n: nat)
    requires offsets != [] && n <= |offsets|
    ensures CycleSum(offsets, n) == Prefix(offsets, n)
  {
    if n > 0 {
      CycleSumPrefix(offsets, n - 1);
      Digits(n - 1, 0, n - 1, |offsets|);
    }
  }

  /**
   * The picture order counts of type 1 are those of 8.2.1.2, modulo 2^32 and for every FrameNum,
   * exactly if all prefix sums of the offsets fit the 16 bits they are stored in.
   */
  lemma PocType1MeetsSpec(offsets: seq<int>)
    requires 0 < |offsets| <= 255 && forall i | 0 <= i < |offsets| :: -65535 <= offsets[i] <= 65535
    ensures (forall n: nat :: Int32(ExpectedType1(Deltas(offsets), n)) == Int32(CycleSum(offsets, n)))
            <==> forall i | 0 <= i <= |offsets| :: Fits16(Prefix(offsets, i))
  {
    if forall i | 0 <= i <= |offsets| :: Fits16(Prefix(offsets, i)) {
      forall n: nat
        ensures Int32(ExpectedType1(Deltas(offsets), n)) == Int32(CycleSum(offsets, n))
      {
        CycleSumDeltas(offsets, n);
      }
    } else {
      var i :| 0 <= i <= |offsets| && !Fits16(Prefix(offsets, i));
      FirstCycle(offsets, i);
    }
  }

  /** A cycle of one offset that does not fit: the count of FrameNum 1 is off by 2^16. */
  lemma PocType1Wraps()
    ensures ExpectedType1(Deltas([32768]), 1) == -32768 && CycleSum([32768], 1) == 32768
  {
    assert Prefix([32768], 1) == 32768;
  }

  // Within the first cycle, the code yields the stored prefix sum.
  lemma FirstCycle(offsets: seq<int>, i: nat)
    requires i <= |offsets| <= 255 && forall i | 0 <= i < |offsets| :: -65535 <= offsets[i] <= 65535
    requires !Fits16(Prefix(offsets, i))
    ensures offsets != [] && Int32(ExpectedType1(Deltas(offsets), i)) != Int32(CycleSum(offsets, i))
  {
    var m := |offsets|;
    Digits(i - 1, 0, i - 1, m);
    assert 0 * Deltas(offsets)[m - 1] == 0;
    assert ExpectedType1(Deltas(offsets), i) == Int16(Prefix(offsets, i));
    CycleSumPrefix(offsets, i);
    PrefixBound(offsets, i);
    Int32Differ(Int16(Prefix(offsets, i)), Prefix(offsets, i));
  }

  /** The display key of output pictures, for one view. */
  class OutputPoc {
    var base: int
    var prev: int
    var have: bool

    constructor ()
      ensures !have && base == 0
    {
      base, prev, have := 0, 0, false;
    }

    /** edge264mvc_unwrap_output_poc, with span 0 if picture order counts have no lsb part. */
    method Unwrap(raw: int, span: nat) returns (value: int)
      modifies this
      ensures have && prev == value && base == value - raw
      ensures value == Key(old(base), if old(have) then Some(old(prev)) else None, raw, span)
    {
      value := base + raw;
      if have {
        if value <= prev {
          var deficit := prev - value + 1;
          base := base + if span > 0 then (deficit + span - 1) / span * span else deficit;
          value := base + raw;
        }
      } else {
        have := true;
      }
      prev := value;
    }
  }

  datatype Option<T> = None | Some(value: T)

  function Step(span: nat): (s: nat)
    ensures s > 0
  {
    if span > 0 then span else 1
  }

  // The raw count from base on, moved past the previous key by whole spans.
  function Key(base: int, prev: Option<int>, raw: int, span: nat): int {
    var s := Step(span);
    if prev.None? || base + raw > prev.value then base + raw
    else base + raw + (prev.value - base - raw + 1 + s - 1) / s * s
  }

  ghost predicate Candidate(base: int, prev: Option<int>, raw: int, span: nat, v: int) {
    v >= base + raw && (v - base - raw) % Step(span) == 0 && (prev.Some? ==> v > prev.value)
  }

  /** The key is the least number from base + raw on, by spans, that exceeds the previous key. */
  lemma KeyIsLeast(base: int, prev: Option<int>, raw: int, span: nat, v: int)
    ensures Candidate(base, prev, raw, span, Key(base, prev, raw, span))
    ensures Candidate(base, prev, raw, span, v) ==> Key(base, prev, raw, span) <= v
  {
    var s, x := Step(span), base + raw;
    if prev.None? || x > prev.value {
      Digits(0, 0, 0, s);
    } else {
      var deficit := prev.value - x + 1;
      var q := (deficit + s - 1) / s;
      assert deficit + s - 1 == q * s + (deficit + s - 1) % s;
      Digits(q * s, q, 0, s);
      if Candidate(base, prev, raw, span, v) {
        var p := (v - x) / s;
        assert v - x == p * s;
        if p < q {
          MulLess(p, q, s);
        } else if q < p {
          MulLess(q, p, s);
        }
      }
    }
  }

  // The keys of a run of outputs (raw count and span of each).
  function Keys(base: int, prev: Option<int>, run: seq<(int, nat)>): (keys: seq<int>)
    ensures |keys| == |run|
    decreases |run|
  {
    if run == [] then []
    else
      var v := Key(base, prev, run[0].0, run[0].1);
      [v] + Keys(v - run[0].0, Some(v), run[1..])
  }

  /** Whatever the raw counts and spans are, the keys increase strictly. */
  lemma {:induction false} KeysIncrease(base: int, prev: Option<int>, run: seq<(int, nat)>, i: nat, j: nat)
    requires i < j < |run|
    ensures Keys(base, prev, run)[i] < Keys(base, prev, run)[j]
    decreases |run|
  {
    var v := Key(base, prev, run[0].0, run[0].1);
    if i > 0 {
      KeysIncrease(v - run[0].0, Some(v), run[1..], i - 1, j - 1);
    } else {
      KeysAbove(v - run[0].0, v, run[1..], j - 1);
    }
  }

  lemma {:induction false} KeysAbove(base: int, prev: int, run: seq<(int, nat)>, j: nat)
    requires j < |run|
    ensures prev < Keys(base, Some(prev), run)[j]
    decreases |run|
  {
    var v := Key(base, Some(prev), run[0].0, run[0].1);
    KeyIsLeast(base, Some(prev), run[0].0, run[0].1, v);
    if j > 0 {
      KeysAbove(v - run[0].0, v, run[1..], j - 1);
    }
  }
}
