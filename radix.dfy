/** Exact mixed-radix arithmetic behind `AddressBound`: a box with corners
    `low` and `high` (inclusive) has extent `high[d] - low[d] + 1` in
    dimension d, and an address inside it is a number whose least significant
    digit is dimension 0.  All functions peel dimension 0 off the front. */
module Radix {

  /** Every coordinate of `a` lies between the corners, inclusive. */
  predicate Within(a: seq<int>, low: seq<int>, high: seq<int>)
    requires |a| == |low| == |high|
  {
    forall d :: 0 <= d < |a| ==> low[d] <= a[d] <= high[d]
  }

  /** The corners describe a non-empty box. */
  predicate Ordered(low: seq<int>, high: seq<int>)
    requires |low| == |high|
  {
    forall d :: 0 <= d < |low| ==> low[d] <= high[d]
  }

  /** The number of addresses in the box: the product of the extents. */
  function Volume(low: seq<int>, high: seq<int>): int
    requires |low| == |high|
  {
    if |low| == 0 then 1 else (high[0] - low[0] + 1) * Volume(low[1..], high[1..])
  }

  /** The linear index: digit d is `a[d] - low[d]`, weighted by the volume of
      dimensions 0 .. d-1. */
  function Offset(a: seq<int>, low: seq<int>, high: seq<int>): int
    requires |a| == |low| == |high|
  {
    if |a| == 0 then 0
    else (a[0] - low[0]) + (high[0] - low[0] + 1) * Offset(a[1..], low[1..], high[1..])
  }

  /** The address whose digits are those of `i`, dimension 0 first. */
  function Digits(i: nat, low: seq<int>, high: seq<int>): (r: seq<int>)
    requires |low| == |high| && Ordered(low, high)
    ensures |r| == |low|
  {
    if |low| == 0 then []
    else
      var breadth := high[0] - low[0] + 1;
      [i % breadth + low[0]] + Digits(i / breadth, low[1..], high[1..])
  }

  /** What is left of `i` once every dimension has taken its digit. */
  function Carry(i: nat, low: seq<int>, high: seq<int>): nat
    requires |low| == |high| && Ordered(low, high)
  {
    if |low| == 0 then i
    else Carry(i / (high[0] - low[0] + 1), low[1..], high[1..])
  }

  // ---------------------------------------------------------------------
  // Integer facts used below.

  lemma MulMonotone(e: int, a: int, b: int)
    requires e >= 0 && a <= b
    ensures e * a <= e * b
  {
    assert e * b - e * a == e * (b - a);
    if e > 0 && b > a {
      MulPositive(e, b - a);
    }
  }

  lemma MulPositive(a: int, b: int)
    requires a > 0 && b > 0
    ensures a * b > 0
  {
  }

  /** Row-major order: with digits below `w`, comparing `r * w + c` compares
      the rows first and the columns second. */
  lemma RowMajorOrder(ra: int, ca: int, rc: int, cc: int, w: int)
    requires 0 <= ca < w && 0 <= cc < w && 0 <= ra && 0 <= rc
    ensures ra * w + ca < rc * w + cc <==> ra < rc || (ra == rc && ca < cc)
  {
    if ra < rc {
      MulMonotone(w, ra + 1, rc);
    } else if ra > rc {
      MulMonotone(w, rc + 1, ra);
    }
  }

  lemma DivModOfSum(d: int, e: int, q: int)
    requires 0 <= d < e
    ensures (d + e * q) / e == q && (d + e * q) % e == d
  {
    var n := d + e * q;
    var q', r' := n / e, n % e;
    assert n == e * q' + r' && 0 <= r' < e;
    assert e * (q - q') == r' - d;
    if q - q' >= 1 {
      MulMonotone(e, 1, q - q');
      assert false;
    } else if q - q' <= -1 {
      MulMonotone(e, q - q', -1);
      assert false;
    }
  }

  lemma DivBelowIff(i: int, e: int, v: int)
    requires i >= 0 && e > 0
    ensures i / e < v <==> i < e * v
  {
    var q, r := i / e, i % e;
    assert i == e * q + r && 0 <= r < e;
    if q < v {
      MulMonotone(e, q + 1, v);
    } else {
      MulMonotone(e, v, q);
    }
  }

  // ---------------------------------------------------------------------
  // Properties of the encoding.

  /** One digit of `Digits` and one division of `Carry`, peeled off. */
  lemma DigitsStep(i: nat, low: seq<int>, high: seq<int>)
    requires |low| == |high| > 0 && Ordered(low, high)
    ensures Ordered(low[1..], high[1..]) && high[0] - low[0] + 1 > 0
    ensures Digits(i, low, high) ==
      [i % (high[0] - low[0] + 1) + low[0]] + Digits(i / (high[0] - low[0] + 1), low[1..], high[1..])
    ensures Carry(i, low, high) == Carry(i / (high[0] - low[0] + 1), low[1..], high[1..])
  {
    OrderedTail(low, high);
  }

  lemma OrderedTail(low: seq<int>, high: seq<int>)
    requires |low| == |high| > 0 && Ordered(low, high)
    ensures Ordered(low[1..], high[1..])
  {
    forall d | 0 <= d < |low| - 1
      ensures low[1..][d] <= high[1..][d]
    {
      assert low[1..][d] == low[d + 1] && high[1..][d] == high[d + 1];
    }
  }

  lemma WithinTail(a: seq<int>, low: seq<int>, high: seq<int>)
    requires |a| == |low| == |high| > 0 && Within(a, low, high)
    ensures Within(a[1..], low[1..], high[1..])
  {
    forall d | 0 <= d < |a| - 1
      ensures low[1..][d] <= a[1..][d] <= high[1..][d]
    {
      assert a[1..][d] == a[d + 1];
    }
  }

  lemma {:induction false} VolumePositive(low: seq<int>, high: seq<int>)
    requires |low| == |high| && Ordered(low, high)
    ensures Volume(low, high) >= 1
  {
    if |low| > 0 {
      OrderedTail(low, high);
      VolumePositive(low[1..], high[1..]);
      MulPositive(high[0] - low[0] + 1, Volume(low[1..], high[1..]));
    }
  }

  /** An address inside the box has a linear index in [0, Volume). */
  lemma {:induction false} OffsetInRange(a: seq<int>, low: seq<int>, high: seq<int>)
    requires |a| == |low| == |high| && Within(a, low, high)
    ensures 0 <= Offset(a, low, high) < Volume(low, high)
  {
    if |a| > 0 {
      WithinTail(a, low, high);
      OffsetInRange(a[1..], low[1..], high[1..]);
      var e, rest, v := high[0] - low[0] + 1, Offset(a[1..], low[1..], high[1..]), Volume(low[1..], high[1..]);
      MulMonotone(e, 0, rest);
      MulMonotone(e, rest, v - 1);
      assert e * (v - 1) == e * v - e;
    }
  }

  /** The digits of any index lie inside the box. */
  lemma {:induction false} DigitsWithin(i: nat, low: seq<int>, high: seq<int>)
    requires |low| == |high| && Ordered(low, high)
    ensures Within(Digits(i, low, high), low, high)
  {
    if |low| > 0 {
      OrderedTail(low, high);
      var e := high[0] - low[0] + 1;
      DigitsWithin(i / e, low[1..], high[1..]);
      var r := Digits(i, low, high);
      assert r == [i % e + low[0]] + Digits(i / e, low[1..], high[1..]);
      forall d | 0 <= d < |r|
        ensures low[d] <= r[d] <= high[d]
      {
        if d > 0 {
          assert r[d] == Digits(i / e, low[1..], high[1..])[d - 1];
          assert low[1..][d - 1] == low[d] && high[1..][d - 1] == high[d];
        }
      }
    }
  }

  /** Decoding the linear index of an address inside the box gives it back. */
  lemma {:induction false} DigitsOfOffset(a: seq<int>, low: seq<int>, high: seq<int>)
    requires |a| == |low| == |high| && Within(a, low, high)
    ensures Ordered(low, high)
    ensures Offset(a, low, high) >= 0
    ensures Digits(Offset(a, low, high), low, high) == a
  {
    OffsetInRange(a, low, high);
    if |a| > 0 {
      WithinTail(a, low, high);
      OrderedTail(low, high);
      DigitsOfOffset(a[1..], low[1..], high[1..]);
      var e, rest := high[0] - low[0] + 1, Offset(a[1..], low[1..], high[1..]);
      var i := Offset(a, low, high);
      assert i == (a[0] - low[0]) + e * rest;
      DivModOfSum(a[0] - low[0], e, rest);
      DigitsStep(i, low, high);
      assert Digits(i, low, high) == [a[0]] + a[1..];
    }
  }

  /** Encoding the digits of an index below the volume gives it back. */
  lemma {:induction false} OffsetOfDigits(i: nat, low: seq<int>, high: seq<int>)
    requires |low| == |high| && Ordered(low, high) && i < Volume(low, high)
    ensures Offset(Digits(i, low, high), low, high) == i
  {
    if |low| > 0 {
      OrderedTail(low, high);
      var e := high[0] - low[0] + 1;
      DivBelowIff(i, e, Volume(low[1..], high[1..]));
      OffsetOfDigits(i / e, low[1..], high[1..]);
      var r := Digits(i, low, high);
      assert r[1..] == Digits(i / e, low[1..], high[1..]);
    }
  }

  /** The decoding leaves nothing over exactly when the index is below the
      volume. */
  lemma {:induction false} CarryZeroIff(i: nat, low: seq<int>, high: seq<int>)
    requires |low| == |high| && Ordered(low, high)
    ensures Carry(i, low, high) == 0 <==> i < Volume(low, high)
  {
    if |low| > 0 {
      OrderedTail(low, high);
      var e := high[0] - low[0] + 1;
      CarryZeroIff(i / e, low[1..], high[1..]);
      DivBelowIff(i, e, Volume(low[1..], high[1..]));
    }
  }

  /** The smallest corner has linear index 0. */
  lemma {:induction false} OffsetOfLow(low: seq<int>, high: seq<int>)
    requires |low| == |high|
    ensures Offset(low, low, high) == 0
  {
    if |low| > 0 {
      OffsetOfLow(low[1..], high[1..]);
    }
  }

  /** The largest corner has the last linear index. */
  lemma {:induction false} OffsetOfHigh(low: seq<int>, high: seq<int>)
    requires |low| == |high| && Ordered(low, high)
    ensures Offset(high, low, high) == Volume(low, high) - 1
  {
    if |low| > 0 {
      OrderedTail(low, high);
      OffsetOfHigh(low[1..], high[1..]);
    }
  }

  /** The odometer step stays inside the box. */
  lemma WithinAdvance(a: seq<int>, low: seq<int>, high: seq<int>, d: nat)
    requires |a| == |low| == |high| && Within(a, low, high)
    requires d < |a| && a[d] < high[d]
    ensures Within(low[..d] + [a[d] + 1] + a[d + 1..], low, high)
  {
    var next := low[..d] + [a[d] + 1] + a[d + 1..];
    forall j | 0 <= j < |a|
      ensures low[j] <= next[j] <= high[j]
    {
      if j < d {
        assert next[j] == low[j];
      } else if j > d {
        assert next[j] == a[j];
      }
    }
  }

  /** One odometer step: when dimensions 0 .. d-1 sit at their top and
      dimension d does not, resetting the former to `low` and incrementing the
      latter adds one to the linear index. */
  lemma {:induction false} OffsetOfAdvance(a: seq<int>, low: seq<int>, high: seq<int>, d: nat)
    requires |a| == |low| == |high| && Within(a, low, high)
    requires d < |a| && a[d] < high[d]
    requires forall j :: 0 <= j < d ==> a[j] == high[j]
    ensures Within(low[..d] + [a[d] + 1] + a[d + 1..], low, high)
    ensures Offset(low[..d] + [a[d] + 1] + a[d + 1..], low, high) == Offset(a, low, high) + 1
  {
    WithinAdvance(a, low, high, d);
    var next := low[..d] + [a[d] + 1] + a[d + 1..];
    if d == 0 {
      assert next[1..] == a[1..];
    } else {
      WithinTail(a, low, high);
      OffsetOfAdvance(a[1..], low[1..], high[1..], d - 1);
      var tail := low[1..][..d - 1] + [a[1..][d - 1] + 1] + a[1..][d..];
      assert next[0] == low[0] && next[1..] == tail;
      var breadth, rest := high[0] - low[0] + 1, Offset(a[1..], low[1..], high[1..]);
      assert Offset(next, low, high) == breadth * Offset(tail, low[1..], high[1..]);
      assert breadth * (rest + 1) == breadth * rest + breadth;
    }
  }
}
