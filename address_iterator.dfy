/** The second odometer: lower bounds inclusive, upper bounds exclusive, and a
    start one step before the first address (dimension 0 decremented). */
module ExclusiveIteration {
  import opened Wrappers
  import Radix

  /** Every dimension has at least one coordinate: `lower[d] < upper[d]`. */
  predicate Spans(lower: seq<int>, upper: seq<int>)
  {
    |lower| == |upper| >= 1 && forall d :: 0 <= d < |lower| ==> lower[d] < upper[d]
  }

  /** The largest coordinate below each exclusive upper bound. */
  function LastInside(upper: seq<int>): (r: seq<int>)
    ensures |r| == |upper|
    ensures forall d :: 0 <= d < |upper| ==> r[d] == upper[d] - 1
  {
    seq(|upper|, d requires 0 <= d < |upper| => upper[d] - 1)
  }

  /** The product of `upper[d] - lower[d]` over the dimensions. */
  function Count(lower: seq<int>, upper: seq<int>): int
    requires |lower| == |upper|
  {
    if |lower| == 0 then 1 else (upper[0] - lower[0]) * Count(lower[1..], upper[1..])
  }

  lemma {:induction false} CountIsVolume(lower: seq<int>, upper: seq<int>)
    requires |lower| == |upper|
    ensures Count(lower, upper) == Radix.Volume(lower, LastInside(upper))
  {
    if |lower| > 0 {
      assert LastInside(upper)[1..] == LastInside(upper[1..]);
      CountIsVolume(lower[1..], upper[1..]);
    }
  }

  /** The position `new` starts from. */
  function BeforeStart(lower: seq<int>): (r: seq<int>)
    requires |lower| >= 1
    ensures |r| == |lower|
  {
    lower[0 := lower[0] - 1]
  }

  class AddressIterator {
    const lowerBoundsInclusive: seq<int>
    const upperBoundsExclusive: seq<int>
    const currentPosition: array<int>

    ghost predicate Valid()
      reads this, currentPosition
    {
      Spans(lowerBoundsInclusive, upperBoundsExclusive) &&
      currentPosition.Length == |lowerBoundsInclusive| &&
      (currentPosition[..] == BeforeStart(lowerBoundsInclusive) ||
       Radix.Within(currentPosition[..], lowerBoundsInclusive, LastInside(upperBoundsExclusive)))
    }

    /** The linear index of a position inside the box. */
    ghost function Index(p: seq<int>): int
      requires |p| == |lowerBoundsInclusive| == |upperBoundsExclusive|
    {
      Radix.Offset(p, lowerBoundsInclusive, LastInside(upperBoundsExclusive))
    }

    /** `new`: the current position is a copy of the lower bounds with
        dimension 0 lowered by one. */
    constructor (lowerBoundsInclusive: seq<int>, upperBoundsExclusive: seq<int>)
      requires Spans(lowerBoundsInclusive, upperBoundsExclusive)
      ensures Valid() && fresh(currentPosition)
      ensures this.lowerBoundsInclusive == lowerBoundsInclusive
      ensures this.upperBoundsExclusive == upperBoundsExclusive
      ensures currentPosition[..] == BeforeStart(lowerBoundsInclusive)
    {
      this.lowerBoundsInclusive := lowerBoundsInclusive;
      this.upperBoundsExclusive := upperBoundsExclusive;
      var copy := new int[|lowerBoundsInclusive|](i requires 0 <= i < |lowerBoundsInclusive| => lowerBoundsInclusive[i]);
      copy[0] := copy[0] - 1;
      currentPosition := copy;
    }

    /** `next`: the lowest dimension that can still move up is incremented and
        every dimension below it goes back to its lower bound.  From the start
        position that yields the lower bounds; from any other position the one
        with the next linear index.  When no dimension can move, every
        coordinate has been reset to its lower bound and the result is
        `None`. */
    method Next() returns (r: Option<seq<int>>)
      requires Valid()
      modifies currentPosition
      ensures Valid()
      ensures old(currentPosition[..]) == BeforeStart(lowerBoundsInclusive) ==>
        r == Some(lowerBoundsInclusive) && currentPosition[..] == lowerBoundsInclusive
      ensures old(currentPosition[..]) != BeforeStart(lowerBoundsInclusive) ==>
        0 <= Index(old(currentPosition[..])) < Count(lowerBoundsInclusive, upperBoundsExclusive)
      ensures (old(currentPosition[..]) != BeforeStart(lowerBoundsInclusive) &&
               Index(old(currentPosition[..])) + 1 < Count(lowerBoundsInclusive, upperBoundsExclusive)) ==>
          r == Some(currentPosition[..]) &&
          currentPosition[..] == Radix.Digits(Index(old(currentPosition[..])) + 1,
                                              lowerBoundsInclusive, LastInside(upperBoundsExclusive))
      ensures (old(currentPosition[..]) != BeforeStart(lowerBoundsInclusive) &&
               Index(old(currentPosition[..])) + 1 == Count(lowerBoundsInclusive, upperBoundsExclusive)) ==>
          r == None && currentPosition[..] == lowerBoundsInclusive
    {
      ghost var was := currentPosition[..];
      ghost var low, upper := lowerBoundsInclusive, upperBoundsExclusive;
      ghost var pos := was;
      CountIsVolume(low, upper);
      var dimensionIndex := 0;
      while dimensionIndex < currentPosition.Length
        invariant 0 <= dimensionIndex <= currentPosition.Length && currentPosition[..] == pos
        invariant forall j :: 0 <= j < dimensionIndex ==> pos[j] == low[j] && was[j] + 1 >= upper[j]
        invariant forall j :: dimensionIndex <= j < |pos| ==> pos[j] == was[j]
      {
        if currentPosition[dimensionIndex] + 1 < upperBoundsExclusive[dimensionIndex] {
          currentPosition[dimensionIndex] := currentPosition[dimensionIndex] + 1;
          pos := pos[dimensionIndex := pos[dimensionIndex] + 1];
          if was == BeforeStart(low) {
            FirstStep(low, upper, was, pos, dimensionIndex);
          } else {
            LaterStep(low, upper, was, pos, dimensionIndex);
          }
          return Some(currentPosition[..]);
        } else {
          currentPosition[dimensionIndex] := lowerBoundsInclusive[dimensionIndex];
          pos := pos[dimensionIndex := low[dimensionIndex]];
        }
        dimensionIndex := dimensionIndex + 1;
      }
      ExclusiveEnd(low, upper, was, pos);
      return None;
    }
  }

  /** The start position lies just outside the box, whose smallest corner is
      the lower bounds. */
  lemma StartIsOutside(lower: seq<int>, upper: seq<int>)
    requires Spans(lower, upper)
    ensures !Radix.Within(BeforeStart(lower), lower, LastInside(upper))
    ensures Radix.Within(lower, lower, LastInside(upper))
  {
  }

  /** From the start position the first step stops at dimension 0 and
      reaches the lower bounds. */
  lemma FirstStep(lower: seq<int>, upper: seq<int>, was: seq<int>, now: seq<int>, d: nat)
    requires Spans(lower, upper) && |was| == |now| == |lower| && d < |lower|
    requires was == BeforeStart(lower)
    requires was[d] + 1 < upper[d] && now[d] == was[d] + 1
    requires forall j :: 0 <= j < d ==> was[j] + 1 >= upper[j]
    requires forall j :: d < j < |lower| ==> now[j] == was[j]
    ensures now == lower && Radix.Within(now, lower, LastInside(upper))
  {
    assert d == 0;
  }

  /** From a position inside the box, a step that stops at dimension d
      reaches the next linear index. */
  lemma LaterStep(lower: seq<int>, upper: seq<int>, was: seq<int>, now: seq<int>, d: nat)
    requires Spans(lower, upper) && |was| == |now| == |lower| && d < |lower|
    requires Radix.Within(was, lower, LastInside(upper))
    requires was[d] + 1 < upper[d] && now[d] == was[d] + 1
    requires forall j :: 0 <= j < d ==> now[j] == lower[j] && was[j] + 1 >= upper[j]
    requires forall j :: d < j < |lower| ==> now[j] == was[j]
    ensures Radix.Within(now, lower, LastInside(upper))
    ensures 0 <= Radix.Offset(was, lower, LastInside(upper))
    ensures Radix.Offset(was, lower, LastInside(upper)) + 1 < Radix.Volume(lower, LastInside(upper))
    ensures now == Radix.Digits(Radix.Offset(was, lower, LastInside(upper)) + 1, lower, LastInside(upper))
  {
    var top := LastInside(upper);
    forall j | 0 <= j < d
      ensures was[j] == top[j]
    {
      assert lower[j] <= was[j] <= top[j];
    }
    StepInside(lower, top, was, now, d);
  }

  /** The same step, stated over the inclusive top corner. */
  lemma StepInside(lower: seq<int>, top: seq<int>, was: seq<int>, now: seq<int>, d: nat)
    requires |was| == |now| == |lower| == |top| && d < |lower|
    requires Radix.Within(was, lower, top)
    requires was[d] < top[d] && now[d] == was[d] + 1
    requires forall j :: 0 <= j < d ==> now[j] == lower[j] && was[j] == top[j]
    requires forall j :: d < j < |lower| ==> now[j] == was[j]
    ensures Radix.Within(now, lower, top)
    ensures 0 <= Radix.Offset(was, lower, top)
    ensures Radix.Offset(was, lower, top) + 1 < Radix.Volume(lower, top)
    ensures now == Radix.Digits(Radix.Offset(was, lower, top) + 1, lower, top)
  {
    Radix.OffsetOfAdvance(was, lower, top, d);
    assert now == lower[..d] + [was[d] + 1] + was[d + 1..];
    Radix.OffsetInRange(was, lower, top);
    Radix.DigitsOfOffset(now, lower, top);
    Radix.OffsetInRange(now, lower, top);
  }

  /** When every dimension has been reset, the position was the last one. */
  lemma ExclusiveEnd(lower: seq<int>, upper: seq<int>, was: seq<int>, now: seq<int>)
    requires Spans(lower, upper) && |was| == |now| == |lower|
    requires was == BeforeStart(lower) || Radix.Within(was, lower, LastInside(upper))
    requires forall j :: 0 <= j < |lower| ==> now[j] == lower[j] && was[j] + 1 >= upper[j]
    ensures was != BeforeStart(lower) && now == lower
    ensures Radix.Within(now, lower, LastInside(upper))
    ensures 0 <= Radix.Offset(was, lower, LastInside(upper))
    ensures Radix.Offset(was, lower, LastInside(upper)) + 1 == Radix.Volume(lower, LastInside(upper))
  {
    var top := LastInside(upper);
    assert BeforeStart(lower)[0] == lower[0] - 1 < was[0];
    assert forall j :: 0 <= j < |lower| ==> was[j] == top[j];
    assert was == top;
    assert now == lower;
    Radix.OffsetInRange(was, lower, top);
    Radix.OffsetOfHigh(lower, top);
  }

  /** Running a fresh iterator until it reports the end yields exactly
      `Count(lower, upper)` distinct positions, each with
      `lower[d] <= p[d] < upper[d]`, dimension 0 varying fastest: the k-th has
      linear index k. */
  method CollectPositions(lower: seq<int>, upper: seq<int>) returns (out: seq<seq<int>>)
    requires Spans(lower, upper)
    ensures |out| == Count(lower, upper)
    ensures forall k :: 0 <= k < |out| ==> (|out[k]| == |lower| &&
      forall d :: 0 <= d < |lower| ==> lower[d] <= out[k][d] < upper[d])
    ensures forall k :: 0 <= k < |out| ==> Radix.Offset(out[k], lower, LastInside(upper)) == k
    ensures forall i, j :: 0 <= i < j < |out| ==> out[i] != out[j]
  {
    var top := LastInside(upper);
    CountIsVolume(lower, upper);
    assert Radix.Ordered(lower, top);
    Radix.VolumePositive(lower, top);
    var it := new AddressIterator(lower, upper);
    out := [];
    var r := it.Next();
    Radix.OffsetOfLow(lower, top);
    while r.Some?
      invariant it.Valid() && it.lowerBoundsInclusive == lower && it.upperBoundsExclusive == upper
      invariant r.Some? ==> (|out| < Count(lower, upper) && r.value == it.currentPosition[..] &&
        Radix.Within(r.value, lower, top) && Radix.Offset(r.value, lower, top) == |out|)
      invariant r.None? ==> |out| == Count(lower, upper)
      invariant forall k :: 0 <= k < |out| ==> (|out[k]| == |lower| &&
        Radix.Within(out[k], lower, top) && Radix.Offset(out[k], lower, top) == k)
      decreases Count(lower, upper) - |out|
    {
      out := out + [r.value];
      r := it.Next();
      if r.Some? {
        Radix.DigitsWithin(|out|, lower, top);
        Radix.OffsetOfDigits(|out|, lower, top);
      }
    }
    forall i, j | 0 <= i < j < |out|
      ensures out[i] != out[j]
    {
      assert Radix.Offset(out[i], lower, top) != Radix.Offset(out[j], lower, top);
    }
  }
}
