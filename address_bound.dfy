/** `AddressBound` (an inclusive axis-aligned box) and its odometer
    `AddressIterator`. */
module AddressBounds {
  import opened Wrappers
  import Radix
  import MatrixAddresses

  datatype BoundError = IndexTooLarge

  /** The box between `smallestPossiblePosition` and `largestPossiblePosition`,
      both inclusive.  The datatype constructor is `AddressBound::new`. */
  datatype AddressBound = AddressBound(smallestPossiblePosition: seq<int>, largestPossiblePosition: seq<int>) {

    /** Both corners have the address type's dimension count, which is at
        least one. */
    predicate WellFormed()
    {
      |smallestPossiblePosition| == |largestPossiblePosition| >= 1
    }

    function Dimensions(): nat
    {
      |smallestPossiblePosition|
    }

    /** No dimension is inverted. */
    predicate NonEmpty()
    {
      WellFormed() && Radix.Ordered(smallestPossiblePosition, largestPossiblePosition)
    }

    /** What `contains_address` decides. */
    predicate Contains(address: seq<int>)
      requires WellFormed() && |address| == Dimensions()
    {
      Radix.Within(address, smallestPossiblePosition, largestPossiblePosition)
    }

    /** The number of addresses in the box.  The crate never computes it;
        its tests compare the iterator's length with it. */
    function Volume(): int
      requires WellFormed()
    {
      Radix.Volume(smallestPossiblePosition, largestPossiblePosition)
    }

    /** The linear index `index_address` computes for an address inside. */
    function Offset(address: seq<int>): int
      requires WellFormed() && |address| == Dimensions()
    {
      Radix.Offset(address, smallestPossiblePosition, largestPossiblePosition)
    }

    /** The address `get_address_from_index` decodes from a linear index. */
    function AddressAt(index: nat): (a: seq<int>)
      requires NonEmpty()
      ensures |a| == Dimensions() && Contains(a)
    {
      Radix.DigitsWithin(index, smallestPossiblePosition, largestPossiblePosition);
      Radix.Digits(index, smallestPossiblePosition, largestPossiblePosition)
    }
  }

  // -----------------------------------------------------------------------
  // The bijection between the box and [0, Volume()).

  lemma OffsetRoundTrip(b: AddressBound, a: seq<int>)
    requires b.WellFormed() && |a| == b.Dimensions() && b.Contains(a)
    ensures b.NonEmpty()
    ensures 0 <= b.Offset(a) < b.Volume()
    ensures b.AddressAt(b.Offset(a)) == a
  {
    Radix.OffsetInRange(a, b.smallestPossiblePosition, b.largestPossiblePosition);
    Radix.DigitsOfOffset(a, b.smallestPossiblePosition, b.largestPossiblePosition);
  }

  lemma AddressAtRoundTrip(b: AddressBound, i: nat)
    requires b.NonEmpty() && i < b.Volume()
    ensures b.Contains(b.AddressAt(i))
    ensures b.Offset(b.AddressAt(i)) == i
  {
    Radix.DigitsWithin(i, b.smallestPossiblePosition, b.largestPossiblePosition);
    Radix.OffsetOfDigits(i, b.smallestPossiblePosition, b.largestPossiblePosition);
  }

  /** The smallest corner is the address with linear index 0. */
  lemma SmallestIsFirst(b: AddressBound)
    requires b.NonEmpty()
    ensures b.Volume() >= 1
    ensures b.Offset(b.smallestPossiblePosition) == 0
    ensures b.AddressAt(0) == b.smallestPossiblePosition
  {
    Radix.VolumePositive(b.smallestPossiblePosition, b.largestPossiblePosition);
    Radix.OffsetOfLow(b.smallestPossiblePosition, b.largestPossiblePosition);
    OffsetRoundTrip(b, b.smallestPossiblePosition);
  }

  /** The largest corner is the address with the last linear index. */
  lemma LargestIsLast(b: AddressBound)
    requires b.NonEmpty()
    ensures b.Volume() >= 1
    ensures b.Offset(b.largestPossiblePosition) == b.Volume() - 1
    ensures b.AddressAt(b.Volume() - 1) == b.largestPossiblePosition
  {
    Radix.OffsetOfHigh(b.smallestPossiblePosition, b.largestPossiblePosition);
    OffsetRoundTrip(b, b.largestPossiblePosition);
  }

  /** Distinct addresses inside the box have distinct linear indices, and
      distinct indices decode to distinct addresses. */
  lemma OffsetInjective(b: AddressBound, a: seq<int>, c: seq<int>)
    requires b.WellFormed() && |a| == |c| == b.Dimensions() && b.Contains(a) && b.Contains(c)
    ensures b.Offset(a) == b.Offset(c) <==> a == c
  {
    OffsetRoundTrip(b, a);
    OffsetRoundTrip(b, c);
  }

  lemma AddressAtInjective(b: AddressBound, i: nat, j: nat)
    requires b.NonEmpty() && i < b.Volume() && j < b.Volume()
    ensures b.AddressAt(i) == b.AddressAt(j) <==> i == j
  {
    AddressAtRoundTrip(b, i);
    AddressAtRoundTrip(b, j);
  }

  // -----------------------------------------------------------------------
  // The three loops of `AddressBound`.

  /** `contains_address`: a scan over the dimensions that stops at the first
      coordinate outside its range. */
  method ContainsAddress(b: AddressBound, address: seq<int>) returns (r: bool)
    requires b.WellFormed() && |address| == b.Dimensions()
    ensures r <==> forall d :: 0 <= d < |address| ==>
      b.smallestPossiblePosition[d] <= address[d] <= b.largestPossiblePosition[d]
  {
    var d := 0;
    while d < b.Dimensions()
      invariant 0 <= d <= b.Dimensions()
      invariant forall j :: 0 <= j < d ==>
        b.smallestPossiblePosition[j] <= address[j] <= b.largestPossiblePosition[j]
    {
      if address[d] < b.smallestPossiblePosition[d] || address[d] > b.largestPossiblePosition[d] {
        return false;
      }
      d := d + 1;
    }
    return true;
  }

  /** `index_address`: `None` outside the box; inside, the accumulator runs
      from the last dimension down to dimension 0. */
  method IndexAddress(b: AddressBound, address: seq<int>) returns (r: Option<nat>)
    requires b.WellFormed() && |address| == b.Dimensions()
    ensures r.None? <==> !b.Contains(address)
    ensures r.Some? ==> r.value == b.Offset(address) && r.value < b.Volume()
    ensures r.Some? ==> b.NonEmpty() && b.AddressAt(r.value) == address
  {
    var inside := ContainsAddress(b, address);
    if !inside {
      return None;
    }
    var low, high := b.smallestPossiblePosition, b.largestPossiblePosition;
    var out: int := 0;
    var d := b.Dimensions();
    while d > 0
      invariant 0 <= d <= b.Dimensions()
      invariant out == Radix.Offset(address[d..], low[d..], high[d..])
    {
      d := d - 1;
      assert address[d..][1..] == address[d + 1..];
      assert low[d..][1..] == low[d + 1..] && high[d..][1..] == high[d + 1..];
      out := out * (high[d] - low[d] + 1);
      out := out + (address[d] - low[d]);
    }
    assert address[0..] == address && low[0..] == low && high[0..] == high;
    OffsetRoundTrip(b, address);
    return Some(out);
  }

  /** The state of `get_address_from_index`'s loop after d dimensions: the
      digits taken so far, followed by the digits `rest` still holds, are
      those of `index`, and so is the leftover. */
  ghost predicate Decoding(b: AddressBound, values: seq<int>, rest: nat, index: nat, d: nat)
    requires b.NonEmpty()
  {
    var low, high := b.smallestPossiblePosition, b.largestPossiblePosition;
    d <= b.Dimensions() && |values| == d && Radix.Ordered(low[d..], high[d..]) &&
    values + Radix.Digits(rest, low[d..], high[d..]) == Radix.Digits(index, low, high) &&
    Radix.Carry(rest, low[d..], high[d..]) == Radix.Carry(index, low, high)
  }

  /** Before the loop no digit has been taken. */
  lemma DigitLoopStart(b: AddressBound, index: nat)
    requires b.NonEmpty()
    ensures Decoding(b, [], index, index, 0)
  {
    assert b.smallestPossiblePosition[0..] == b.smallestPossiblePosition;
    assert b.largestPossiblePosition[0..] == b.largestPossiblePosition;
  }

  /** One pass of the loop takes the next digit. */
  lemma DigitLoopStep(b: AddressBound, values: seq<int>, rest: nat, index: nat, d: nat)
    requires b.NonEmpty() && d < b.Dimensions() && Decoding(b, values, rest, index, d)
    ensures b.largestPossiblePosition[d] - b.smallestPossiblePosition[d] + 1 > 0
    ensures Decoding(b,
      values + [rest % (b.largestPossiblePosition[d] - b.smallestPossiblePosition[d] + 1) + b.smallestPossiblePosition[d]],
      rest / (b.largestPossiblePosition[d] - b.smallestPossiblePosition[d] + 1), index, d + 1)
  {
    var low, high := b.smallestPossiblePosition, b.largestPossiblePosition;
    assert low[d..][1..] == low[d + 1..] && high[d..][1..] == high[d + 1..];
    Radix.DigitsStep(rest, low[d..], high[d..]);
  }

  /** Once every dimension has taken its digit, the digits are the decoded
      address and the leftover is zero exactly when the index was in range. */
  lemma DigitLoopDone(b: AddressBound, values: seq<int>, rest: nat, index: nat)
    requires b.NonEmpty() && Decoding(b, values, rest, index, b.Dimensions())
    ensures values == b.AddressAt(index)
    ensures rest == 0 <==> index < b.Volume()
    ensures index < b.Volume() ==> b.Contains(values) && b.Offset(values) == index
  {
    var low, high := b.smallestPossiblePosition, b.largestPossiblePosition;
    assert low[b.Dimensions()..] == [] && high[b.Dimensions()..] == [];
    Radix.CarryZeroIff(index, low, high);
    if index < b.Volume() {
      AddressAtRoundTrip(b, index);
    }
  }

  /** `get_address_from_index`: digits are taken from dimension 0 upward,
      and a non-zero remainder means the index was too large. */
  method GetAddressFromIndex(b: AddressBound, index: nat) returns (r: Result<seq<int>, BoundError>)
    requires b.NonEmpty()
    ensures r.Err? <==> index >= b.Volume()
    ensures r.Ok? ==> r.value == b.AddressAt(index)
    ensures r.Ok? ==> b.Contains(r.value) && b.Offset(r.value) == index
  {
    var low, high := b.smallestPossiblePosition, b.largestPossiblePosition;
    var rest: nat := index;
    var values: seq<int> := [];
    var d := 0;
    DigitLoopStart(b, index);
    while d < b.Dimensions()
      invariant Decoding(b, values, rest, index, d)
    {
      DigitLoopStep(b, values, rest, index, d);
      var breadth := high[d] - low[d] + 1;
      var value := rest % breadth + low[d];
      values := values + [value];
      rest := rest / breadth;
      d := d + 1;
    }
    DigitLoopDone(b, values, rest, index);
    if rest != 0 {
      return Err(IndexTooLarge);
    }
    return Ok(values);
  }

  // -----------------------------------------------------------------------
  // The odometer.

  /** Where the odometer is left after it reports the end: every dimension
      but the last is back at its lower bound, the last stays at its top. */
  function Rewound(b: AddressBound): (a: seq<int>)
    requires b.WellFormed()
    ensures |a| == b.Dimensions()
  {
    b.smallestPossiblePosition[..b.Dimensions() - 1] + [b.largestPossiblePosition[b.Dimensions() - 1]]
  }

  /** `AddressBound`'s iterator: `abacus` is empty before the first call to
      `Next` and holds the last address handed out afterwards. */
  class AddressIterator {
    const bounds: AddressBound
    var abacus: seq<int>

    ghost predicate Valid()
      reads this
    {
      bounds.NonEmpty() &&
      (abacus == [] || (|abacus| == bounds.Dimensions() && bounds.Contains(abacus)))
    }

    /** `iter`: a fresh iterator over a copy of the bound. */
    constructor (bounds: AddressBound)
      requires bounds.NonEmpty()
      ensures Valid()
      ensures this.bounds == bounds && abacus == []
    {
      this.bounds := bounds;
      abacus := [];
    }

    /** `next`.  The first call yields the smallest corner.  Every later call
        yields the address with the next linear index, and the call made on
        the largest corner yields `None`.  The iterator is not fused: it is
        left at `Rewound(bounds)`, and a further call goes on from there; it
        yields again unless every dimension below the last has extent 1. */
    method Next() returns (r: Option<seq<int>>)
      requires Valid()
      modifies this
      ensures Valid()
      ensures old(abacus) == [] ==>
        r == Some(bounds.smallestPossiblePosition) && abacus == bounds.smallestPossiblePosition
      ensures old(abacus) != [] ==> 0 <= bounds.Offset(old(abacus)) < bounds.Volume()
      ensures old(abacus) != [] && bounds.Offset(old(abacus)) + 1 < bounds.Volume() ==>
        r == Some(abacus) && abacus == bounds.AddressAt(bounds.Offset(old(abacus)) + 1)
      ensures old(abacus) != [] && bounds.Offset(old(abacus)) + 1 == bounds.Volume() ==>
        r == None && abacus == Rewound(bounds)
    {
      var low, high := bounds.smallestPossiblePosition, bounds.largestPossiblePosition;
      var dims := bounds.Dimensions();
      if |abacus| == 0 {
        abacus := seq(dims, _ => 0);
        var i := 0;
        while i < dims
          invariant 0 <= i <= dims && |abacus| == dims
          invariant forall j :: 0 <= j < i ==> abacus[j] == low[j]
        {
          abacus := abacus[i := low[i]];
          i := i + 1;
        }
        assert abacus == low;
        return Some(abacus);
      }
      ghost var was := abacus;
      OffsetRoundTrip(bounds, was);
      var dimension := 0;
      while dimension < dims
        invariant 0 <= dimension < dims && |abacus| == dims
        invariant forall j :: 0 <= j < dimension ==> abacus[j] == low[j] && was[j] == high[j]
        invariant forall j :: dimension <= j < dims ==> abacus[j] == was[j]
      {
        if abacus[dimension] >= high[dimension] {
          if dimension == dims - 1 {
            StepPastLargest(bounds, was, abacus);
            return None;
          }
          abacus := abacus[dimension := low[dimension]];
          dimension := dimension + 1;
          continue;
        } else {
          abacus := abacus[dimension := abacus[dimension] + 1];
          StepWithinBox(bounds, was, abacus, dimension);
        }
        break;
      }
      r := Some(abacus);
    }
  }

  /** The carry on the last dimension happens only at the largest corner,
      the last address in linear order. */
  lemma StepPastLargest(b: AddressBound, was: seq<int>, now: seq<int>)
    requires b.WellFormed() && |was| == |now| == b.Dimensions() && b.Contains(was)
    requires forall j :: 0 <= j < b.Dimensions() - 1 ==>
      now[j] == b.smallestPossiblePosition[j] && was[j] == b.largestPossiblePosition[j]
    requires was[b.Dimensions() - 1] >= b.largestPossiblePosition[b.Dimensions() - 1]
    requires now[b.Dimensions() - 1] == was[b.Dimensions() - 1]
    ensures b.NonEmpty() && b.Offset(was) + 1 == b.Volume()
    ensures now == Rewound(b)
  {
    assert was == b.largestPossiblePosition;
    Radix.OffsetOfHigh(b.smallestPossiblePosition, b.largestPossiblePosition);
  }

  /** A carry that stops at dimension d yields the address with the next
      linear index. */
  lemma StepWithinBox(b: AddressBound, was: seq<int>, now: seq<int>, d: nat)
    requires b.WellFormed() && |was| == |now| == b.Dimensions() && b.Contains(was)
    requires d < b.Dimensions() && was[d] < b.largestPossiblePosition[d] && now[d] == was[d] + 1
    requires forall j :: 0 <= j < d ==>
      now[j] == b.smallestPossiblePosition[j] && was[j] == b.largestPossiblePosition[j]
    requires forall j :: d < j < b.Dimensions() ==> now[j] == was[j]
    ensures b.NonEmpty() && b.Contains(now)
    ensures 0 <= b.Offset(was) && b.Offset(now) == b.Offset(was) + 1 < b.Volume()
    ensures now == b.AddressAt(b.Offset(was) + 1)
  {
    var low, high := b.smallestPossiblePosition, b.largestPossiblePosition;
    Radix.OffsetOfAdvance(was, low, high, d);
    assert now == low[..d] + [was[d] + 1] + was[d + 1..];
    OffsetRoundTrip(b, was);
    OffsetRoundTrip(b, now);
  }

  /** `bounds.iter().collect()`: runs a fresh iterator until it reports the
      end.  Exactly `Volume()` addresses come out, the k-th has linear index
      k, and all of them lie in the box. */
  method CollectAddresses(b: AddressBound) returns (out: seq<seq<int>>)
    requires b.NonEmpty()
    ensures |out| == b.Volume()
    ensures forall k :: 0 <= k < |out| ==> |out[k]| == b.Dimensions() && b.Contains(out[k])
    ensures forall k :: 0 <= k < |out| ==> b.Offset(out[k]) == k
    ensures forall k :: 0 <= k < |out| ==> out[k] == b.AddressAt(k)
  {
    SmallestIsFirst(b);
    var it := new AddressIterator(b);
    out := [];
    var r := it.Next();
    while r.Some?
      invariant it.Valid() && it.bounds == b
      invariant r.Some? ==> |out| < b.Volume() && it.abacus == b.AddressAt(|out|) && r.value == it.abacus
      invariant r.None? ==> |out| == b.Volume()
      invariant forall k :: 0 <= k < |out| ==> out[k] == b.AddressAt(k)
      decreases b.Volume() - |out|
    {
      AddressAtRoundTrip(b, |out|);
      out := out + [r.value];
      r := it.Next();
    }
    forall k | 0 <= k < |out|
      ensures |out[k]| == b.Dimensions() && b.Contains(out[k]) && b.Offset(out[k]) == k
    {
      AddressAtRoundTrip(b, k);
    }
  }

  // -----------------------------------------------------------------------
  // The two-dimensional instance.

  /** A bound over `MatrixAddress`: two dimensions, x then y. */
  predicate IsMatrixBound(b: AddressBound)
  {
    b.WellFormed() && b.Dimensions() == MatrixAddresses.DimensionCount()
  }

  /** In two dimensions the linear index is `(y - y1) * (x2 - x1 + 1) + (x - x1)`
      (the crate's `indexing_test`). */
  lemma MatrixOffset(b: AddressBound, a: MatrixAddresses.MatrixAddress)
    requires IsMatrixBound(b)
    ensures b.Offset(a.Values()) ==
      (a.y - b.smallestPossiblePosition[1]) * (b.largestPossiblePosition[0] - b.smallestPossiblePosition[0] + 1)
      + (a.x - b.smallestPossiblePosition[0])
  {
    var low, high, v := b.smallestPossiblePosition, b.largestPossiblePosition, a.Values();
    assert v[1..][1..] == [] && low[1..][1..] == [] && high[1..][1..] == [];
    assert Radix.Offset(v[1..], low[1..], high[1..]) == a.y - low[1];
  }

  /** Inside a two-dimensional box, linear order is `partial_cmp` order. */
  lemma {:induction false} MatrixOffsetOrder(b: AddressBound, a: MatrixAddresses.MatrixAddress, c: MatrixAddresses.MatrixAddress)
    requires IsMatrixBound(b) && b.Contains(a.Values()) && b.Contains(c.Values())
    ensures b.Offset(a.Values()) < b.Offset(c.Values()) <==> MatrixAddresses.PartialCmp(a, c) == Some(Less)
  {
    var x1, x2, y1 := b.smallestPossiblePosition[0], b.largestPossiblePosition[0], b.smallestPossiblePosition[1];
    var w := x2 - x1 + 1;
    MatrixOffset(b, a);
    MatrixOffset(b, c);
    MatrixAddresses.PartialCmpLexicographic(a, c);
    assert a.Values()[0] == a.x && a.Values()[1] == a.y && c.Values()[0] == c.x && c.Values()[1] == c.y;
    Radix.RowMajorOrder(a.y - y1, a.x - x1, c.y - y1, c.x - x1, w);
  }

  /** The iteration order is sorted under `partial_cmp`, strictly (the
      crate's `iteration_visual_test` checks `is_sorted`). */
  lemma IterationSorted(b: AddressBound, i: nat, j: nat)
    requires IsMatrixBound(b) && b.NonEmpty() && i < j < b.Volume()
    ensures MatrixAddresses.PartialCmp(
      MatrixAddresses.FromValues(b.AddressAt(i)), MatrixAddresses.FromValues(b.AddressAt(j))) == Some(Less)
  {
    AddressAtRoundTrip(b, i);
    AddressAtRoundTrip(b, j);
    var a, c := MatrixAddresses.FromValues(b.AddressAt(i)), MatrixAddresses.FromValues(b.AddressAt(j));
    assert a.Values() == b.AddressAt(i) && c.Values() == b.AddressAt(j);
    MatrixOffsetOrder(b, a, c);
  }

  /** The box from (0, 0) to (1, 1): volume 4, visited as (0,0), (1,0),
      (0,1), (1,1). */
  lemma TwoByTwo()
    ensures AddressBound([0, 0], [1, 1]).Volume() == 4
    ensures AddressBound([0, 0], [1, 1]).AddressAt(0) == [0, 0]
    ensures AddressBound([0, 0], [1, 1]).AddressAt(1) == [1, 0]
    ensures AddressBound([0, 0], [1, 1]).AddressAt(2) == [0, 1]
    ensures AddressBound([0, 0], [1, 1]).AddressAt(3) == [1, 1]
  {
    assert [0, 0][1..] == [0] && [1, 1][1..] == [1] && [0][1..] == [] && [1][1..] == [];
  }
}
