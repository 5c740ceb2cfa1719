/** The default methods of the `Addressable` trait: componentwise integer
    arithmetic over the dimensions of an address.  An address of dimension
    count D is a sequence of D coordinates; position d is the value that
    `get_item_at_dimension_index(d)` returns, and building the result from a
    vector of coordinates (`new_from_value_vec`) is the identity here. */
module Addressable {

  function Abs(v: int): (r: nat)
    ensures r == v || r == -v
  {
    if v < 0 then -v else v
  }

  /** `add`: the componentwise sum. */
  function Add(a: seq<int>, b: seq<int>): (r: seq<int>)
    requires |a| == |b|
    ensures |r| == |a|
    ensures forall d :: 0 <= d < |a| ==> r[d] == a[d] + b[d]
  {
    seq(|a|, d requires 0 <= d < |a| => a[d] + b[d])
  }

  /** `subtract`: the componentwise difference. */
  function Subtract(a: seq<int>, b: seq<int>): (r: seq<int>)
    requires |a| == |b|
    ensures |r| == |a|
    ensures forall d :: 0 <= d < |a| ==> r[d] == a[d] - b[d]
  {
    seq(|a|, d requires 0 <= d < |a| => a[d] - b[d])
  }

  /** `difference`: the componentwise absolute difference. */
  function Difference(a: seq<int>, b: seq<int>): (r: seq<int>)
    requires |a| == |b|
    ensures |r| == |a|
    ensures forall d :: 0 <= d < |a| ==> r[d] >= 0 && (r[d] == a[d] - b[d] || r[d] == b[d] - a[d])
  {
    seq(|a|, d requires 0 <= d < |a| => Abs(a[d] - b[d]))
  }

  /** `scale`: every coordinate multiplied by an integer scalar. */
  function Scale(a: seq<int>, scalar: int): (r: seq<int>)
    ensures |r| == |a|
    ensures forall d :: 0 <= d < |a| ==> r[d] == a[d] * scalar
  {
    seq(|a|, d requires 0 <= d < |a| => a[d] * scalar)
  }

  lemma AddThenSubtract(a: seq<int>, b: seq<int>)
    requires |a| == |b|
    ensures Subtract(Add(a, b), b) == a
  {
  }

  lemma SubtractThenAdd(a: seq<int>, b: seq<int>)
    requires |a| == |b|
    ensures Add(Subtract(a, b), b) == a
  {
  }

  lemma AddCommutes(a: seq<int>, b: seq<int>)
    requires |a| == |b|
    ensures Add(a, b) == Add(b, a)
  {
  }

  lemma DifferenceSymmetric(a: seq<int>, b: seq<int>)
    requires |a| == |b|
    ensures Difference(a, b) == Difference(b, a)
    ensures Difference(a, a) == Scale(a, 0)
  {
  }

  lemma ScaleByOne(a: seq<int>)
    ensures Scale(a, 1) == a
  {
  }
}
