/** `MatrixAddress`: the two-dimensional address, with dimension 0 stored in
    `x` and dimension 1 in `y`, and its hand-written `partial_cmp`. */
module MatrixAddresses {
  import opened Wrappers
  import Addressable

  /** `get_dimension_count` */
  function DimensionCount(): nat
  {
    2
  }

  datatype MatrixAddress = MatrixAddress(x: int, y: int) {

    /** `get_item_at_dimension_index`; any other index panics, so it is a
        precondition here. */
    function Item(dimensionIndex: nat): int
      requires dimensionIndex < DimensionCount()
    {
      match dimensionIndex
      case 0 => x
      case 1 => y
    }

    /** The coordinates by dimension index, as the trait's generic code sees
        them through `get_item_at_dimension_index`. */
    function Values(): (v: seq<int>)
      ensures |v| == DimensionCount()
      ensures forall d :: 0 <= d < DimensionCount() ==> v[d] == Item(d)
    {
      [x, y]
    }

    /** `get_mut_item_at_dimension_index(d)` followed by a write of `v`
        through the returned reference. */
    function WithItem(dimensionIndex: nat, v: int): (r: MatrixAddress)
      requires dimensionIndex < DimensionCount()
      ensures r.Item(dimensionIndex) == v
      ensures r.Item(1 - dimensionIndex) == Item(1 - dimensionIndex)
    {
      match dimensionIndex
      case 0 => this.(x := v)
      case 1 => this.(y := v)
    }
  }

  /** `new_from_value_vec`: indexing `values[0]` and `values[1]` panics on a
      shorter vector, so it is a precondition; later entries are ignored. */
  function FromValues(values: seq<int>): (a: MatrixAddress)
    requires |values| >= DimensionCount()
    ensures a.Values() == values[..DimensionCount()]
    ensures |values| == DimensionCount() ==> a.Values() == values
  {
    MatrixAddress(values[0], values[1])
  }

  /** `partial_cmp`: `y` decides, and `x` only breaks a tie. */
  function PartialCmp(a: MatrixAddress, b: MatrixAddress): (r: Option<Ordering>)
    ensures r.Some?
  {
    match Compare(a.y, b.y)
    case Less => Some(Less)
    case Equal => (
      match Compare(a.x, b.x)
      case Less => Some(Less)
      case Equal => Some(Equal)
      case Greater => Some(Greater))
    case Greater => Some(Greater)
  }

  /** The order `partial_cmp` defines, stated independently. */
  predicate PrecedesYFirst(a: MatrixAddress, b: MatrixAddress)
  {
    a.y < b.y || (a.y == b.y && a.x < b.x)
  }

  lemma PartialCmpLexicographic(a: MatrixAddress, b: MatrixAddress)
    ensures PartialCmp(a, b) == Some(Less) <==> PrecedesYFirst(a, b)
    ensures PartialCmp(a, b) == Some(Greater) <==> PrecedesYFirst(b, a)
  {
  }

  lemma PartialCmpEqualIff(a: MatrixAddress, b: MatrixAddress)
    ensures PartialCmp(a, b) == Some(Equal) <==> a == b
  {
  }

  /** Together with the totality in `PartialCmp`'s contract these make
      `partial_cmp` a strict total order. */
  lemma PartialCmpAntisymmetric(a: MatrixAddress, b: MatrixAddress)
    ensures PartialCmp(a, b) == Some(Less) <==> PartialCmp(b, a) == Some(Greater)
  {
  }

  lemma PartialCmpTransitive(a: MatrixAddress, b: MatrixAddress, c: MatrixAddress)
    requires PartialCmp(a, b) == Some(Less) && PartialCmp(b, c) == Some(Less)
    ensures PartialCmp(a, c) == Some(Less)
  {
  }

  lemma ValuesRoundTrip(a: MatrixAddress, values: seq<int>)
    requires |values| == DimensionCount()
    ensures FromValues(a.Values()) == a
    ensures FromValues(values).Values() == values
    ensures forall d :: 0 <= d < DimensionCount() ==> FromValues(values).Item(d) == values[d]
  {
  }

  /** The indices below `get_dimension_count()` reach every field: two
      addresses are equal iff `get_item_at_dimension_index` agrees on each. */
  lemma ItemsDetermineAddress(a: MatrixAddress, b: MatrixAddress)
    ensures a == b <==> forall d :: 0 <= d < DimensionCount() ==> a.Item(d) == b.Item(d)
  {
    if forall d :: 0 <= d < DimensionCount() ==> a.Item(d) == b.Item(d) {
      assert a.Item(0) == b.Item(0) && a.Item(1) == b.Item(1);
    }
  }

  /** Writing back the value `get_item_at_dimension_index(d)` read, through
      `get_mut_item_at_dimension_index(d)`, leaves the address unchanged. */
  lemma WriteBackItem(a: MatrixAddress, d: nat)
    requires d < DimensionCount()
    ensures a.WithItem(d, a.Item(d)) == a
  {
  }

  /** The trait's `add` and `subtract` at this instance (the crate's
      `operation_accuracy` and `operation_consistency` tests). */
  lemma AddSubtractAccuracy(a: MatrixAddress, b: MatrixAddress)
    ensures FromValues(Addressable.Add(a.Values(), b.Values())) == MatrixAddress(a.x + b.x, a.y + b.y)
    ensures FromValues(Addressable.Subtract(a.Values(), b.Values())) == MatrixAddress(a.x - b.x, a.y - b.y)
    ensures FromValues(Addressable.Subtract(Addressable.Add(a.Values(), b.Values()), b.Values())) == a
    ensures FromValues(Addressable.Add(Addressable.Subtract(a.Values(), b.Values()), b.Values())) == a
  {
    Addressable.AddThenSubtract(a.Values(), b.Values());
    Addressable.SubtractThenAdd(a.Values(), b.Values());
  }
}
