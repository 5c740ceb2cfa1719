/** The default methods of the `Tensor` trait, written for its one
    implementation, `Matrix`: everything here goes through `new`, `get`,
    `get_mut` and the bound's iterator. */
module Tensors {
  import opened Wrappers
  import opened MatrixAddresses
  import AddressBounds
  import opened Matrices

  /** `address_iterator`: `bounds().iter()`. */
  method AddressIterator<T>(m: Matrix<T>) returns (it: AddressBounds.AddressIterator)
    requires m.Valid()
    ensures fresh(it) && it.Valid() && it.bounds == m.bounds && it.abacus == []
  {
    it := new AddressBounds.AddressIterator(m.bounds);
  }

  /** Every stored value replaced by its image under `f`, slot by slot. */
  function Mapped<T, U>(s: seq<T>, f: T -> U): (r: seq<U>)
    ensures |r| == |s| && forall k :: 0 <= k < |s| ==> r[k] == f(s[k])
  {
    seq(|s|, k requires 0 <= k < |s| => f(s[k]))
  }

  /** Slot k replaced by its image under `f` together with the k-th address
      in iteration order. */
  function MappedByAddress<T, U>(bounds: MatrixBound, s: seq<T>, f: (MatrixAddress, T) -> U): (r: seq<U>)
    requires bounds.NonEmpty()
    ensures |r| == |s| && forall k :: 0 <= k < |s| ==> r[k] == f(FromValues(bounds.AddressAt(k)), s[k])
  {
    seq(|s|, k requires 0 <= k < |s| => f(FromValues(bounds.AddressAt(k)), s[k]))
  }

  /** `transform`: a new matrix over a copy of the bounds whose value at every
      address is `f` of this one's; the source is untouched. */
  method Transform<T, U>(m: Matrix<T>, mappingFunction: T -> U) returns (r: Matrix<U>)
    requires m.Valid()
    ensures fresh(r) && r.Valid() && r.bounds == m.bounds
    ensures r.data == Mapped(m.data, mappingFunction)
    ensures forall a: MatrixAddress :: m.bounds.Contains(a.Values()) ==>
      r.Get(a) == Some(mappingFunction(m.Get(a).value))
  {
    var bounds, data := m.bounds, m.data;
    var converter := (a: MatrixAddress) requires bounds.Contains(a.Values()) && |data| == bounds.Volume() =>
      mappingFunction(Lookup(bounds, data, a).value);
    r := new Matrix.New(bounds, converter);
    forall k | 0 <= k < |data|
      ensures r.data[k] == mappingFunction(data[k])
    {
      AddressBounds.AddressAtRoundTrip(bounds, k);
      var a := FromValues(bounds.AddressAt(k));
      assert a.Values() == bounds.AddressAt(k);
      assert Lookup(bounds, data, a) == Some(data[k]);
      assert r.data[k] == converter(a);
    }
  }

  /** `transform_by_address`: as `transform`, with the address passed to the
      mapping too. */
  method TransformByAddress<T, U>(m: Matrix<T>, mappingFunction: (MatrixAddress, T) -> U) returns (r: Matrix<U>)
    requires m.Valid()
    ensures fresh(r) && r.Valid() && r.bounds == m.bounds
    ensures r.data == MappedByAddress(m.bounds, m.data, mappingFunction)
    ensures forall a: MatrixAddress :: m.bounds.Contains(a.Values()) ==>
      r.Get(a) == Some(mappingFunction(a, m.Get(a).value))
  {
    var bounds, data := m.bounds, m.data;
    var converter := (a: MatrixAddress) requires bounds.Contains(a.Values()) && |data| == bounds.Volume() =>
      mappingFunction(a, Lookup(bounds, data, a).value);
    r := new Matrix.New(bounds, converter);
    forall k | 0 <= k < |data|
      ensures r.data[k] == mappingFunction(FromValues(bounds.AddressAt(k)), data[k])
    {
      AddressBounds.AddressAtRoundTrip(bounds, k);
      var a := FromValues(bounds.AddressAt(k));
      assert a.Values() == bounds.AddressAt(k);
      assert Lookup(bounds, data, a) == Some(data[k]);
      assert r.data[k] == converter(a);
    }
  }

  /** `transform_in_place`: walks the bound's iterator and rewrites the cell
      `get_mut` hands out for each address, so every cell is rewritten once
      and the bounds stay as they were. */
  method TransformInPlace<T>(m: Matrix<T>, mappingFunction: T -> T)
    requires m.Valid()
    modifies m
    ensures m.Valid()
    ensures m.data == Mapped(old(m.data), mappingFunction)
  {
    ghost var original := m.data;
    var it := new AddressBounds.AddressIterator(m.bounds);
    AddressBounds.SmallestIsFirst(m.bounds);
    var r := it.Next();
    ghost var visited := 0;
    while r.Some?
      invariant m.Valid() && it.Valid() && it.bounds == m.bounds
      invariant |m.data| == |original|
      invariant r.Some? ==> visited < m.bounds.Volume() && r.value == m.bounds.AddressAt(visited)
      invariant r.Some? ==> it.abacus == r.value
      invariant r.None? ==> visited == m.bounds.Volume()
      invariant forall k :: 0 <= k < visited ==> m.data[k] == mappingFunction(original[k])
      invariant forall k :: visited <= k < |original| ==> m.data[k] == original[k]
      decreases m.bounds.Volume() - visited
    {
      AddressBounds.AddressAtRoundTrip(m.bounds, visited);
      var address := FromValues(r.value);
      var slot := m.GetMut(address);
      assert slot.value == visited;
      m.data := m.data[slot.value := mappingFunction(m.data[slot.value])];
      visited := visited + 1;
      r := it.Next();
    }
  }

  /** `transform_by_address_in_place`: as `transform_in_place`, with the
      address passed to the mapping too. */
  method TransformByAddressInPlace<T>(m: Matrix<T>, mappingFunction: (MatrixAddress, T) -> T)
    requires m.Valid()
    modifies m
    ensures m.Valid()
    ensures m.data == MappedByAddress(m.bounds, old(m.data), mappingFunction)
  {
    ghost var original := m.data;
    var it := new AddressBounds.AddressIterator(m.bounds);
    AddressBounds.SmallestIsFirst(m.bounds);
    var r := it.Next();
    ghost var visited := 0;
    while r.Some?
      invariant m.Valid() && it.Valid() && it.bounds == m.bounds
      invariant |m.data| == |original|
      invariant r.Some? ==> visited < m.bounds.Volume() && r.value == m.bounds.AddressAt(visited)
      invariant r.Some? ==> it.abacus == r.value
      invariant r.None? ==> visited == m.bounds.Volume()
      invariant forall k :: 0 <= k < visited ==>
        m.data[k] == mappingFunction(FromValues(m.bounds.AddressAt(k)), original[k])
      invariant forall k :: visited <= k < |original| ==> m.data[k] == original[k]
      decreases m.bounds.Volume() - visited
    {
      AddressBounds.AddressAtRoundTrip(m.bounds, visited);
      var address := FromValues(r.value);
      var slot := m.GetMut(address);
      assert slot.value == visited;
      m.data := m.data[slot.value := mappingFunction(address, m.data[slot.value])];
      visited := visited + 1;
      r := it.Next();
    }
  }

  /** A mapping that ignores the address gives the same cells either way. */
  lemma ByAddressIgnoringAddress<T, U>(bounds: MatrixBound, s: seq<T>, f: T -> U, g: (MatrixAddress, T) -> U)
    requires bounds.NonEmpty()
    requires forall a, v :: g(a, v) == f(v)
    ensures MappedByAddress(bounds, s, g) == Mapped(s, f)
  {
  }

  /** `get` agrees at every address the iterator yields over the common bound. */
  predicate CellsAgree<T(==)>(m1: Matrix<T>, m2: Matrix<T>)
    reads m1, m2
    requires m1.Valid() && m2.Valid() && m1.bounds == m2.bounds
  {
    forall k | 0 <= k < m1.bounds.Volume() ::
      m1.Get(FromValues(m1.bounds.AddressAt(k))).value == m2.Get(FromValues(m1.bounds.AddressAt(k))).value
  }

  /** Over one bound, agreeing at every iterated address is having the same
      data. */
  lemma CellsAgreeIffSameData<T>(m1: Matrix<T>, m2: Matrix<T>)
    requires m1.Valid() && m2.Valid() && m1.bounds == m2.bounds
    ensures CellsAgree(m1, m2) <==> m1.data == m2.data
  {
    forall k | 0 <= k < m1.bounds.Volume()
      ensures m1.Get(FromValues(m1.bounds.AddressAt(k))) == Some(m1.data[k])
      ensures m2.Get(FromValues(m1.bounds.AddressAt(k))) == Some(m2.data[k])
    {
      AddressBounds.AddressAtRoundTrip(m1.bounds, k);
    }
    if CellsAgree(m1, m2) {
      assert forall k | 0 <= k < |m1.data| :: m1.data[k] == m2.data[k];
    }
  }

  /** `eq`: different bounds are unequal; otherwise `get` must agree at
      every address the iterator yields.  It is the derived equality. */
  function Eq<T(==)>(m1: Matrix<T>, m2: Matrix<T>): (r: bool)
    reads m1, m2
    requires m1.Valid() && m2.Valid()
    ensures r <==> Equals(m1, m2)
  {
    if m1.bounds != m2.bounds then false
    else
      CellsAgreeIffSameData(m1, m2);
      CellsAgree(m1, m2)
  }

  /** Two matrices built from the same bound and converter are equal (the
      crate's `equality_test`). */
  method RebuiltMatricesEqual<T(==)>(bounds: MatrixBound, addressValueConverter: MatrixAddress -> T) returns (equal: bool)
    requires bounds.NonEmpty()
    ensures equal
  {
    var m1 := new Matrix.New(bounds, addressValueConverter);
    var m2 := new Matrix.New(bounds, addressValueConverter);
    equal := Eq(m1, m2);
  }

  /** Transforming a copy in place, with or without the address, gives the
      matrix `transform` builds (the crate's `transform_in_place_test`). */
  method InPlaceAgreesWithTransform<T(==)>(m: Matrix<T>, mappingFunction: T -> T) returns (equal: bool)
    requires m.Valid()
    ensures equal
  {
    var expected := Transform(m, mappingFunction);
    var working := Transform(m, (v: T) => v);
    var workingByAddress := Transform(m, (v: T) => v);
    assert working.data == m.data && workingByAddress.data == m.data;
    TransformInPlace(working, mappingFunction);
    var byAddress := (a: MatrixAddress, v: T) => mappingFunction(v);
    TransformByAddressInPlace(workingByAddress, byAddress);
    ByAddressIgnoringAddress(m.bounds, m.data, mappingFunction, byAddress);
    equal := Equals(expected, working) && Equals(working, workingByAddress);
  }
}
