/** `Matrix<T>`: a dense two-dimensional tensor whose cells are stored in
    iteration order and addressed through the bound's linear index. */
module Matrices {
  import opened Wrappers
  import opened MatrixAddresses
  import AddressBounds
  import Radix

  /** `AddressBound<MatrixAddress>`: both corners have two coordinates. */
  type MatrixBound = b: AddressBounds.AddressBound | AddressBounds.IsMatrixBound(b)
    witness AddressBounds.AddressBound([0, 0], [0, 0])

  /** The `InvalidInput` error `set` returns. */
  datatype SetError = OutOfBounds(address: MatrixAddress)

  /** `get` on a bound and a data vector: `None` outside the bound, and
      `None` too when the linear index is past the end of `data`
      (`Vec::get`). */
  function Lookup<T>(bounds: MatrixBound, data: seq<T>, address: MatrixAddress): (r: Option<T>)
    ensures r.Some? ==> bounds.Contains(address.Values())
    ensures r.Some? ==> 0 <= bounds.Offset(address.Values()) < |data| &&
                        r.value == data[bounds.Offset(address.Values())]
    ensures bounds.Contains(address.Values()) && |data| == bounds.Volume() ==> r.Some?
  {
    if !bounds.Contains(address.Values()) then None
    else
      AddressBounds.OffsetRoundTrip(bounds, address.Values());
      var index := bounds.Offset(address.Values());
      if index < |data| then Some(data[index]) else None
  }

  class Matrix<T> {
    var data: seq<T>
    const bounds: MatrixBound

    /** One stored value per address of a non-empty bound. */
    ghost predicate Valid()
      reads this
    {
      bounds.NonEmpty() && |data| == bounds.Volume()
    }

    /** `new`: the converter is called on every address in iteration order
        and the results are collected, so cell k holds the value for the
        k-th address, and `get` of any address inside returns the
        converter's value for it. */
    constructor New(bounds: MatrixBound, addressValueConverter: MatrixAddress --> T)
      requires bounds.NonEmpty()
      requires forall a: MatrixAddress :: bounds.Contains(a.Values()) ==> addressValueConverter.requires(a)
      ensures Valid() && this.bounds == bounds
      ensures forall k :: 0 <= k < |data| ==> data[k] == addressValueConverter(FromValues(bounds.AddressAt(k)))
      ensures forall a: MatrixAddress :: bounds.Contains(a.Values()) ==> Get(a) == Some(addressValueConverter(a))
    {
      var it := new AddressBounds.AddressIterator(bounds);
      var collected: seq<T> := [];
      AddressBounds.SmallestIsFirst(bounds);
      var r := it.Next();
      while r.Some?
        invariant it.Valid() && it.bounds == bounds
        invariant r.Some? ==> |collected| < bounds.Volume() && r.value == bounds.AddressAt(|collected|)
        invariant r.Some? ==> it.abacus == r.value
        invariant r.None? ==> |collected| == bounds.Volume()
        invariant forall k :: 0 <= k < |collected| ==>
          collected[k] == addressValueConverter(FromValues(bounds.AddressAt(k)))
        decreases bounds.Volume() - |collected|
      {
        AddressBounds.AddressAtRoundTrip(bounds, |collected|);
        assert FromValues(r.value).Values() == r.value;
        collected := collected + [addressValueConverter(FromValues(r.value))];
        r := it.Next();
      }
      this.bounds := bounds;
      data := collected;
      new;
      forall a: MatrixAddress | bounds.Contains(a.Values())
        ensures Get(a) == Some(addressValueConverter(a))
      {
        AddressBounds.OffsetRoundTrip(bounds, a.Values());
        ValuesRoundTrip(a, a.Values());
      }
    }

    /** `get`: the cell at the address's linear index, `None` outside the
        bound. */
    function Get(address: MatrixAddress): (r: Option<T>)
      reads this
      ensures Valid() ==> (r.Some? <==> bounds.Contains(address.Values()))
      ensures r.Some? ==> 0 <= bounds.Offset(address.Values()) < |data| &&
                          r.value == data[bounds.Offset(address.Values())]
    {
      Lookup(bounds, data, address)
    }

    /** `get_mut`: the same bounds rule as `get`; the slot returned is the one
        `get` reads, so writing through it changes that address's value. */
    method GetMut(address: MatrixAddress) returns (slot: Option<nat>)
      ensures slot.Some? <==> Get(address).Some?
      ensures slot.Some? ==> slot.value < |data| && Get(address) == Some(data[slot.value])
      ensures slot.Some? ==> slot.value == bounds.Offset(address.Values())
    {
      var inside := AddressBounds.ContainsAddress(bounds, address.Values());
      if !inside {
        return None;
      }
      var index := AddressBounds.IndexAddress(bounds, address.Values());
      if index.value < |data| {
        return Some(index.value);
      }
      return None;
    }

    /** `set`: out of bounds it reports the address and changes nothing;
        inside it overwrites exactly the address's cell. */
    method Set(address: MatrixAddress, value: T) returns (r: Result<(), SetError>)
      requires Valid()
      modifies this
      ensures Valid()
      ensures r.Err? <==> !bounds.Contains(address.Values())
      ensures r.Err? ==> r.error == OutOfBounds(address) && data == old(data)
      ensures r.Ok? ==> 0 <= bounds.Offset(address.Values()) < |data| &&
                        data == old(data)[bounds.Offset(address.Values()) := value]
      ensures r.Ok? ==> Get(address) == Some(value)
      ensures forall other: MatrixAddress :: other != address ==> Get(other) == old(Get(other))
    {
      var inside := AddressBounds.ContainsAddress(bounds, address.Values());
      if !inside {
        return Err(OutOfBounds(address));
      }
      var index := AddressBounds.IndexAddress(bounds, address.Values());
      data := data[index.value := value];
      forall other: MatrixAddress | other != address && bounds.Contains(other.Values())
        ensures bounds.Offset(other.Values()) != index.value
      {
        AddressBounds.OffsetInjective(bounds, other.Values(), address.Values());
        ValuesRoundTrip(other, other.Values());
        ValuesRoundTrip(address, address.Values());
      }
      return Ok(());
    }

    /** The text `to_display_string` emits for the i-th address in
        iteration order: the cell, then `columnDelimiter` when
        `(i + 1) % (largest.x + 1) == 0` and `rowDelimiter` otherwise. */
    function CellText(i: nat, displayFunc: T -> string, rowDelimiter: string, columnDelimiter: string): string
      reads this
      requires Valid() && bounds.largestPossiblePosition[0] + 1 != 0 && i < |data|
    {
      var address := FromValues(bounds.AddressAt(i));
      displayFunc(Get(address).value) +
        (if (i + 1) % (bounds.largestPossiblePosition[0] + 1) == 0 then columnDelimiter else rowDelimiter)
    }

    /** The fold of the first n cell texts. */
    function Rendered(n: nat, displayFunc: T -> string, rowDelimiter: string, columnDelimiter: string): string
      reads this
      requires Valid() && bounds.largestPossiblePosition[0] + 1 != 0 && n <= |data|
    {
      if n == 0 then ""
      else Rendered(n - 1, displayFunc, rowDelimiter, columnDelimiter) +
           CellText(n - 1, displayFunc, rowDelimiter, columnDelimiter)
    }

    /** `to_display_string`.  A zero `largest.x + 1` would make the `%`
        panic, so it is excluded. */
    function ToDisplayString(displayFunc: T -> string, rowDelimiter: string, columnDelimiter: string): (s: string)
      reads this
      requires Valid() && bounds.largestPossiblePosition[0] + 1 != 0
      ensures |data| >= 1 ==>
        var last := if |data| % (bounds.largestPossiblePosition[0] + 1) == 0 then columnDelimiter else rowDelimiter;
        |s| >= |last| && s[|s| - |last|..] == last
    {
      Rendered(|data|, displayFunc, rowDelimiter, columnDelimiter)
    }

    /** `Display`: cells separated by a space and rows ended by a newline. */
    function Display(toString: T -> string): (s: string)
      reads this
      requires Valid() && bounds.largestPossiblePosition[0] + 1 != 0
      ensures bounds.smallestPossiblePosition[0] == 0 ==> |s| >= 1 && s[|s| - 1] == '\n'
    {
      if bounds.smallestPossiblePosition[0] == 0 then
        LastCellEndsRow(this, toString, " ", "\n");
        ToDisplayString(toString, " ", "\n")
      else
        ToDisplayString(toString, " ", "\n")
    }
  }

  /** The derived `PartialEq`. */
  predicate Equals<T(==)>(m1: Matrix<T>, m2: Matrix<T>)
    reads m1, m2
    ensures Equals(m1, m2) ==> forall a: MatrixAddress :: m1.Get(a) == m2.Get(a)
  {
    m1.data == m2.data && m1.bounds == m2.bounds
  }

  lemma SuccessorDivisible(i: nat, w: int)
    requires w > 0
    ensures (i + 1) % w == 0 <==> i % w == w - 1
  {
    var q, r := i / w, i % w;
    assert i == r + w * q;
    if r == w - 1 {
      assert i + 1 == 0 + w * (q + 1);
      Radix.DivModOfSum(0, w, q + 1);
    } else {
      assert i + 1 == (r + 1) + w * q;
      Radix.DivModOfSum(r + 1, w, q);
    }
  }

  /** With the smallest x at 0, `to_display_string` puts `columnDelimiter`
      exactly after the cells of the last column and `rowDelimiter` after all
      others.  (With any other smallest x the two do not line up.) */
  lemma RowEndDelimiter<T>(m: Matrix<T>, i: nat, displayFunc: T -> string, rowDelimiter: string, columnDelimiter: string)
    requires m.Valid() && m.bounds.smallestPossiblePosition[0] == 0 && i < |m.data|
    ensures m.bounds.largestPossiblePosition[0] + 1 != 0
    ensures m.CellText(i, displayFunc, rowDelimiter, columnDelimiter) ==
      displayFunc(m.data[i]) +
        (if FromValues(m.bounds.AddressAt(i)).x == m.bounds.largestPossiblePosition[0]
         then columnDelimiter else rowDelimiter)
  {
    var b := m.bounds;
    var w := b.largestPossiblePosition[0] + 1;
    assert b.AddressAt(i)[0] == i % w;
    SuccessorDivisible(i, w);
    AddressBounds.AddressAtRoundTrip(b, i);
    assert FromValues(b.AddressAt(i)).Values() == b.AddressAt(i);
  }

  /** With the smallest x at 0 the rendering ends with the last cell's text
      followed by `columnDelimiter`: the last row is closed like the others. */
  lemma LastCellEndsRow<T>(m: Matrix<T>, displayFunc: T -> string, rowDelimiter: string, columnDelimiter: string)
    requires m.Valid() && m.bounds.smallestPossiblePosition[0] == 0
    ensures m.bounds.largestPossiblePosition[0] + 1 != 0 && |m.data| >= 1
    ensures m.ToDisplayString(displayFunc, rowDelimiter, columnDelimiter) ==
      m.Rendered(|m.data| - 1, displayFunc, rowDelimiter, columnDelimiter) +
      displayFunc(m.data[|m.data| - 1]) + columnDelimiter
  {
    var b := m.bounds;
    AddressBounds.LargestIsLast(b);
    RowEndDelimiter(m, |m.data| - 1, displayFunc, rowDelimiter, columnDelimiter);
    assert FromValues(b.AddressAt(|m.data| - 1)).x == b.largestPossiblePosition[0];
  }

  /** The one-character text of a character. */
  function CharText(c: char): (r: string)
    ensures |r| == 1 && r[0] == c
  {
    [c]
  }

  /** A 2 x 2 matrix holding 'a', 'b', 'c', 'd' in iteration order is
      displayed as two rows of two cells. */
  lemma DisplayTwoByTwo(m: Matrix<char>)
    requires m.bounds == AddressBounds.AddressBound([0, 0], [1, 1]) && m.data == "abcd"
    ensures m.Valid()
    ensures m.Display(CharText) == "a b\nc d\n"
  {
    AddressBounds.TwoByTwo();
    RowEndDelimiter(m, 0, CharText, " ", "\n");
    RowEndDelimiter(m, 1, CharText, " ", "\n");
    RowEndDelimiter(m, 2, CharText, " ", "\n");
    RowEndDelimiter(m, 3, CharText, " ", "\n");
    var b := m.bounds;
    assert FromValues(b.AddressAt(0)).x == 0 && FromValues(b.AddressAt(1)).x == 1;
    assert FromValues(b.AddressAt(2)).x == 0 && FromValues(b.AddressAt(3)).x == 1;
    assert CharText('a') == "a" && CharText('b') == "b";
    assert CharText('c') == "c" && CharText('d') == "d";
    assert m.Rendered(1, CharText, " ", "\n") == "a ";
    assert m.Rendered(2, CharText, " ", "\n") == "a b\n";
    assert m.Rendered(3, CharText, " ", "\n") == "a b\nc ";
  }
}
