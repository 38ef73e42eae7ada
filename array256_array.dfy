/**
 * The array of 256-element arrays of the C# driver
 * (csharp/TinyNF.Unsafe/Array256Array.cs): a fixed number of slots, each
 * holding where a 256-element block lives, and an enumerator over them.
 * A slot is a reference to the block, so the views the indexer returns
 * share the block's elements.
 */
module TinyNfArray256Array {
  import opened Wrappers

  /** Elements per block. */
  const BlockLength: nat := 256

  /** Array256<T>: a view of exactly 256 elements. */
  datatype Array256<T> = Array256(values: array<T>)

  /** IndexOutOfRangeException, from indexing the slot array. */
  datatype IndexOutOfRange = IndexOutOfRange

  /**
   * Array256Allocator<T>, which is not part of this model: it hands out a
   * new 256-element block on every call.
   */
  class Array256Allocator<T(0)> {
    constructor()
    {
    }

    method Allocate() returns (block: array<T>)
      ensures fresh(block) && block.Length == BlockLength
    {
      block := new T[BlockLength];
    }
  }

  /** Array256Array<T>: the slot array `_values`, of pointers that start out null. */
  class Array256Array<T(0)> {
    const values: array<array?<T>>

    /**
     * Every slot holds a 256-element block. Two slots may hold the same
     * block: the setter stores whatever block it is given.
     */
    ghost predicate Valid()
      reads values
    {
      forall n :: 0 <= n < values.Length ==> values[n] != null && values[n].Length == BlockLength
    }

    function Length(): nat
    {
      values.Length
    }

    /**
     * The constructor: `length` slots, each given a new block from the
     * allocator, so that no two slots start out sharing a block.
     */
    constructor(length: nat, allocator: Array256Allocator<T>)
      ensures Length() == length && fresh(values) && Valid()
      ensures forall n :: 0 <= n < length ==> fresh(values[n])
      ensures forall i, j :: 0 <= i < j < length ==> values[i] != values[j]
    {
      values := new array?<T>[length](_ => null);
      new;
      var n := 0;
      while n < length
        invariant 0 <= n <= length
        invariant forall k :: 0 <= k < n ==> values[k] != null && values[k].Length == BlockLength && fresh(values[k])
        invariant forall i, j :: 0 <= i < j < n ==> values[i] != values[j]
        modifies values
      {
        var block := allocator.Allocate();
        var view := Array256(block);
        var stored := Set(n, view);
        n := n + 1;
      }
    }

    /** The getter: a 256-element view of the block in slot n. */
    method Get(n: int) returns (r: Result<Array256<T>, IndexOutOfRange>)
      requires Valid()
      ensures r.Success? <==> 0 <= n < Length()
      ensures r.Success? ==> r.value.values == values[n] && r.value.values.Length == BlockLength
    {
      if !(0 <= n < values.Length) {
        return Failure(IndexOutOfRange);
      }
      return Success(Array256(values[n]));
    }

    /**
     * The setter: slot n now refers to the block of `value` and no other slot
     * changes; indexing the slot array out of range throws and changes
     * nothing. An Array256 always has 256 elements.
     */
    method Set(n: int, value: Array256<T>) returns (r: Result<(), IndexOutOfRange>)
      requires value.values.Length == BlockLength
      modifies values
      ensures r.Success? <==> 0 <= n < Length()
      ensures values[..] == if 0 <= n < Length() then old(values[..])[n := value.values] else old(values[..])
      ensures old(Valid()) ==> Valid()
    {
      if !(0 <= n < values.Length) {
        return Failure(IndexOutOfRange);
      }
      values[n] := value.values;
      return Success(());
    }

    method GetEnumerator() returns (e: Enumerator<T>)
      ensures fresh(e) && e.collection == this && e.index == -1
    {
      e := new Enumerator(this);
    }
  }

  /** Array256Array<T>.Enumerator: a position that starts before the first slot. */
  class Enumerator<T(0)> {
    const collection: Array256Array<T>
    var index: int

    constructor(collection: Array256Array<T>)
      ensures this.collection == collection && index == -1
    {
      this.collection := collection;
      index := -1;
    }

    /** MoveNext: step to the next slot and say whether it is still a slot. */
    method MoveNext() returns (more: bool)
      modifies this
      ensures index == old(index) + 1
      ensures more <==> index < collection.Length()
    {
      index := index + 1;
      return index < collection.Length();
    }

    /** Current: the view at the position, which the slot array range-checks. */
    method Current() returns (r: Result<Array256<T>, IndexOutOfRange>)
      requires collection.Valid()
      ensures r.Success? <==> 0 <= index < collection.Length()
      ensures r.Success? ==> r.value.values == collection.values[index]
    {
      r := collection.Get(index);
    }
  }

  /**
   * A `foreach` over the array: it sees exactly Length() views, those of
   * slots 0, 1, ... in order.
   */
  method Enumerate<T(0)>(a: Array256Array<T>) returns (views: seq<Array256<T>>)
    requires a.Valid()
    ensures |views| == a.Length()
    ensures forall n :: 0 <= n < |views| ==> views[n].values == a.values[n] && views[n].values.Length == BlockLength
  {
    var e := a.GetEnumerator();
    views := [];
    var more := e.MoveNext();
    while more
      invariant e.collection == a && e.index == |views| && 0 <= e.index <= a.Length()
      invariant more <==> e.index < a.Length()
      invariant forall n :: 0 <= n < |views| ==> views[n].values == a.values[n]
      decreases a.Length() - e.index
      modifies e
    {
      var current := e.Current();
      views := views + [current.value];
      more := e.MoveNext();
    }
  }
}
