/**
 * The packet buffer of the C# driver (csharp/TinyNF.Unsafe/PacketData.cs):
 * a fixed block of Size bytes with a range-checked byte indexer and
 * range-checked unaligned 32- and 64-bit writes. Values are stored in the
 * host's byte order, little-endian on x86.
 */
module TinyNfPacketData {
  import opened Wrappers
  import opened Bytes

  /** PacketData.Size: bytes per packet buffer. */
  const Size: nat := 2048

  /** ArgumentOutOfRangeException, thrown for the parameter `index`. */
  datatype OutOfRange = ArgumentOutOfRange

  /**
   * The range check of a write of `width` bytes at `index`:
   * `index >= Size - width` throws. In C# both sides are widened before
   * comparing, so nothing wraps.
   */
  predicate WriteAllowed(index: nat, width: nat)
    requires width <= Size
  {
    !(index >= Size - width)
  }

  /**
   * The check never lets a write leave the buffer, and it rejects exactly
   * one position where the write would still fit: the last one,
   * `Size - width`, whose bytes end at the end of the buffer.
   */
  lemma WriteAllowedIsConservative(index: nat, width: nat)
    requires width <= Size
    ensures WriteAllowed(index, width) ==> index + width < Size
    ensures (index + width <= Size && !WriteAllowed(index, width)) <==> index == Size - width
  {
  }

  /** `buffer` with `bytes` written from position `at` on. */
  function Written(buffer: seq<u8>, at: nat, bytes: seq<u8>): seq<u8>
    requires at + |bytes| <= |buffer|
  {
    buffer[..at] + bytes + buffer[at + |bytes|..]
  }

  /**
   * A write keeps the length, puts the bytes where they were written, and
   * changes nothing else.
   */
  lemma WrittenBytes(buffer: seq<u8>, at: nat, bytes: seq<u8>)
    requires at + |bytes| <= |buffer|
    ensures var w := Written(buffer, at, bytes);
      && |w| == |buffer|
      && w[at..at + |bytes|] == bytes
      && forall i :: 0 <= i < |buffer| && !(at <= i < at + |bytes|) ==> w[i] == buffer[i]
  {
    var w := Written(buffer, at, bytes);
    assert w[at..at + |bytes|] == bytes;
    forall i | 0 <= i < |buffer| && !(at <= i < at + |bytes|)
      ensures w[i] == buffer[i]
    {
      if i < at {
        assert w[i] == buffer[..at][i];
      } else {
        assert w[i] == buffer[at + |bytes|..][i - at - |bytes|];
      }
    }
  }

  /** What an accepted 32- or 64-bit write leaves: the value, read back in host byte order. */
  lemma WrittenValueReadsBack(buffer: seq<u8>, at: nat, value: nat, width: nat)
    requires at + width <= |buffer| && value < Pow256(width)
    ensures Written(buffer, at, LeBytes(value, width))[at..at + width] == LeBytes(value, width)
    ensures LeValue(Written(buffer, at, LeBytes(value, width))[at..at + width]) == value
  {
    WrittenBytes(buffer, at, LeBytes(value, width));
    LeValueOfLeBytes(value, width);
  }

  /** struct PacketData: the fixed `_data` buffer. */
  class PacketData {
    const data: array<u8>

    ghost predicate Valid()
    {
      data.Length == Size
    }

    /** `default(PacketData)`: a zeroed buffer. */
    constructor()
      ensures Valid() && fresh(data)
      ensures forall i :: 0 <= i < Size ==> data[i] == 0
    {
      data := new u8[Size](_ => 0);
    }

    /** Reading through the indexer: byte `index`, or ArgumentOutOfRangeException once `index >= Size`. */
    method Get(index: u32) returns (r: Result<u8, OutOfRange>)
      requires Valid()
      ensures r.Success? <==> index < Size
      ensures r.Success? ==> r.value == data[index]
    {
      if index >= Size {
        return Failure(ArgumentOutOfRange);
      }
      return Success(data[index]);
    }

    /** Writing through the indexer: byte `index` becomes `value`; out of range nothing changes. */
    method Set(index: u32, value: u8) returns (r: Result<(), OutOfRange>)
      requires Valid()
      modifies data
      ensures r.Success? <==> index < Size
      ensures data[..] == if index < Size then old(data[..])[index := value] else old(data[..])
    {
      if index >= Size {
        return Failure(ArgumentOutOfRange);
      }
      data[index] := value;
      return Success(());
    }

    /** Write `bytes` from position `index` on, one byte at a time. */
    method WriteUnaligned(index: nat, bytes: seq<u8>)
      requires Valid() && index + |bytes| <= Size
      modifies data
      ensures data[..] == Written(old(data[..]), index, bytes)
    {
      ghost var before := data[..];
      var k := 0;
      while k < |bytes|
        invariant 0 <= k <= |bytes|
        invariant forall i :: 0 <= i < Size ==> data[i] == if index <= i < index + k then bytes[i - index] else before[i]
      {
        data[index + k] := bytes[k];
        k := k + 1;
      }
      WrittenBytes(before, index, bytes);
      assert data[..] == Written(before, index, bytes);
    }

    /** Write32: the four bytes of `value` at `index`, if the range check lets it through. */
    method Write32(index: u32, value: u32) returns (r: Result<(), OutOfRange>)
      requires Valid()
      modifies data
      ensures r.Success? <==> WriteAllowed(index, 4)
      ensures data[..] == if WriteAllowed(index, 4) then Written(old(data[..]), index, LeBytes(value, 4)) else old(data[..])
    {
      if index >= Size - 4 {
        return Failure(ArgumentOutOfRange);
      }
      WriteUnaligned(index, LeBytes(value, 4));
      return Success(());
    }

    /** Write64: the eight bytes of `value` at `index`, if the range check lets it through. */
    method Write64(index: u32, value: u64) returns (r: Result<(), OutOfRange>)
      requires Valid()
      modifies data
      ensures r.Success? <==> WriteAllowed(index, 8)
      ensures data[..] == if WriteAllowed(index, 8) then Written(old(data[..]), index, LeBytes(value, 8)) else old(data[..])
    {
      if index >= Size - 8 {
        return Failure(ArgumentOutOfRange);
      }
      WriteUnaligned(index, LeBytes(value, 8));
      return Success(());
    }
  }
}
