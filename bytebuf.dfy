/**
 * The part of Netty's ByteBuf the codec uses: the bytes written so far (up to
 * the writer index) and a reader index into them.
 */
module ByteBufs {
  import opened Wrappers
  import opened Wire

  class ByteBuf {
    var bytes: seq<Byte>
    var readerIndex: nat

    ghost predicate Valid()
      reads this
    {
      readerIndex <= |bytes|
    }

    /** The readable bytes, between the reader index and the writer index. */
    function Remaining(): seq<Byte>
      reads this
      requires Valid()
    {
      bytes[readerIndex..]
    }

    function IsReadable(): bool
      reads this
    {
      readerIndex < |bytes|
    }

    /** An empty buffer. */
    constructor ()
      ensures Valid() && bytes == [] && readerIndex == 0
    {
      bytes, readerIndex := [], 0;
    }

    method WriteByte(b: Byte)
      modifies this`bytes
      ensures bytes == old(bytes) + [b]
    {
      bytes := bytes + [b];
    }

    method WriteInt(x: Int32)
      modifies this`bytes
      ensures bytes == old(bytes) + Int32ToBytes(x)
    {
      bytes := bytes + Int32ToBytes(x);
    }

    method WriteLong(x: Int64)
      modifies this`bytes
      ensures bytes == old(bytes) + Int64ToBytes(x)
    {
      bytes := bytes + Int64ToBytes(x);
    }

    method WriteBytes(s: seq<Byte>)
      modifies this`bytes
      ensures bytes == old(bytes) + s
    {
      bytes := bytes + s;
    }

    /** readByte; None stands for the IndexOutOfBoundsException on an exhausted buffer. */
    method ReadByte() returns (r: Option<Byte>)
      requires Valid()
      modifies this`readerIndex
      ensures Valid()
      ensures old(IsReadable()) ==> r == Some(old(Remaining())[0]) && Remaining() == old(Remaining())[1..]
      ensures !old(IsReadable()) ==> r == None && readerIndex == old(readerIndex)
    {
      if readerIndex < |bytes| {
        r := Some(bytes[readerIndex]);
        readerIndex := readerIndex + 1;
      } else {
        r := None;
      }
    }

    /** readBytes into an array of length `n`; None when fewer than `n` bytes are readable. */
    method ReadBytes(n: nat) returns (r: Option<seq<Byte>>)
      requires Valid()
      modifies this`readerIndex
      ensures Valid()
      ensures n <= old(|Remaining()|) ==> r == Some(old(Remaining())[..n]) && Remaining() == old(Remaining())[n..]
      ensures n > old(|Remaining()|) ==> r == None && readerIndex == old(readerIndex)
    {
      if n <= |bytes| - readerIndex {
        assert bytes[readerIndex..][..n] == bytes[readerIndex..readerIndex + n];
        assert bytes[readerIndex..][n..] == bytes[readerIndex + n..];
        r := Some(bytes[readerIndex..readerIndex + n]);
        readerIndex := readerIndex + n;
      } else {
        r := None;
      }
    }

    /** readInt: four bytes, big-endian, two's complement. */
    method ReadInt() returns (r: Option<Int32>)
      requires Valid()
      modifies this`readerIndex
      ensures Valid()
      ensures 4 <= old(|Remaining()|) ==> r == Some(BytesToInt32(old(Remaining())[..4])) && Remaining() == old(Remaining())[4..]
      ensures 4 > old(|Remaining()|) ==> r == None && readerIndex == old(readerIndex)
    {
      var b := ReadBytes(4);
      r := if b.Some? then Some(BytesToInt32(b.value)) else None;
    }

    /** readLong: eight bytes, big-endian, two's complement. */
    method ReadLong() returns (r: Option<Int64>)
      requires Valid()
      modifies this`readerIndex
      ensures Valid()
      ensures 8 <= old(|Remaining()|) ==> r == Some(BytesToInt64(old(Remaining())[..8])) && Remaining() == old(Remaining())[8..]
      ensures 8 > old(|Remaining()|) ==> r == None && readerIndex == old(readerIndex)
    {
      var b := ReadBytes(8);
      r := if b.Some? then Some(BytesToInt64(b.value)) else None;
    }
  }
}
