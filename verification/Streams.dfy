/** A readable byte stream: io.BytesIO and an input file opened for binary reading. */
module Streams {
  import opened Moments

  /** What stat tells about a file; taken before and after reading, it must not have changed. */
  datatype Stat = Stat(size: nat, mtime: int, inode: int)

  class ByteStream {
    const data: seq<Byte>
    var pos: nat

    ghost predicate Valid()
      reads this
    {
      pos <= |data|
    }

    /** What has not been read yet. */
    function Rest(): seq<Byte>
      requires Valid()
      reads this
    {
      data[pos..]
    }

    constructor (bytes: seq<Byte>)
      ensures Valid() && Rest() == bytes && data == bytes
    {
      data := bytes;
      pos := 0;
    }

    /** read(size): as much as is left, at most `size` bytes. */
    method Read(size: nat) returns (chunk: seq<Byte>)
      requires Valid()
      modifies this
      ensures Valid()
      ensures old(Rest()) == chunk + Rest()
      ensures |chunk| == size || (|chunk| < size && Rest() == [])
    {
      var end := if size <= |data| - pos then pos + size else |data|;
      chunk := data[pos..end];
      pos := end;
    }

    /** read(): everything that is left. */
    method ReadAll() returns (chunk: seq<Byte>)
      requires Valid()
      modifies this
      ensures Valid()
      ensures chunk == old(Rest()) && Rest() == []
    {
      chunk := data[pos..];
      pos := |data|;
    }
  }
}
