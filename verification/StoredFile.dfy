/** A file as a byte string with a position, and words in it. */
module StoredFile {
  import opened Bytes

  function Least(a: nat, b: nat): nat {
    if a <= b then a else b
  }

  class File {
    var data: seq<byte>
    var pos: nat

    ghost predicate Valid()
      reads this
    {
      pos <= |data|
    }

    /** What has not been read yet. */
    function Rest(): seq<byte>
      requires Valid()
      reads this
    {
      data[pos..]
    }

    constructor (data: seq<byte>)
      ensures Valid() && this.data == data && pos == 0
    {
      this.data, pos := data, 0;
    }

    /** Read up to `n` bytes. */
    method Read(n: nat) returns (s: seq<byte>)
      requires Valid()
      modifies `pos
      ensures Valid() && s == old(Rest())[..Least(n, |old(Rest())|)] && Rest() == old(Rest())[|s|..]
    {
      var k := Least(n, |data| - pos);
      s := data[pos..pos + k];
      pos := pos + k;
    }

    /** Append at the end, where a file open for writing stands. */
    method Write(s: seq<byte>)
      requires pos == |data|
      modifies this
      ensures data == old(data) + s && pos == |data|
    {
      data := data + s;
      pos := |data|;
    }
  }
}
