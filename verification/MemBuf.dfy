/** The growable byte buffer (src/membuf.c): an array with one spare byte that always holds a NUL. */
module MemBufs {
  import opened ByteStrings
  import opened Descriptors

  class MemBuf {
    var data: array<char>
    var dataLen: nat

    ghost predicate Valid()
      reads this, data
    {
      data.Length == dataLen + 1 && data[dataLen] == '\0'
    }

    /** The bytes stored, without the terminating NUL. */
    function Contents(): (s: Bytes)
      reads this, data
      requires Valid()
      ensures |s| == dataLen
    {
      data[..dataLen]
    }

    ghost function Repr(): set<object>
      reads this
    {
      {this, data}
    }

    constructor ()
      ensures Valid() && Contents() == [] && fresh(data)
    {
      data := new char[1](_ => '\0');
      dataLen := 0;
    }

    constructor WithStr(str: Bytes)
      ensures Valid() && Contents() == str && fresh(data)
    {
      data := new char[|str| + 1](i requires 0 <= i => if i < |str| then str[i] else '\0');
      dataLen := |str|;
      new;
      assert data[..dataLen] == str;
    }

    /** realloc to newSize + 1 bytes: keeps what fits, terminates, and leaves new bytes unspecified. */
    method Resize(newSize: nat)
      requires Valid()
      modifies this
      ensures Valid() && fresh(data) && dataLen == newSize
      ensures newSize <= old(dataLen) ==> Contents() == old(Contents())[..newSize]
      ensures newSize >= old(dataLen) ==> Contents()[..old(dataLen)] == old(Contents())
    {
      var d := new char[newSize + 1](i reads this, data requires 0 <= i => if i < data.Length then data[i] else ' ');
      d[newSize] := '\0';
      data := d;
      dataLen := newSize;
    }

    method AppendData(bytes: Bytes)
      requires Valid()
      modifies this
      ensures Valid() && fresh(data) && Contents() == old(Contents()) + bytes
    {
      ghost var before := Contents();
      var start := dataLen;
      Resize(start + |bytes|);
      forall i | 0 <= i < |bytes| {
        data[start + i] := bytes[i];
      }
      assert Contents()[..start] == before;
    }

    /** Overwrites bytes in place; the program aborts when they would not fit. */
    method SetData(offset: nat, bytes: Bytes)
      requires Valid() && offset + |bytes| <= dataLen
      modifies data
      ensures Valid()
      ensures Contents() == Overwrite(old(Contents()), offset, bytes)
    {
      forall i | 0 <= i < |bytes| {
        data[offset + i] := bytes[i];
      }
      assert Contents()[..offset] == old(Contents())[..offset];
      assert Contents()[offset..offset + |bytes|] == bytes;
    }

    /** mb_readFile: reads into the buffer; the program aborts when toRead bytes would not fit. */
    method ReadFile(file: Source, offset: nat, toRead: nat) returns (r: ReadResult)
      requires Valid() && toRead > 0 && offset + toRead <= dataLen
      modifies data, file
      ensures Valid()
      ensures r.Got? ==> 0 < |r.bytes| <= toRead && file.delivered == old(file.delivered) + r.bytes
      ensures r.Got? ==> Fuel(file.script) < Fuel(old(file.script))
      ensures !r.Got? ==> file.delivered == old(file.delivered)
      ensures Contents() == Overwrite(old(Contents()), offset, if r.Got? then r.bytes else [])
      ensures Fuel(file.script) <= Fuel(old(file.script)) && file.ended == (old(file.ended) || r.Eof?)
      ensures file.errored == (old(file.errored) || r.ReadError?) && file.dry == r.WouldBlock?
      ensures file.tries > old(file.tries)
    {
      r := file.Read(toRead);
      if r.Got? {
        SetData(offset, r.bytes);
      } else {
        SetData(offset, []);
      }
    }

    method FillWithZeros(offset: nat, len: nat)
      requires Valid() && offset + len <= dataLen
      modifies data
      ensures Valid()
      ensures Contents() == Overwrite(old(Contents()), offset, Zeros(len))
    {
      forall i | 0 <= i < len {
        data[offset + i] := '\0';
      }
      assert Contents()[..offset] == old(Contents())[..offset];
      assert Contents()[offset..offset + len] == Zeros(len);
    }
  }

  function Zeros(n: nat): Bytes {
    seq(n, _ => '\0')
  }

  function Overwrite(s: Bytes, offset: nat, bytes: Bytes): (r: Bytes)
    requires offset + |bytes| <= |s|
    ensures |r| == |s|
  {
    s[..offset] + bytes + s[offset + |bytes|..]
  }
}
