/** The byte queue every socket reads into and writes from: a vector with a read and a write index. */
module Buffer {

  class Buffer<T(0)> {
    var buffer: array<T>
    var rindex: nat
    var windex: nat

    constructor (initSize: nat)
      ensures Valid() && Contents() == [] && fresh(buffer)
    {
      buffer := new T[initSize];
      rindex, windex := 0, 0;
    }

    ghost predicate Valid()
      reads this
    {
      rindex <= windex <= buffer.Length
    }

    /** The unread bytes. */
    ghost function Contents(): seq<T>
      reads this, buffer
      requires Valid()
    {
      buffer[rindex..windex]
    }

    function Readable(): (n: nat)
      reads this, buffer
      requires Valid()
      ensures n == |Contents()|
    {
      windex - rindex
    }

    function Writable(): nat
      reads this
      requires Valid()
    {
      buffer.Length - windex
    }

    /** The unread bytes as a view. */
    method Peek() returns (s: seq<T>)
      requires Valid()
      ensures s == Contents()
    {
      s := buffer[rindex..windex];
    }

    method RetiredAll()
      requires Valid()
      modifies this`rindex, this`windex
      ensures Valid() && Contents() == []
    {
      rindex, windex := 0, 0;
    }

    /** Drops the first `len` unread bytes, or all of them. */
    method Retired(len: nat)
      requires Valid()
      modifies this`rindex, this`windex
      ensures Valid() && Contents() == if len < |old(Contents())| then old(Contents())[len..] else []
    {
      if len < Readable() {
        rindex := rindex + len;
      } else {
        RetiredAll();
      }
    }

    method Append(data: seq<T>)
      requires Valid()
      modifies this, buffer
      ensures Valid() && (buffer == old(buffer) || fresh(buffer))
      ensures Contents() == old(Contents()) + data
    {
      if |data| == 0 {
        return;
      }
      EnsureWritable(|data|);
      CopyIn(data);
      windex := windex + |data|;
      assert buffer[rindex..windex] == buffer[rindex..windex - |data|] + buffer[windex - |data|..windex];
    }

    /** `std::copy` to the write position. */
    method CopyIn(data: seq<T>)
      requires Valid() && Writable() >= |data|
      modifies buffer
      ensures Valid() && Contents() == old(Contents())
      ensures buffer[windex..windex + |data|] == data
    {
      var j := 0;
      while j < |data|
        invariant 0 <= j <= |data|
        invariant Contents() == old(Contents())
        invariant buffer[windex..windex + j] == data[..j]
      {
        buffer[windex + j] := data[j];
        j := j + 1;
      }
    }

    /** Afterwards there is room for `len` bytes, and what was unread still is. */
    method EnsureWritable(len: nat)
      requires Valid()
      modifies this, buffer
      ensures Valid() && (buffer == old(buffer) || fresh(buffer))
      ensures Contents() == old(Contents()) && Writable() >= len
    {
      if Writable() < len {
        MakeSpace(len);
      }
    }

    /**
     Grows the vector, or moves the unread bytes down to its start. Source and
     target of the move overlap when more is unread than lies before it.
     */
    method MakeSpace(len: nat)
      requires Valid() && Writable() < len
      modifies this, buffer
      ensures Valid() && (buffer == old(buffer) || fresh(buffer))
      ensures Contents() == old(Contents()) && Writable() >= len
    {
      if rindex + Writable() < len {
        Resize(windex + len + 1);
      } else {
        var rlen := Readable();
        ghost var unread := Contents();
        var j := 0;
        while j < rlen
          invariant 0 <= j <= rlen && windex == rindex + rlen <= buffer.Length && buffer == old(buffer)
          invariant buffer[..j] == unread[..j]
          invariant forall k :: j <= k < rlen ==> buffer[rindex + k] == unread[k]
        {
          buffer[j] := buffer[rindex + j];
          assert unread[..j + 1] == unread[..j] + [unread[j]];
          j := j + 1;
        }
        rindex := 0;
        windex := rindex + rlen;
      }
    }

    /** `vector::resize` to a larger size. */
    method Resize(size: nat)
      requires Valid() && buffer.Length <= size
      modifies this`buffer
      ensures Valid() && fresh(buffer) && buffer.Length == size
      ensures Contents() == old(Contents())
    {
      var larger := new T[size];
      var j := 0;
      while j < buffer.Length
        invariant 0 <= j <= buffer.Length && buffer == old(buffer) && fresh(larger) && larger.Length == size
        invariant larger[..j] == buffer[..j] && buffer[..] == old(buffer[..])
      {
        larger[j] := buffer[j];
        j := j + 1;
      }
      assert larger[..buffer.Length][rindex..windex] == buffer[..][rindex..windex];
      buffer := larger;
    }
  }
}
