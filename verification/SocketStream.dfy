/** The buffered socket stream.  The socket may deliver any nonempty piece of what
    has been sent, and, unless it is reliable, may time out or fail at any time. */
module SocketStream {
  import opened Bytes

  const READ_BUFF_SIZE: nat := 4096

  class Stream {
    const reliable: bool
    /** What the peer has sent, or will send, and the socket has not delivered. */
    var incoming: Bytes
    var readBuff: array<byte>
    var off: nat
    var contentSize: nat
    /** What the socket has delivered, and what `Read` has returned of it. */
    ghost var received: Bytes
    ghost var returned: Bytes

    ghost predicate Valid()
      reads this, readBuff
    {
      && readBuff.Length == READ_BUFF_SIZE
      && off <= contentSize <= READ_BUFF_SIZE
      && returned + readBuff[off..contentSize] == received
    }

    /** Everything a reader of the stream can still get. */
    ghost function Unread(): Bytes
      reads this, readBuff
      requires Valid()
    {
      readBuff[off..contentSize] + incoming
    }

    constructor (reliable: bool, incoming: Bytes)
      ensures Valid() && fresh(readBuff)
      ensures this.reliable == reliable
      ensures Unread() == incoming && received == [] && returned == []
    {
      this.reliable := reliable;
      this.incoming := incoming;
      readBuff := new byte[READ_BUFF_SIZE];
      off := 0;
      contentSize := 0;
      received := [];
      returned := [];
    }

    method WaitReadable() returns (r: bool)
      ensures reliable ==> r
    {
      r := true;
      if * {
        r := reliable;
      }
    }

    /** The system call: at most `cap` bytes, 0 at the end of the input. */
    method ReadSocket(cap: nat) returns (n: int, data: Bytes)
      modifies this`incoming
      ensures reliable ==> n >= 0
      ensures n <= cap && |data| == (if n > 0 then n else 0)
      ensures old(incoming) == data + incoming
      ensures n == 0 && cap > 0 ==> incoming == []
    {
      if !reliable {
        if * {
          return -1, [];
        }
      }
      if incoming == [] || cap == 0 {
        return 0, [];
      }
      var k :| 1 <= k <= |incoming| && k <= cap;
      n := k;
      data := incoming[..k];
      incoming := incoming[k..];
    }

    /** Serve a read from the buffer. */
    method TakeBuffered(size: nat) returns (data: Bytes)
      requires Valid() && off < contentSize
      modifies this`off, this`returned
      ensures Valid()
      ensures old(Unread()) == data + Unread()
      ensures |data| <= size && (size > 0 ==> data != [])
      ensures returned == old(returned) + data
    {
      var remaining := contentSize - off;
      var n := if size <= remaining then size else remaining;
      data := readBuff[off..off + n];
      assert readBuff[off..contentSize] == data + readBuff[off + n..contentSize];
      off := off + n;
      returned := returned + data;
    }

    /** Refill the buffer and serve the read from it; the buffer is empty. */
    method Refill(size: nat) returns (n: int, data: Bytes)
      requires Valid() && off == contentSize
      modifies this`incoming, this`off, this`contentSize, this`received, this`returned, readBuff
      ensures Valid()
      ensures ReadContract(size, n, data, old(Unread()), Unread())
      ensures returned == old(returned) + data
    {
      off, contentSize := 0, 0;
      var got: Bytes;
      n, got := ReadSocket(READ_BUFF_SIZE);
      data := [];
      if n <= 0 {
        return;
      }
      forall i | 0 <= i < |got| {
        readBuff[i] := got[i];
      }
      assert readBuff[..|got|] == got;
      received := received + got;
      if n <= size {
        data := got;
      } else {
        data := readBuff[..size];
        off := size;
        contentSize := n;
        assert got == data + readBuff[off..contentSize];
        n := size;
      }
      returned := returned + data;
      assert old(incoming) == got + incoming;
    }

    /** What one read of at most `size` bytes does to the bytes still unread. */
    ghost predicate ReadContract(size: nat, n: int, data: Bytes, before: Bytes, after: Bytes)
    {
      && n <= size
      && |data| == (if n > 0 then n else 0)
      && before == data + after
      && (n == 0 && size > 0 ==> before == [])
      && (reliable ==> n >= 0)
    }

    /** Read straight into the caller's memory; the buffer is empty. */
    method ReadDirect(size: nat) returns (n: int, data: Bytes)
      requires Valid() && off == contentSize
      modifies this`incoming, this`off, this`contentSize, this`received, this`returned
      ensures Valid()
      ensures ReadContract(size, n, data, old(Unread()), Unread())
      ensures returned == old(returned) + data
    {
      off, contentSize := 0, 0;
      n, data := ReadSocket(size);
      received, returned := received + data, returned + data;
      assert old(incoming) == data + incoming;
    }

    method Read(size: nat) returns (n: int, data: Bytes)
      requires Valid()
      modifies this`incoming, this`off, this`contentSize, this`received, this`returned, readBuff
      ensures Valid()
      ensures ReadContract(size, n, data, old(Unread()), Unread())
      ensures returned == old(returned) + data
    {
      if off < contentSize {
        data := TakeBuffered(size);
        n := |data|;
        return;
      }
      var ready := WaitReadable();
      if !ready {
        return -1, [];
      }
      if size < READ_BUFF_SIZE {
        n, data := Refill(size);
      } else {
        n, data := ReadDirect(size);
      }
    }

    /** Any sequence of reads hands out the input in order: what was returned,
        followed by what is left in the buffer, is what was received. */
    method ReadAll(sizes: seq<nat>) returns (out: Bytes)
      requires Valid()
      modifies this`incoming, this`off, this`contentSize, this`received, this`returned, readBuff
      ensures Valid()
      ensures out + Unread() == old(Unread())
      ensures returned == old(returned) + out
    {
      out := [];
      for i := 0 to |sizes|
        invariant Valid() && readBuff == old(readBuff)
        invariant out + Unread() == old(Unread())
        invariant returned == old(returned) + out
      {
        ghost var before, left := out, Unread();
        var n, data := Read(sizes[i]);
        out := out + data;
        Onwards(before, data, left, Unread());
      }
    }
  }

  lemma Onwards(out: Bytes, data: Bytes, before: Bytes, after: Bytes)
    requires before == data + after
    ensures out + data + after == out + before
  {
  }
}
