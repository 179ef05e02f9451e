/** The probe's own ring of log bytes. */
module LocalBuffer {
  import opened Bits
  import opened Ring

  const BUFFER_SIZE: nat := 4096

  class LocalBuf {
    const data: array<u8>
    var writePos: nat
    var readPos: nat

    constructor ()
      ensures Valid() && fresh(data) && Contents() == []
    {
      data := new u8[BUFFER_SIZE];
      writePos, readPos := 0, 0;
    }

    ghost predicate Valid()
      reads this
    {
      data.Length == BUFFER_SIZE && InRing(BUFFER_SIZE, readPos, writePos)
    }

    /** The bytes held, oldest first. */
    ghost function Contents(): (s: seq<u8>)
      requires Valid()
      reads this, data
      ensures |s| < BUFFER_SIZE
    {
      Unread(data[..], readPos, writePos)
    }

    function AvailableSpace(): (n: nat)
      requires Valid()
      reads this, data
      ensures n == BUFFER_SIZE - 1 - |Contents()|
    {
      if readPos > writePos then readPos - writePos - 1 else BUFFER_SIZE - (writePos - readPos) - 1
    }

    function AvailableData(): (n: nat)
      requires Valid()
      reads this, data
      ensures n == |Contents()| && n + AvailableSpace() == BUFFER_SIZE - 1
    {
      if writePos >= readPos then writePos - readPos else BUFFER_SIZE - readPos + writePos
    }

    /** Store one byte at the write position and step it. */
    method PushByte(b: u8)
      requires Valid()
      modifies this`writePos, data
      ensures Valid()
      ensures old(AvailableSpace()) > 0 ==> Contents() == old(Contents()) + [b]
    {
      ghost var ring := data[..];
      if AvailableSpace() > 0 { Append(ring, readPos, writePos, b); }
      AdvanceIsMod(BUFFER_SIZE, writePos, 1);
      hide Unread, Advance, Held;
      data[writePos] := b;
      assert data[..] == ring[writePos := b];
      writePos := (writePos + 1) % BUFFER_SIZE;
    }

    /** Append what fits. Callers check the space first; without it, old bytes would be overwritten. */
    method WriteData(bytes: seq<u8>)
      requires Valid()
      modifies this`writePos, data
      ensures Valid()
      ensures |bytes| <= old(AvailableSpace()) ==> Contents() == old(Contents()) + bytes
    {
      hide Unread;
      for i := 0 to |bytes|
        invariant Valid()
        invariant |bytes| <= old(AvailableSpace()) ==> Contents() == old(Contents()) + bytes[..i]
      {
        PushByte(bytes[i]);
        assert bytes[..i + 1] == bytes[..i] + [bytes[i]];
      }
      assert bytes[..|bytes|] == bytes;
    }

    /** Copy the first `n` bytes held into `buf`, in one run or two. */
    method CopyOut(buf: array<u8>, n: nat)
      requires Valid() && buf != data && n <= buf.Length && n <= |Contents()|
      modifies buf
      ensures buf[..n] == Contents()[..n] && buf[n..] == old(buf[n..])
    {
      TwoRuns(data[..], readPos, writePos, n);
      hide Unread;
      if readPos + n <= BUFFER_SIZE {
        CopyFromSlice(buf, 0, data, readPos, n);
      } else {
        var firstPart := BUFFER_SIZE - readPos;
        var secondPart := n - firstPart;
        CopyFromSlice(buf, 0, data, readPos, firstPart);
        CopyFromSlice(buf, firstPart, data, 0, secondPart);
        assert buf[..n] == data[readPos..] + data[..secondPart];
      }
    }

    /** Move the longest prefix that fits into `buf`. */
    method ReadData(buf: array<u8>) returns (toRead: nat)
      requires Valid() && buf != data
      modifies this`readPos, buf
      ensures Valid()
      ensures toRead == (if buf.Length < |old(Contents())| then buf.Length else |old(Contents())|)
      ensures buf[..toRead] == old(Contents())[..toRead] && Contents() == old(Contents())[toRead..]
      ensures buf[toRead..] == old(buf[toRead..])
    {
      var available := AvailableData();
      toRead := if buf.Length < available then buf.Length else available;
      CopyOut(buf, toRead);
      Consume(data[..], readPos, writePos, toRead);
      AdvanceIsMod(BUFFER_SIZE, readPos, toRead);
      hide Unread, Advance, Held;
      readPos := (readPos + toRead) % BUFFER_SIZE;
    }
  }

  method CopyFromSlice(dst: array<u8>, at: nat, src: array<u8>, from: nat, n: nat)
    requires dst != src && at + n <= dst.Length && from + n <= src.Length
    modifies dst
    ensures dst[..] == old(dst[..at]) + src[from..from + n] + old(dst[at + n..])
  {
    forall k | 0 <= k < n {
      dst[at + k] := src[from + k];
    }
  }
}
