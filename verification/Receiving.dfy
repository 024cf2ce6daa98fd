// The receive path of a session: a cursor buffer over a byte array, and the loop
// that hands complete frames to the packet handler.
module Receiving {
  import opened Bytes
  import opened Framing

  const BUFFER_COUNT: nat := 10

  /** RecvBuffer: the unread bytes are buffer[readPos..writePos]. */
  class RecvBuffer {
    const capacity: nat
    const bufferSize: nat
    const buffer: array<byte>
    var readPos: nat
    var writePos: nat

    ghost predicate Valid()
      reads this
    {
      readPos <= writePos <= capacity == buffer.Length && capacity == BUFFER_COUNT * bufferSize
    }

    ghost function Data(): bytes
      requires Valid()
      reads this, buffer
    {
      buffer[readPos..writePos]
    }

    constructor (size: nat)
      ensures Valid() && Data() == [] && bufferSize == size && FreeSize() == capacity
      ensures fresh(buffer)
    {
      bufferSize, capacity := size, BUFFER_COUNT * size;
      buffer := new byte[BUFFER_COUNT * size];
      readPos, writePos := 0, 0;
    }

    function DataSize(): nat
      requires Valid()
      reads this
    {
      writePos - readPos
    }

    function FreeSize(): nat
      requires Valid()
      reads this
    {
      capacity - writePos
    }

    method OnRead(n: nat) returns (ok: bool)
      requires Valid()
      modifies this`readPos
      ensures Valid() && ok == (n <= |old(Data())|)
      ensures Data() == if ok then old(Data())[n..] else old(Data())
    {
      if n > DataSize() { return false; }
      readPos := readPos + n;
      return true;
    }

    /** Accepts `n` bytes that the socket has put at the write position. */
    method OnWrite(n: nat) returns (ok: bool)
      requires Valid()
      modifies this`writePos
      ensures Valid() && ok == (n <= old(FreeSize()))
      ensures if ok then writePos == old(writePos) + n else writePos == old(writePos)
    {
      if n > FreeSize() { return false; }
      writePos := writePos + n;
      return true;
    }

    /** The unread bytes can be moved to the front without overlapping themselves, or need not be moved. */
    ghost predicate CanClean()
      requires Valid()
      reads this
    {
      DataSize() == 0 || FreeSize() >= bufferSize || DataSize() <= readPos
    }

    /**
     * Rewinds an empty buffer, and moves the data to the front when less than one buffer is free. The
     * unread bytes stay the same, and up to nine buffers of them leave room for another. The memcpy asks
     * for ranges that do not overlap, which they never do while less than one buffer is unread.
     */
    method Clean()
      requires Valid() && CanClean()
      modifies this, buffer
      ensures Valid() && Data() == old(Data())
      ensures FreeSize() == if old(DataSize()) == 0 then capacity
                            else if old(FreeSize()) < bufferSize then capacity - old(DataSize()) else old(FreeSize())
      ensures DataSize() <= 9 * bufferSize ==> FreeSize() >= bufferSize
    {
      var dataSize := DataSize();
      if dataSize == 0 {
        readPos, writePos := 0, 0;
      } else if FreeSize() < bufferSize {
        forall i | 0 <= i < dataSize {
          buffer[i] := buffer[readPos + i];
        }
        readPos, writePos := 0, dataSize;
      }
    }
  }

  /** One turn of the framing loop, with `delivered` handed over before it. */
  lemma NextFrame(data: bytes, at: nat, delivered: seq<bytes>)
    requires at <= |data| && HasFrame(data[at..]) && SizeField(data[at..]) > 0
    ensures var n := SizeField(data[at..]);
            && Rest(data[at..]) == Rest(data[at + n..])
            && delivered + Frames(data[at..]) == (delivered + [data[at..at + n]]) + Frames(data[at + n..])
  {
    var n := SizeField(data[at..]);
    assert data[at..][..n] == data[at..at + n] && data[at..][n..] == data[at + n..];
    assert delivered + ([data[at..at + n]] + Frames(data[at + n..])) ==
      (delivered + [data[at..at + n]]) + Frames(data[at + n..]);
  }

  lemma Exhausted(s: bytes)
    requires !(HasFrame(s) && SizeField(s) > 0)
    ensures Frames(s) == [] && Rest(s) == s
  {}

  // Session.h gives every session a receive buffer of 10 times 64 KB.
  const BUFFER_SIZE: nat := 0x1_0000

  /** A PacketSession's receive side. */
  class PacketSession {
    const recvBuffer: RecvBuffer
    var connected: bool
    var delivered: seq<bytes> // the packets handed to OnRecvPacket, in order
    ghost var received: bytes // everything the socket has ever delivered

    /** Between two receives: all complete frames were delivered, the buffer holds the rest and has room for 64 KB. */
    ghost predicate Valid()
      reads this, recvBuffer, recvBuffer.buffer
    {
      && recvBuffer.Valid() && recvBuffer.bufferSize == BUFFER_SIZE
      && !Stuck(received) && delivered == Frames(received) && recvBuffer.Data() == Rest(received)
      && recvBuffer.FreeSize() >= BUFFER_SIZE
    }

    constructor ()
      ensures Valid() && received == [] && delivered == []
      ensures fresh(recvBuffer) && fresh(recvBuffer.buffer) && recvBuffer.FreeSize() == 655360
    {
      recvBuffer := new RecvBuffer(BUFFER_SIZE);
      connected, delivered, received := true, [], [];
    }

    /**
     * OnRecv: delivers every complete frame at the front of `data` and returns how many bytes that was.
     * `stuck` says that a header of size 0 was reached; the C++ loop then never returns.
     */
    method OnRecv(data: bytes) returns (processLen: nat, stuck: bool)
      modifies this`delivered
      ensures delivered == old(delivered) + Frames(data) && stuck == Stuck(data)
      ensures processLen <= |data| && data[processLen..] == Rest(data)
    {
      hide Frames, Rest;
      processLen := 0;
      assert data[0..] == data;
      while true
        invariant processLen <= |data| && Rest(data[processLen..]) == Rest(data)
        invariant delivered + Frames(data[processLen..]) == old(delivered) + Frames(data)
        decreases |data| - processLen
      {
        var dataSize := |data| - processLen;
        if dataSize < HEADER { Exhausted(data[processLen..]); break; }
        var size := SizeField(data[processLen..processLen + HEADER]);
        assert size == SizeField(data[processLen..]);
        if dataSize < size { Exhausted(data[processLen..]); break; }
        if size == 0 { Exhausted(data[processLen..]); return processLen, true; }
        NextFrame(data, processLen, delivered);
        delivered := delivered + [data[processLen..processLen + size]];
        processLen := processLen + size;
      }
      return processLen, false;
    }

    /**
     * ProcessRecv, for a receive that the socket wrote at the write position. A receive of no bytes
     * disconnects. Otherwise the cursor checks never fail, and afterwards the session again has delivered
     * exactly the complete frames of everything received, however the stream was cut into chunks.
     */
    method ProcessRecv(chunk: bytes) returns (stuck: bool)
      requires Valid() && |chunk| <= recvBuffer.FreeSize()
      modifies this, recvBuffer, recvBuffer.buffer
      ensures received == old(received) + chunk && delivered == Frames(received)
      ensures stuck == Stuck(received) && (!stuck ==> Valid() && recvBuffer.FreeSize() >= 65536)
      ensures !stuck ==> connected == (old(connected) && chunk != [])
    {
      if chunk == [] {
        connected := false;
        assert received + chunk == received;
        return false;
      }
      stuck := ReceiveData(chunk);
    }

    method ReceiveData(chunk: bytes) returns (stuck: bool)
      requires Valid() && chunk != [] && |chunk| <= recvBuffer.FreeSize()
      modifies this`delivered, this`received, recvBuffer, recvBuffer.buffer
      ensures received == old(received) + chunk && delivered == Frames(received)
      ensures stuck == Stuck(received) && (!stuck ==> Valid())
    {
      received := received + chunk;
      var at := recvBuffer.writePos;
      forall i | 0 <= i < |chunk| {
        recvBuffer.buffer[at + i] := chunk[i];
      }
      var ok := recvBuffer.OnWrite(|chunk|);
      assert ok; // so the disconnect on overflow is never taken
      assert recvBuffer.Data() == Rest(old(received)) + chunk;
      Resumes(old(received), chunk);
      var processLen;
      processLen, stuck := OnRecv(recvBuffer.buffer[recvBuffer.readPos..recvBuffer.writePos]);
      if stuck { return; }
      ok := recvBuffer.OnRead(processLen);
      assert ok; // nor the one on over-reading
      RestIsShort(received);
      recvBuffer.Clean();
    }

    /**
     * Bytes that arrive on the socket, handed over in receives of at most the free space of the buffer:
     * the packets they complete are delivered in order, up to a header of size 0 if they lead to one.
     */
    method ReceiveAll(data: bytes) returns (stuck: bool)
      requires Valid()
      modifies this, recvBuffer, recvBuffer.buffer
      ensures stuck == Stuck(old(received) + data)
      ensures !stuck ==> Valid() && received == old(received) + data && connected == old(connected)
      ensures delivered == old(delivered) + Frames(Rest(old(received)) + data)
    {
      hide Frames, Rest, Stuck;
      var at := 0;
      assert data[..0] == [] && received + [] == received;
      Resumes(received, data);
      while at < |data|
        invariant at <= |data| && Valid() && received == old(received) + data[..at] && connected == old(connected)
      {
        var n := if |data| - at <= recvBuffer.FreeSize() then |data| - at else recvBuffer.FreeSize();
        assert data[..at + n] == data[..at] + data[at..at + n];
        stuck := ProcessRecv(data[at..at + n]);
        assert received == old(received) + data[..at + n];
        if stuck {
          assert old(received) + data == received + data[at + n..];
          StuckStays(received, data[at + n..]);
          return;
        }
        at := at + n;
      }
      assert data[..at] == data;
      return false;
    }
  }
}
