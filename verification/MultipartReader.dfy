/** The streaming multipart reader as the source writes it, against the reader on values. */
module MultipartReaders {
  import opened Bytes
  import opened Delimiters
  import opened MultipartParse
  import R = ReaderStates

  class MultipartReader {
    const boundary: bytes
    const numParts: nat
    const boundaryBuffer: array<byte>
    var boundaryBufferOffset: nat
    var partIndex: int
    var matchCounter: nat
    var needHeader: bool
    /** What the parts' data callbacks have been called with. */
    var delivered: seq<seq<bytes>>
    /** How many parts' header callbacks are past. */
    var announced: nat

    predicate Valid()
      reads this
    {
      && boundaryBuffer.Length == |boundary| + 9 && boundaryBufferOffset <= boundaryBuffer.Length
      && |delivered| == numParts && -1 <= partIndex <= numParts
    }

    function Shape(): Format {
      Format(boundary, numParts)
    }

    function State(): R.Reader
      requires Valid()
      reads this, boundaryBuffer
    {
      R.Reader(partIndex, matchCounter, needHeader, boundaryBuffer[..boundaryBufferOffset], delivered, announced)
    }

    constructor (boundary: bytes, numParts: nat)
      ensures Valid() && Shape() == Format(boundary, numParts) && fresh(boundaryBuffer)
      ensures State() == R.Initial(Shape())
    {
      this.boundary, this.numParts := boundary, numParts;
      boundaryBuffer, boundaryBufferOffset := new byte[|boundary| + 9], 0;
      partIndex, matchCounter, needHeader := -1, 0, false;
      delivered, announced := seq(numParts, _ => []), 0;
    }

    /** Calls the current part's data callback; there is none before the first part. */
    method Deliver(piece: bytes)
      requires Valid() && partIndex < numParts
      modifies `delivered
      ensures Valid() && State() == R.Give(old(State()), piece)
    {
      if partIndex != -1 {
        delivered := delivered[partIndex := delivered[partIndex] + [piece]];
      }
    }

    method Match(d: bytes, c: byte)
      requires Valid() && partIndex < numParts && matchCounter < |d|
      modifies this
      ensures Valid() && partIndex == old(partIndex) && State() == R.Scan1(old(State()), d, c)
    {
      if c != d[matchCounter] {
        if boundaryBufferOffset > 0 {
          Deliver(boundaryBuffer[..boundaryBufferOffset]);
          boundaryBufferOffset := 0;
        }
        matchCounter := 0;
      }
      if c == d[matchCounter] {
        matchCounter := matchCounter + 1;
      }
    }

    method Scan(d: bytes, buffer: bytes) returns (scanned: nat)
      requires Valid() && partIndex < numParts
      modifies this
      ensures Valid() && partIndex == old(partIndex) && scanned <= |buffer|
      ensures (State(), scanned) == R.Scan(old(State()), d, buffer)
    {
      scanned := 0;
      while scanned < |buffer| && matchCounter < |d|
        invariant Valid() && partIndex == old(partIndex) && scanned <= |buffer|
        invariant R.Scan(old(State()), d, buffer)
          == (R.Scan(State(), d, buffer[scanned..]).0, scanned + R.Scan(State(), d, buffer[scanned..]).1)
      {
        assert buffer[scanned..][1..] == buffer[scanned + 1..];
        Match(d, buffer[scanned]);
        scanned := scanned + 1;
      }
    }

    /** Keeps the begun delimiter at the end of the buffer for the next call. */
    method Carry(tail: bytes)
      requires Valid() && boundaryBufferOffset + |tail| <= boundaryBuffer.Length
      modifies boundaryBuffer, `boundaryBufferOffset
      ensures Valid() && State() == old(State()).(carried := old(State()).carried + tail)
    {
      var n := boundaryBufferOffset;
      forall i | 0 <= i < |tail| {
        boundaryBuffer[n + i] := tail[i];
      }
      boundaryBufferOffset := n + |tail|;
      assert boundaryBuffer[..n] == old(boundaryBuffer[..n]);
      assert boundaryBuffer[n..n + |tail|] == tail;
      assert boundaryBuffer[..n + |tail|] == boundaryBuffer[..n] + boundaryBuffer[n..n + |tail|];
    }

    /** At a complete delimiter outside a header. */
    method FinishPart(d: bytes, buffer: bytes, scanned: nat)
      requires Valid() && partIndex < numParts && !needHeader && matchCounter == |d| && scanned <= |buffer|
      modifies this
      ensures Valid() && State() == R.Settle(Shape(), old(State()), d, buffer, scanned)
    {
      if partIndex == -1 {
        partIndex := partIndex + 1;
      } else {
        if scanned > |d| {
          Deliver(buffer[..scanned - |d|]);
        }
        Deliver([]);
        partIndex := partIndex + 1;
      }
      if partIndex < numParts {
        needHeader := true;
      }
      matchCounter, boundaryBufferOffset := 0, 0;
    }

    /** What follows the scanning of a portion of what is left of the caller's buffer. */
    method Settle(d: bytes, buffer: bytes, scanned: nat)
      requires Valid() && partIndex < numParts && 0 < |d| <= |boundary| + 8 && scanned <= |buffer|
      requires matchCounter < |d| && !needHeader ==> boundaryBufferOffset == 0 && matchCounter <= scanned
      requires matchCounter <= |d|
      modifies this, boundaryBuffer
      ensures Valid() && State() == R.Settle(Shape(), old(State()), d, buffer, scanned)
    {
      if needHeader {
        if matchCounter == |d| {
          announced := announced + 1;
          needHeader, matchCounter := false, 0;
        }
      } else if matchCounter == |d| {
        FinishPart(d, buffer, scanned);
      } else if matchCounter > 0 {
        Deliver(buffer[..scanned - matchCounter]);
        Carry(buffer[scanned - matchCounter..scanned]);
      } else {
        Deliver(buffer);
        boundaryBufferOffset := 0;
      }
    }

    /** Which delimiter to look for. */
    method Delimiter() returns (d: bytes)
      requires Valid()
      ensures d == R.Delimiter(Shape(), State())
    {
      if needHeader {
        d := HEADER_END;
      } else if partIndex == -1 {
        d := Opening(boundary);
      } else if partIndex == numParts - 1 {
        d := Closing(boundary);
      } else {
        d := Middle(boundary);
      }
    }

    /** One turn of the outer loop. */
    method Portion(buffer: bytes, ghost p: Parse) returns (scanned: nat)
      requires Valid() && R.Settled(Shape(), State(), p) && Fits(Shape(), p, buffer) && buffer != []
      modifies this, boundaryBuffer
      ensures Valid() && 0 < scanned <= |buffer|
      ensures R.Read(Shape(), old(State()), buffer) == R.Read(Shape(), State(), buffer[scanned..])
      ensures R.Settled(Shape(), State(), Feed(Shape(), p, buffer[..scanned]))
      ensures Fits(Shape(), Feed(Shape(), p, buffer[..scanned]), buffer[scanned..])
    {
      R.FitsIsNotDone(Shape(), p, buffer);
      var d := Delimiter();
      R.ScanLeaves(Shape(), State(), p, d, buffer);
      R.PortionKeeps(Shape(), State(), p, d, buffer);
      R.RestFits(Shape(), p, buffer, R.Scan(State(), d, buffer).1);
      R.ReadPortion(Shape(), State(), buffer, R.Scan(State(), d, buffer).1);
      scanned := Scan(d, buffer);
      Settle(d, buffer, scanned);
    }

    /** The same, on what is left of the caller's buffer; `goal` is what the whole call is to lead to. */
    method Turn(buffer: array<byte>, at: nat, ghost left: bytes, ghost p: Parse, ghost goal: R.Reader)
      returns (next: nat, ghost rest: bytes, ghost q: Parse)
      requires Valid() && buffer != boundaryBuffer && at < buffer.Length && left == buffer[at..]
      requires R.Settled(Shape(), State(), p) && Fits(Shape(), p, left) && goal == R.Read(Shape(), State(), left)
      modifies this, boundaryBuffer
      ensures Valid() && at < next <= buffer.Length && rest == buffer[next..]
      ensures R.Settled(Shape(), State(), q) && Fits(Shape(), q, rest) && goal == R.Read(Shape(), State(), rest)
    {
      ghost var all := buffer[..];
      var scanned := Portion(buffer[at..], p);
      next := at + scanned;
      rest, q := left[scanned..], Feed(Shape(), p, left[..scanned]);
      assert buffer[..] == all;
      CutTwice(all, at, next);
    }

    static lemma CutTwice(all: bytes, at: nat, next: nat)
      requires at <= next <= |all|
      ensures all[at..][next - at..] == all[next..]
    {
    }

    /**
     * One read call. `p` is where the byte-by-byte parse stands before it; afterwards the reader
     * stands where that parse does after the buffer.
     */
    method ReadMultipart(buffer: array<byte>, ghost p: Parse)
      requires Valid() && buffer != boundaryBuffer
      requires R.Settled(Shape(), State(), p) && Fits(Shape(), p, buffer[..])
      modifies this, boundaryBuffer
      ensures Valid() && State() == R.Read(Shape(), old(State()), buffer[..])
      ensures R.Settled(Shape(), State(), Feed(Shape(), p, buffer[..]))
    {
      ghost var left, q := buffer[..], p;
      ghost var goal := R.Read(Shape(), State(), left);
      R.ReadKeeps(Shape(), State(), p, left);
      var at: nat := 0;
      assert buffer[0..] == left;
      while at < buffer.Length
        invariant Valid() && at <= buffer.Length && left == buffer[at..]
        invariant R.Settled(Shape(), State(), q) && Fits(Shape(), q, left) && goal == R.Read(Shape(), State(), left)
      {
        at, left, q := Turn(buffer, at, left, q, goal);
      }
      R.ReadNothing(Shape(), State());
    }
  }
}
