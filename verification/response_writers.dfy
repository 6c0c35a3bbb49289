/** The two bounded writers the ATT server fills: the response PDU under the
    negotiated MTU, and the buffer a read handler writes to. */
module ResponseWriters {
  import opened Bytes

  class L2capWriter {
    const mtu: nat
    var b: bytes
    var chunk: bytes
    var chunked: bool

    ghost predicate Valid()
      reads this
    {
      |b| <= mtu
    }

    constructor (mtu: nat)
      ensures Valid() && this.mtu == mtu
      ensures b == [] && chunk == [] && !chunked
    {
      this.mtu := mtu;
      b, chunk, chunked := [], [], false;
    }

    /** Starts an uncommitted chunk; the precondition is the panic it raises. */
    method Chunk()
      requires Valid() && !chunked
      modifies this
      ensures Valid() && chunked && b == old(b) && chunk == old(chunk)
    {
      chunked := true;
    }

    /** All of the chunk or none of it. */
    method Commit() returns (success: bool)
      requires Valid() && chunked
      modifies this
      ensures Valid() && !chunked && chunk == []
      ensures success == (|old(b)| + |old(chunk)| <= mtu)
      ensures b == if success then old(b) + old(chunk) else old(b)
    {
      success := false;
      if |b| + |chunk| <= mtu {
        success := true;
        b := b + chunk;
      }
      chunk := [];
      chunked := false;
    }

    /** As much of the chunk as still fits. */
    method CommitFit()
      requires Valid() && chunked
      modifies this
      ensures Valid() && !chunked && chunk == []
      ensures b == old(b) + old(chunk)[..Min(|old(chunk)|, mtu - |old(b)|)]
    {
      var writeable := mtu - |b|;
      if writeable > |chunk| {
        writeable := |chunk|;
      }
      b := b + chunk[..writeable];
      chunk := [];
      chunked := false;
    }

    method WriteFit(x: bytes) returns (whole: bool)
      requires Valid()
      modifies this
      ensures Valid() && chunked == old(chunked)
      ensures old(chunked) ==> whole && b == old(b) && chunk == old(chunk) + x
      ensures !old(chunked) ==> chunk == old(chunk)
      ensures !old(chunked) ==> whole == (|old(b)| + |x| <= mtu)
      ensures !old(chunked) ==> b == old(b) + x[..Min(|x|, mtu - |old(b)|)]
    {
      if chunked {
        chunk := chunk + x;
        return true;
      }
      var avail := mtu - |b|;
      if avail >= |x| {
        assert x[..|x|] == x;
        b := b + x;
        return true;
      }
      b := b + x[..avail];
      return false;
    }

    method WriteByteFit(x: byte) returns (whole: bool)
      requires Valid()
      modifies this
      ensures Valid() && chunked == old(chunked)
      ensures old(chunked) ==> whole && b == old(b) && chunk == old(chunk) + [x]
      ensures !old(chunked) ==> chunk == old(chunk) && whole == (|old(b)| < mtu)
      ensures !old(chunked) ==> b == if whole then old(b) + [x] else old(b)
    {
      whole := WriteFit([x]);
    }

    method WriteUint16Fit(v: nat) returns (whole: bool)
      requires Valid()
      modifies this
      ensures Valid() && chunked == old(chunked)
      ensures old(chunked) ==> whole && b == old(b) && chunk == old(chunk) + Le16(v)
      ensures !old(chunked) ==> chunk == old(chunk) && whole == (|old(b)| + 2 <= mtu)
      ensures !old(chunked) ==> b == old(b) + Le16(v)[..Min(2, mtu - |old(b)|)]
    {
      whole := WriteFit(Le16(v));
    }

    /** Discards the first `offset` bytes of the chunk. */
    method ChunkSeek(offset: nat) returns (ok: bool)
      requires Valid() && chunked
      modifies this
      ensures Valid() && chunked && b == old(b)
      ensures ok == (offset <= |old(chunk)|)
      ensures chunk == if ok then old(chunk)[offset..] else []
    {
      if |chunk| < offset {
        chunk := [];
        return false;
      }
      chunk := chunk[offset..];
      return true;
    }

    /** The response written so far; a chunk still open would be a panic. */
    method Bytes() returns (r: bytes)
      requires Valid() && !chunked
      ensures r == b && |r| <= mtu
    {
      r := b;
    }
  }

  /** What a handler that performs the writes `ws` in turn leaves in a buffer of
      `cap` bytes holding `acc`: a write that does not fit is refused whole. */
  function Collect(cap: nat, ws: seq<bytes>, acc: bytes): (r: bytes)
    requires |acc| <= cap
    ensures |r| <= cap && acc <= r
    decreases |ws|
  {
    if ws == [] then acc
    else if cap - |acc| < |ws[0]| then Collect(cap, ws[1..], acc)
    else Collect(cap, ws[1..], acc + ws[0])
  }

  /** Write by write: one that still fits is added, one that does not leaves no trace, and
      what comes later is not affected. */
  lemma {:induction false} CollectStep(cap: nat, a: seq<bytes>, w: bytes, b: seq<bytes>, acc: bytes)
    requires |acc| <= cap
    ensures var got := Collect(cap, a, acc);
      Collect(cap, a + [w] + b, acc) == Collect(cap, b, if |got| + |w| <= cap then got + w else got)
    decreases |a|
  {
    if a == [] {
      assert [] + [w] + b == [w] + b && ([w] + b)[1..] == b;
    } else {
      assert (a + [w] + b)[0] == a[0] && (a + [w] + b)[1..] == a[1..] + [w] + b;
      CollectStep(cap, a[1..], w, b, if |acc| + |a[0]| <= cap then acc + a[0] else acc);
    }
  }

  lemma CollectNothing(cap: nat, acc: bytes)
    requires |acc| <= cap
    ensures Collect(cap, [], acc) == acc
  {}

  class ResponseWriter {
    const capacity: nat
    var buf: bytes

    ghost predicate Valid()
      reads this
    {
      |buf| <= capacity
    }

    constructor (capacity: nat)
      ensures Valid() && this.capacity == capacity && buf == []
    {
      this.capacity := capacity;
      buf := [];
    }

    method Write(x: bytes) returns (ok: bool)
      requires Valid()
      modifies this
      ensures Valid() && ok == (|old(buf)| + |x| <= capacity)
      ensures buf == if ok then old(buf) + x else old(buf)
    {
      if capacity - |buf| < |x| {
        return false;
      }
      buf := buf + x;
      return true;
    }

    /** A read handler that performs the writes `ws`. */
    method Serve(ws: seq<bytes>)
      requires Valid()
      modifies this
      ensures Valid() && buf == Collect(capacity, ws, old(buf))
    {
      var i := 0;
      while i < |ws|
        invariant 0 <= i <= |ws| && Valid()
        invariant Collect(capacity, ws, old(buf)) == Collect(capacity, ws[i..], buf)
      {
        assert ws[i..][1..] == ws[i + 1..];
        var ok := Write(ws[i]);
        i := i + 1;
      }
    }
  }
}
