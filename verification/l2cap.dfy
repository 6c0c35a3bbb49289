/** One L2CAP connection over ACL packets (Bluetooth Core Specification, Vol 3 Part A,
    section 7.2): fragmentation in place, and reassembly. */
module L2cap {
  import opened Bytes

  const PACKET_TYPE_ACL: byte := 0x02
  const CONTINUING: byte := 0x10
  const ATT_CID: uint16 := 4
  const SIGNAL_CID: uint16 := 5

  // ------------------------------------------------------------- fragments

  /** An ACL packet as written to the device: handles have 12 bits, the four bits above
      them are flags. */
  function Packet(handle: nat, flag: byte, d: bytes): (p: bytes)
    requires handle < 0x1000 && flag % 0x10 == 0
    ensures |p| == 5 + |d|
  {
    HandleAndFlags(handle, flag);
    [PACKET_TYPE_ACL, Low(handle), High(handle) + flag, Low(|d|), High(|d|)] + d
  }

  lemma PacketOf(p: bytes, handle: nat, flag: byte, d: bytes)
    requires handle < 0x1000 && flag % 0x10 == 0 && |p| == 5 + |d| && p[5..] == d
    requires p[0] == PACKET_TYPE_ACL && p[1] == Low(handle) && p[2] as int == High(handle) + flag
    requires p[3] == Low(|d|) && p[4] == High(|d|)
    ensures p == Packet(handle, flag, d)
  {
    assert p[..5] == [p[0], p[1], p[2], p[3], p[4]];
  }

  /** An L2CAP PDU: length, channel, payload. */
  function Sdu(cid: uint16, payload: bytes): (s: bytes)
    ensures |s| == 4 + |payload|
  {
    Le16(|payload|) + Le16(cid) + payload
  }

  function Fragments(sdu: bytes, handle: nat, size: nat, flag: byte): seq<bytes>
    requires handle < 0x1000 && size > 0 && flag % 0x10 == 0
    decreases |sdu|
  {
    if sdu == [] then []
    else
      var n := Min(|sdu|, size);
      [Packet(handle, flag, sdu[..n])] + Fragments(sdu[n..], handle, size, CONTINUING)
  }

  /** What the device has received once the rest of a PDU has been sent too. */
  function Sent(log: seq<bytes>, rest: bytes, handle: nat, size: nat, flag: byte): seq<bytes>
    requires handle < 0x1000 && size > 0 && flag % 0x10 == 0
    decreases |rest|
  {
    if rest == [] then log
    else
      var n := Min(|rest|, size);
      Sent(log + [Packet(handle, flag, rest[..n])], rest[n..], handle, size, CONTINUING)
  }

  lemma {:induction false} SentIsFragments(log: seq<bytes>, rest: bytes, handle: nat, size: nat, flag: byte)
    requires handle < 0x1000 && size > 0 && flag % 0x10 == 0
    ensures Sent(log, rest, handle, size, flag) == log + Fragments(rest, handle, size, flag)
    decreases |rest|
  {
    if rest != [] {
      var n := Min(|rest|, size);
      var p := Packet(handle, flag, rest[..n]);
      SentIsFragments(log + [p], rest[n..], handle, size, CONTINUING);
      Assoc(log, [p], Fragments(rest[n..], handle, size, CONTINUING));
    }
  }

  // -------------------------------------------------------------- receiving

  /** A decoded ACL packet. */
  datatype Acl = Acl(attr: nat, flags: nat, b: bytes)

  function Unmarshal(b: bytes): Option<Acl>
  {
    if |b| < 4 then None
    else
      var dLen := Word(b[2..]);
      if |b| != 4 + dLen then None
      else Some(Acl((b[0] as int) + (b[1] as int) % 0x10 * 0x100, (b[1] as int) / 0x10, b[4..]))
  }

  predicate IsStart(a: Acl) { a.flags % 4 != 1 }

  datatype Parsed = Parsed(pdus: seq<bytes>, rest: bytes)

  /** Where the first PDU of `buf` ends, if it is complete. */
  function PduEnd(buf: bytes): (e: Option<nat>)
    ensures e.Some? ==> 4 <= e.value <= |buf|
  {
    if |buf| < 4 || |buf| < 4 + Word(buf) then None else Some(4 + Word(buf))
  }

  /** All complete PDUs at the front of `buf`, signals left out, and what remains. */
  function Parse(buf: bytes): Parsed
    decreases |buf|
  {
    var e := PduEnd(buf);
    if e.None? then Parsed([], buf)
    else
      var more := Parse(buf[e.value..]);
      if Word(buf[2..]) == SIGNAL_CID then more
      else Parsed([buf[4..e.value]] + more.pdus, more.rest)
  }

  /** The buffer parsed when fragment `a` has arrived. */
  function Joined(buf: bytes, a: Acl): bytes
  {
    if IsStart(a) then a.b else buf + a.b
  }

  datatype Rx = Rx(buf: bytes, out: seq<bytes>)

  function Received(s: Rx, a: Acl): Rx
  {
    if a.b == [] then s
    else
      var r := Parse(Joined(s.buf, a));
      Rx(r.rest, s.out + r.pdus)
  }

  function ReceivedAll(s: Rx, aa: seq<Acl>): Rx
    decreases |aa|
  {
    if aa == [] then s else ReceivedAll(Received(s, aa[0]), aa[1..])
  }

  datatype ReadError = NoError | ShortBuffer | EndOfFile

  class Conn {
    const attr: nat
    const bufSize: nat
    var buf: bytes            // reassembly buffer
    var out: seq<bytes>       // payloads handed to the reader
    var closed: bool          // no payload will follow
    var log: seq<bytes>       // packets written to the device

    constructor (attr: nat, bufSize: nat)
      ensures this.attr == attr && this.bufSize == bufSize && buf == [] && out == [] && !closed && log == []
    {
      this.attr, this.bufSize := attr, bufSize;
      buf, out, closed, log := [], [], false, [];
    }

    /** The buffer `Write` works in: room for one header, then the PDU. */
    method Prepare(cid: uint16, b: bytes) returns (w: array<byte>)
      ensures fresh(w) && w.Length == 5 + |Sdu(cid, b)|
      ensures forall i :: 5 <= i < w.Length ==> w[i] == Sdu(cid, b)[i - 5]
    {
      var head := [0, 0, 0, 0, 0, Low(|b|), High(|b|), Low(cid), High(cid)];
      w := new byte[9 + |b|](i requires 0 <= i < 9 + |b| => if i < 9 then head[i] else b[i - 9]);
    }

    /** Sends one payload. The headers are written into the buffer that holds the
        payload, each over bytes that have been sent already. */
    method Write(cid: uint16, b: bytes) returns (n: nat)
      requires attr < 0x1000 && 1 <= bufSize <= 0xFFFF && |b| <= 0xFFFF
      modifies this`log
      ensures n == |b|
      ensures log == old(log) + Fragments(Sdu(cid, b), attr, bufSize, 0)
    {
      hide Packet, Sdu, Fragments, Low, High;
      ghost var sdu := Sdu(cid, b);
      var flag: byte := 0;
      var w := Prepare(cid, b);
      var off, left := 0, 4 + |b|;
      assert sdu[0..] == sdu;
      while left > 0
        invariant 0 <= off && 0 <= left && off + left == |sdu| && flag % 0x10 == 0
        invariant forall i :: off + 5 <= i < w.Length ==> w[i] == sdu[i - 5]
        invariant Sent(log, sdu[off..], attr, bufSize, flag) == Sent(old(log), sdu, attr, bufSize, 0)
      {
        var dLen := left;
        if dLen > bufSize {
          dLen := bufSize;
        }
        WritePacket(w, off, flag, dLen, sdu);
        assert sdu[off..][..dLen] == sdu[off..off + dLen] && sdu[off..][dLen..] == sdu[off + dLen..];
        off := off + dLen;
        flag := CONTINUING;
        left := left - dLen;
      }
      SentIsFragments(old(log), sdu, attr, bufSize, 0);
      n := |b|;
    }

    /** A user's write goes to the Attribute Protocol, channel 4. */
    method WritePayload(b: bytes) returns (n: nat)
      requires attr < 0x1000 && 1 <= bufSize <= 0xFFFF && |b| <= 0xFFFF
      modifies this`log
      ensures n == |b| && log == old(log) + Fragments(Sdu(4, b), attr, bufSize, 0)
    {
      n := Write(ATT_CID, b);
    }

    /** One packet: its header, then the part of the PDU that lies behind it in the buffer. */
    method WritePacket(w: array<byte>, off: nat, flag: byte, dLen: nat, ghost sdu: bytes)
      requires attr < 0x1000 && flag % 0x10 == 0 && off + dLen <= |sdu| && w.Length == |sdu| + 5
      requires forall i :: off + 5 <= i < w.Length ==> w[i] == sdu[i - 5]
      modifies w, this`log
      ensures log == old(log) + [Packet(attr, flag, sdu[off..off + dLen])]
      ensures forall i :: off + 5 <= i < w.Length ==> w[i] == sdu[i - 5]
    {
      hide Packet, Low, High;
      WriteHeader(w, off, flag, dLen);
      assert w[off..off + 5 + dLen][5..] == sdu[off..off + dLen];
      PacketOf(w[off..off + 5 + dLen], attr, flag, sdu[off..off + dLen]);
      log := log + [w[off..off + 5 + dLen]];
    }

    /** The header of the next packet, over five bytes of the buffer. */
    method WriteHeader(w: array<byte>, off: nat, flag: byte, dLen: nat)
      requires attr < 0x1000 && flag % 0x10 == 0 && off + 5 <= w.Length
      modifies w
      ensures w[off] == PACKET_TYPE_ACL && w[off + 1] == Low(attr) && w[off + 2] as int == High(attr) + flag
      ensures w[off + 3] == Low(dLen) && w[off + 4] == High(dLen)
      ensures forall i :: 0 <= i < w.Length && !(off <= i < off + 5) ==> w[i] == old(w[i])
    {
      HandleAndFlags(attr, flag);
      w[off] := PACKET_TYPE_ACL;
      w[off + 1] := Low(attr);
      w[off + 2] := High(attr) + flag;
      w[off + 3] := Low(dLen);
      w[off + 4] := High(dLen);
    }

    /** One turn of the reassembly loop. */
    method Receive(a: Acl)
      modifies this`buf, this`out
      ensures Rx(buf, out) == Received(Rx(old(buf), old(out)), a)
    {
      if |a.b| < 1 { return; }
      if IsStart(a) {
        buf := a.b;
      } else {
        buf := buf + a.b;
      }
      ghost var whole := buf;
      while |buf| >= 4
        invariant Parse(whole).rest == Parse(buf).rest
        invariant old(out) + Parse(whole).pdus == out + Parse(buf).pdus
        decreases |buf|
      {
        var tLen: nat := Word(buf);
        var cid := Word(buf[2..]);
        var pduLen := 4 + tLen;
        if |buf| < pduLen { break; }
        var pdu := buf[4..pduLen];
        if cid != SIGNAL_CID {
          Assoc(out, [pdu], Parse(buf[pduLen..]).pdus);
          out := out + [pdu];
        }
        buf := buf[pduLen..];
      }
    }

    /** Takes the oldest payload; one too long for the reader's buffer is cut, with an
        error. Payloads still queued when the connection ends are read before the end is.
        A reader of an open connection waits for a payload. */
    method Read(cap: nat) returns (b: bytes, e: ReadError)
      requires out != [] || closed
      modifies this`out
      ensures e == EndOfFile <==> old(out) == []
      ensures old(out) == [] ==> b == [] && out == []
      ensures old(out) != [] ==>
        && b <= old(out)[0] && |b| == Min(cap, |old(out)[0]|) && out == old(out)[1..]
        && (e == NoError <==> b == old(out)[0])
    {
      if out == [] {
        return [], EndOfFile;
      }
      var d := out[0];
      out := out[1..];
      if |d| > cap {
        return d[..cap], ShortBuffer;
      }
      return d, NoError;
    }

    /** The goroutine of a connection: every fragment that arrives, then the end. */
    method Loop(aa: seq<Acl>)
      modifies this`buf, this`out, this`closed
      ensures Rx(buf, out) == ReceivedAll(Rx(old(buf), old(out)), aa) && closed
    {
      var i := 0;
      assert aa[0..] == aa;
      while i < |aa|
        invariant 0 <= i <= |aa|
        invariant ReceivedAll(Rx(buf, out), aa[i..]) == ReceivedAll(Rx(old(buf), old(out)), aa)
      {
        assert aa[i..][0] == aa[i] && aa[i..][1..] == aa[i + 1..];
        Receive(aa[i]);
        i := i + 1;
      }
      closed := true;
    }
  }

  // ------------------------------------------- sending, then receiving

  /** The packets a receiver decodes; the driver has taken the packet type off. */
  function Acls(ps: seq<bytes>): seq<Acl>
  {
    if ps == [] then []
    else if ps[0] == [] || Unmarshal(ps[0][1..]).None? then Acls(ps[1..])
    else [Unmarshal(ps[0][1..]).value] + Acls(ps[1..])
  }

  /** A 12-bit handle and four flag bits share two bytes. */
  lemma HandleAndFlags(handle: nat, flag: byte)
    requires handle < 0x1000 && flag % 0x10 == 0
    ensures High(handle) as int + flag < 0x100
    ensures Low(handle) as int + (High(handle) as int + flag) % 0x10 * 0x100 == handle
    ensures (High(handle) as int + flag) / 0x10 == flag / 0x10
  {
    var hi := handle / 0x100;
    assert High(handle) == hi < 0x10;
    assert (hi + flag) % 0x10 == hi;
  }

  lemma UnmarshalPacket(handle: nat, flag: byte, d: bytes)
    requires handle < 0x1000 && flag % 0x10 == 0 && |d| <= 0xFFFF
    ensures Unmarshal(Packet(handle, flag, d)[1..]) == Some(Acl(handle, flag / 0x10, d))
  {
    hide Low, High;
    HandleAndFlags(handle, flag);
    var b := Packet(handle, flag, d)[1..];
    assert b == [Low(handle), High(handle) + flag, Low(|d|), High(|d|)] + d;
    assert b[2..] == Le16(|d|) + d && b[4..] == d;
    WordOfLe16(|d|);
    assert Word(b[2..]) == Word(Le16(|d|));
  }

  /** A packet is refused exactly when its length field does not say how long it is. */
  lemma UnmarshalIff(b: bytes)
    ensures Unmarshal(b).Some? <==> |b| >= 4 && |b| == 4 + b[2] as int + 0x100 * b[3] as int
  {}

  /** A PDU cut short yields nothing yet; a whole one yields its payload. */
  lemma ParseSdu(cid: uint16, payload: bytes, off: nat)
    requires |payload| <= 0xFFFF && off <= 4 + |payload|
    ensures Parse(Sdu(cid, payload)[..off]) ==
      if off < 4 + |payload| then Parsed([], Sdu(cid, payload)[..off])
      else Parsed(if cid == SIGNAL_CID then [] else [payload], [])
  {
    var sdu := Sdu(cid, payload);
    var b := sdu[..off];
    WordOfLe16(|payload|);
    WordOfLe16(cid);
    if off >= 4 {
      assert b[0] == Low(|payload|) && b[1] == High(|payload|);
      assert b[2..][0] == Low(cid) && b[2..][1] == High(cid);
      assert Word(b) == Word(Le16(|payload|)) && Word(b[2..]) == Word(Le16(cid));
    }
    if off == 4 + |payload| {
      assert b == sdu && b[4..] == payload && b[off..] == [];
    }
  }

  // ----------------------------------------------- any way to cut a PDU

  /** One fragment: its four flag bits, of which the lower two mark a continuation (01) or a
      start (00 not flushable, 10 flushable, 11 complete), and its part of the PDU. */
  datatype Piece = Piece(flags: nat, d: bytes)

  function Bodies(ds: seq<Piece>): bytes
  {
    if ds == [] then [] else ds[0].d + Bodies(ds[1..])
  }

  predicate Continue(ds: seq<Piece>)
  {
    forall i :: 0 <= i < |ds| ==> ds[i].flags < 0x10 && ds[i].flags % 4 == 1 && |ds[i].d| <= 0xFFFF
  }

  /** A PDU cut anywhere, behind any kind of start. */
  predicate Cut(ds: seq<Piece>, cid: uint16, payload: bytes)
  {
    && |payload| <= 0xFFFF && ds != [] && Bodies(ds) == Sdu(cid, payload)
    && ds[0].flags < 0x10 && ds[0].flags % 4 in {0, 2, 3} && 0 < |ds[0].d| <= 0xFFFF && Continue(ds[1..])
  }

  function Arrived(handle: nat, ds: seq<Piece>): seq<Acl>
  {
    if ds == [] then [] else [Acl(handle, ds[0].flags, ds[0].d)] + Arrived(handle, ds[1..])
  }

  /** What is known of a PDU of which `off` bytes have arrived. */
  function Part(out: seq<bytes>, cid: uint16, payload: bytes, off: nat): Rx
    requires off <= 4 + |payload|
  {
    if off < 4 + |payload| then Rx(Sdu(cid, payload)[..off], out)
    else Rx([], out + if cid == SIGNAL_CID then [] else [payload])
  }

  lemma PartArrives(out: seq<bytes>, cid: uint16, payload: bytes, off: nat, s: Rx, a: Acl)
    requires |payload| <= 0xFFFF && off <= 4 + |payload|
    requires a.b != [] && a.b <= Sdu(cid, payload)[off..]
    requires if off == 0 then a.flags % 4 != 1 && s.out == out
             else a.flags % 4 == 1 && s == Part(out, cid, payload, off)
    ensures Received(s, a) == Part(out, cid, payload, off + |a.b|)
  {
    hide Sdu, Parse;
    var sdu := Sdu(cid, payload);
    assert off < |sdu|;
    assert Joined(s.buf, a) == sdu[..off + |a.b|];
    ParseSdu(cid, payload, off + |a.b|);
    assert out + [] == out;
  }

  lemma {:induction false} RestArrives(out: seq<bytes>, cid: uint16, payload: bytes, off: nat, handle: nat,
                                       ds: seq<Piece>)
    requires |payload| <= 0xFFFF && 0 < off <= 4 + |payload|
    requires Continue(ds) && Bodies(ds) == Sdu(cid, payload)[off..]
    ensures ReceivedAll(Part(out, cid, payload, off), Arrived(handle, ds)) == Part(out, cid, payload, 4 + |payload|)
    decreases |ds|
  {
    hide Sdu, Part, Received;
    if ds == [] {
      assert off == 4 + |payload|;
    } else {
      var s, a, d := Part(out, cid, payload, off), Acl(handle, ds[0].flags, ds[0].d), ds[0].d;
      assert Arrived(handle, ds)[0] == a && Arrived(handle, ds)[1..] == Arrived(handle, ds[1..]);
      assert Continue(ds[1..]);
      var sdu := Sdu(cid, payload);
      assert d <= sdu[off..] && sdu[off..][|d|..] == sdu[off + |d|..];
      if d == [] {
        NothingArrives(s, a);
      } else {
        PartArrives(out, cid, payload, off, s, a);
      }
      RestArrives(out, cid, payload, off + |d|, handle, ds[1..]);
    }
  }

  lemma NothingArrives(s: Rx, a: Acl)
    requires a.b == []
    ensures Received(s, a) == s
  {}

  /** However a PDU is cut, and whatever the receiver had buffered: the payload is delivered
      exactly once, signals never, and the buffer ends empty. A PDU of which only a part came
      before is dropped, whatever kind of start the next one has. */
  lemma AnyCutReassembles(s: Rx, cid: uint16, payload: bytes, handle: nat, ds: seq<Piece>)
    requires Cut(ds, cid, payload)
    ensures ReceivedAll(s, Arrived(handle, ds)) == Rx([], s.out + if cid == 5 then [] else [payload])
  {
    hide Sdu, Received;
    var a, d := Acl(handle, ds[0].flags, ds[0].d), ds[0].d;
    var sdu := Sdu(cid, payload);
    assert Arrived(handle, ds)[0] == a && Arrived(handle, ds)[1..] == Arrived(handle, ds[1..]);
    assert sdu == d + Bodies(ds[1..]) && sdu[0..] == sdu && d <= sdu;
    PartArrives(s.out, cid, payload, 0, s, a);
    RestArrives(s.out, cid, payload, |d|, handle, ds[1..]);
  }

  /** The residue of a cut PDU, then a whole one behind any kind of start. */
  lemma UncutArrives(residue: bytes, out: seq<bytes>, handle: nat, flags: nat, cid: uint16, payload: bytes)
    requires flags in {0, 2, 3} && |payload| <= 0xFFFF && cid != 5
    ensures Received(Rx(residue, out), Acl(handle, flags, Sdu(cid, payload))) == Rx([], out + [payload])
  {
    assert Sdu(cid, payload)[0..] == Sdu(cid, payload);
    PartArrives(out, cid, payload, 0, Rx(residue, out), Acl(handle, flags, Sdu(cid, payload)));
  }

  // -------------------------------------------------- sent by this library

  /** The packets of a cut PDU. */
  function Packets(handle: nat, ds: seq<Piece>): seq<bytes>
    requires handle < 0x1000 && forall i :: 0 <= i < |ds| ==> ds[i].flags < 0x10
  {
    if ds == [] then [] else [Packet(handle, 0x10 * ds[0].flags, ds[0].d)] + Packets(handle, ds[1..])
  }

  lemma {:induction false} PacketsArrive(handle: nat, ds: seq<Piece>)
    requires handle < 0x1000 && forall i :: 0 <= i < |ds| ==> ds[i].flags < 0x10 && |ds[i].d| <= 0xFFFF
    ensures Acls(Packets(handle, ds)) == Arrived(handle, ds)
  {
    if ds != [] {
      hide Unmarshal, Packet;
      UnmarshalPacket(handle, 0x10 * ds[0].flags, ds[0].d);
      PacketsArrive(handle, ds[1..]);
      var p, more := Packet(handle, 0x10 * ds[0].flags, ds[0].d), Packets(handle, ds[1..]);
      assert ([p] + more)[0] == p && ([p] + more)[1..] == more;
    }
  }

  /** How `Write` cuts: pieces of `size` bytes. */
  function Chunks(sdu: bytes, size: nat, flags: nat): seq<Piece>
    requires size > 0
    decreases |sdu|
  {
    if sdu == [] then []
    else
      var n := Min(|sdu|, size);
      [Piece(flags, sdu[..n])] + Chunks(sdu[n..], size, 1)
  }

  lemma {:induction false} ChunksAreFragments(sdu: bytes, handle: nat, size: nat, flags: nat)
    requires handle < 0x1000 && 1 <= size <= 0xFFFF && flags < 2
    ensures var ds := Chunks(sdu, size, flags);
      && Bodies(ds) == sdu && (sdu != [] ==> ds != [] && ds[0].d != [] && ds[0].flags == flags)
      && (forall i :: 0 <= i < |ds| ==> ds[i].flags == (if i == 0 then flags else 1) && |ds[i].d| <= 0xFFFF)
      && Packets(handle, ds) == Fragments(sdu, handle, size, 0x10 * flags)
    decreases |sdu|
  {
    if sdu != [] {
      hide Packet;
      var n := Min(|sdu|, size);
      ChunksAreFragments(sdu[n..], handle, size, 1);
      var p, more := Piece(flags, sdu[..n]), Chunks(sdu[n..], size, 1);
      assert ([p] + more)[0] == p && ([p] + more)[1..] == more;
      assert sdu[..n] + sdu[n..] == sdu;
    }
  }

  /** A packet is its part of the PDU behind packet type, handle, flags and length, low
      octets first. */
  lemma PacketOctets(handle: nat, flag: byte, d: bytes)
    requires handle < 0x1000 && flag in {0x00, 0x10} && |d| <= 0xFFFF
    ensures Packet(handle, flag, d) ==
      [0x02, handle % 0x100, handle / 0x100 + flag as int, |d| % 0x100, |d| / 0x100] + d
  {}

  lemma FragmentsStep(sdu: bytes, handle: nat, size: nat, flag: byte)
    requires handle < 0x1000 && size > 0 && flag % 0x10 == 0 && sdu != []
    ensures var n := Min(|sdu|, size);
      Fragments(sdu, handle, size, flag)
      == [Packet(handle, flag, sdu[..n])] + Fragments(sdu[n..], handle, size, CONTINUING)
  {}

  /** The fragments are flagged as continuations but for the first, and full but for the last. */
  lemma {:induction false} FragmentsAre(sdu: bytes, handle: nat, size: nat, flag: byte, i: nat, at: nat)
    requires handle < 0x1000 && 1 <= size <= 0xFFFF && flag in {0x00, 0x10} && at == size * i < |sdu|
    ensures i < |Fragments(sdu, handle, size, flag)|
    ensures Fragments(sdu, handle, size, flag)[i]
            == Packet(handle, if i == 0 then flag else 0x10, sdu[at..at + Min(size, |sdu| - at)])
    decreases i
  {
    hide Fragments, Packet;
    FragmentsStep(sdu, handle, size, flag);
    if i == 0 {
      var n := Min(size, |sdu|);
      assert at == 0 && sdu[0..0 + n] == sdu[..n];
    } else {
      Before(size, i, at);
      var rest, n := sdu[size..], Min(size, |sdu| - at);
      FragmentsAre(rest, handle, size, CONTINUING, i - 1, at - size);
      assert rest[at - size..at - size + n] == sdu[at..at + n];
    }
  }

  lemma Before(size: nat, i: nat, at: nat)
    requires at == size * i && i > 0
    ensures at - size == size * (i - 1) >= 0
  {}

  /** A PDU is its payload behind its length and its channel, low octets first. */
  lemma SduOctets(cid: uint16, payload: bytes)
    requires |payload| <= 0xFFFF
    ensures Sdu(cid, payload) == [|payload| % 0x100, |payload| / 0x100, cid % 0x100, cid / 0x100] + payload
  {}

  /** Fragmentation then reassembly is the identity. */
  lemma FragmentsReassemble(s: Rx, cid: uint16, payload: bytes, handle: nat, size: nat)
    requires |payload| <= 0xFFFF && handle < 0x1000 && 1 <= size <= 0xFFFF
    ensures ReceivedAll(s, Acls(Fragments(Sdu(cid, payload), handle, size, 0)))
            == Rx([], s.out + if cid == 5 then [] else [payload])
  {
    hide Fragments, Packets, Acls, ReceivedAll, Bodies, Chunks, Arrived;
    var ds := Chunks(Sdu(cid, payload), size, 0);
    ChunksAreFragments(Sdu(cid, payload), handle, size, 0);
    PacketsArrive(handle, ds);
    AnyCutReassembles(s, cid, payload, handle, ds);
  }

  // ------------------------------------------------- one-shot parsing

  /** Parsing may stop anywhere and go on when more has arrived. */
  lemma {:induction false} ParseSplit(x: bytes, y: bytes)
    ensures var later := Parse(Parse(x).rest + y);
      Parse(x + y) == Parsed(Parse(x).pdus + later.pdus, later.rest)
    decreases |x|
  {
    var e := PduEnd(x);
    if e.Some? {
      var n := e.value;
      assert (x + y)[2..][0] == x[2..][0] && (x + y)[2..][1] == x[2..][1];
      assert PduEnd(x + y) == e && (x + y)[n..] == x[n..] + y && (x + y)[4..n] == x[4..n];
      ParseSplit(x[n..], y);
      Assoc([x[4..n]], Parse(x[n..]).pdus, Parse(Parse(x).rest + y).pdus);
    }
  }

  lemma {:induction false} ReceivedConcat(s: Rx, a: seq<Acl>, b: seq<Acl>)
    ensures ReceivedAll(s, a + b) == ReceivedAll(ReceivedAll(s, a), b)
    decreases |a|
  {
    if a == [] {
      assert a + b == b;
    } else {
      assert (a + b)[0] == a[0] && (a + b)[1..] == a[1..] + b;
      ReceivedConcat(Received(s, a[0]), a[1..], b);
    }
  }

  /** Each start fragment with the continuations that follow it, glued together;
      the first group is what comes before any start. */
  function Groups(aa: seq<Acl>): (g: seq<bytes>)
    ensures g != []
  {
    if aa == [] then [[]]
    else
      var g, a := Groups(aa[..|aa| - 1]), aa[|aa| - 1];
      if a.b == [] then g
      else if IsStart(a) then g + [a.b]
      else g[|g| - 1 := g[|g| - 1] + a.b]
  }

  /** Every group parsed once. */
  function OneShot(g: seq<bytes>): seq<bytes>
  {
    if g == [] then [] else OneShot(g[..|g| - 1]) + Parse(g[|g| - 1]).pdus
  }

  /** Incremental reassembly of any stream delivers what parsing each group once gives,
      wherever the continuations are cut. */
  lemma {:induction false} ReassemblyIsOneShot(aa: seq<Acl>)
    ensures var g := Groups(aa);
      ReceivedAll(Rx([], []), aa) == Rx(Parse(g[|g| - 1]).rest, OneShot(g))
    decreases |aa|
  {
    if aa != [] {
      var init, a := aa[..|aa| - 1], aa[|aa| - 1];
      assert aa == init + [a];
      ReceivedConcat(Rx([], []), init, [a]);
      assert [a][1..] == [];
      ReassemblyIsOneShot(init);
      var g := Groups(init);
      if a.b != [] && IsStart(a) {
        assert (g + [a.b])[..|g|] == g;
      } else if a.b != [] {
        var last := |g| - 1;
        ParseSplit(g[last], a.b);
        assert g[last := g[last] + a.b][..last] == g[..last];
        Assoc(OneShot(g[..last]), Parse(g[last]).pdus, Parse(Parse(g[last]).rest + a.b).pdus);
      }
    } else {
      var g: seq<bytes> := [[]];
      assert g[..0] == [] && OneShot(g) == [] + Parse([]).pdus;
    }
  }
}
