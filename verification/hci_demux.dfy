/** The controller link: ACL packets go to the connection named in their header. */
module HciDemux {
  import opened Bytes
  import opened L2cap

  class Hci {
    var conns: map<nat, Conn>

    /** Connections are registered under their own handle. */
    ghost predicate Valid()
      reads this
    {
      forall h :: h in conns ==> conns[h].attr == h
    }

    constructor ()
      ensures Valid() && conns == map[]
    {
      conns := map[];
    }

    method Register(c: Conn)
      requires Valid()
      modifies this
      ensures Valid() && conns == old(conns)[c.attr := c]
    {
      conns := conns[c.attr := c];
    }

    /** One packet from the controller: only the connection it names sees it. */
    method HandleL2cap(b: bytes) returns (ok: bool)
      requires Valid()
      modifies set h | h in conns :: conns[h]
      ensures Valid() && conns == old(conns) && ok == Unmarshal(b).Some?
      ensures forall h :: h in conns ==>
        Rx(conns[h].buf, conns[h].out) == Routed(h, Rx(old(conns[h].buf), old(conns[h].out)), b)
    {
      var a := Unmarshal(b);
      if a.None? {
        return false;
      }
      if a.value.attr in conns {
        conns[a.value.attr].Receive(a.value);
      }
      return true;
    }

    method HandleAll(packets: seq<bytes>)
      requires Valid()
      modifies set h | h in conns :: conns[h]
      ensures Valid() && conns == old(conns)
      ensures forall h :: h in conns ==>
        Rx(conns[h].buf, conns[h].out) == RoutedAll(h, Rx(old(conns[h].buf), old(conns[h].out)), packets)
    {
      var i := 0;
      assert packets[0..] == packets;
      while i < |packets|
        invariant 0 <= i <= |packets| && Valid() && conns == old(conns)
        invariant forall h :: h in conns ==>
          RoutedAll(h, Rx(conns[h].buf, conns[h].out), packets[i..])
          == RoutedAll(h, Rx(old(conns[h].buf), old(conns[h].out)), packets)
      {
        assert packets[i..][0] == packets[i] && packets[i..][1..] == packets[i + 1..];
        var ok := HandleL2cap(packets[i]);
        i := i + 1;
      }
    }
  }

  /** What packet `b` does to the connection with handle `h`. */
  function Routed(h: nat, s: Rx, b: bytes): Rx
  {
    var a := Unmarshal(b);
    if a.Some? && a.value.attr == h then Received(s, a.value) else s
  }

  function RoutedAll(h: nat, s: Rx, bs: seq<bytes>): Rx
    decreases |bs|
  {
    if bs == [] then s else RoutedAll(h, Routed(h, s, bs[0]), bs[1..])
  }

  /** The packets meant for `h`, in order. */
  function For(h: nat, bs: seq<bytes>): seq<Acl>
  {
    if bs == [] then []
    else if Unmarshal(bs[0]).Some? && Unmarshal(bs[0]).value.attr == h then [Unmarshal(bs[0]).value] + For(h, bs[1..])
    else For(h, bs[1..])
  }

  /** Each connection behaves as if it were alone with its own packets. */
  lemma {:induction false} RoutedIsProjection(h: nat, s: Rx, bs: seq<bytes>)
    ensures RoutedAll(h, s, bs) == ReceivedAll(s, For(h, bs))
    decreases |bs|
  {
    if bs != [] {
      RoutedIsProjection(h, Routed(h, s, bs[0]), bs[1..]);
      if Unmarshal(bs[0]).Some? && Unmarshal(bs[0]).value.attr == h {
        var a := Unmarshal(bs[0]).value;
        assert ([a] + For(h, bs[1..]))[1..] == For(h, bs[1..]);
      }
    }
  }

  /** One PDU as its sender cuts it. */
  datatype Pdu = Pdu(cid: uint16, payload: bytes, ds: seq<Piece>)

  /** Everything one peer sends on a connection, PDU by PDU. */
  function AllPackets(ps: seq<Pdu>, handle: nat): seq<bytes>
    requires handle < 0x1000 && forall i :: 0 <= i < |ps| ==> CutPdu(ps[i])
  {
    if ps == [] then []
    else
      assert CutPdu(ps[0]);
      Packets(handle, ps[0].ds) + AllPackets(ps[1..], handle)
  }

  predicate CutPdu(p: Pdu): (r: bool)
    ensures r ==> forall i :: 0 <= i < |p.ds| ==> p.ds[i].flags < 0x10 && |p.ds[i].d| <= 0xFFFF
  {
    CutBounds(p);
    Cut(p.ds, p.cid, p.payload)
  }

  lemma CutBounds(p: Pdu)
    ensures Cut(p.ds, p.cid, p.payload) ==>
      forall i :: 0 <= i < |p.ds| ==> p.ds[i].flags < 0x10 && |p.ds[i].d| <= 0xFFFF
  {
    assert forall i :: 0 < i < |p.ds| ==> p.ds[i] == p.ds[1..][i - 1];
  }

  /** What the receiver gets to read of it: the payloads, but no signals. */
  function Payloads(ps: seq<Pdu>): seq<bytes>
  {
    if ps == [] then []
    else (if ps[0].cid == SIGNAL_CID then [] else [ps[0].payload]) + Payloads(ps[1..])
  }

  lemma {:induction false} AclsConcat(a: seq<bytes>, b: seq<bytes>)
    ensures Acls(a + b) == Acls(a) + Acls(b)
  {
    if a == [] {
      assert a + b == b;
    } else {
      assert (a + b)[0] == a[0] && (a + b)[1..] == a[1..] + b;
      AclsConcat(a[1..], b);
    }
  }

  lemma {:induction false} StreamArrives(s: Rx, ps: seq<Pdu>, handle: nat)
    requires handle < 0x1000 && forall i :: 0 <= i < |ps| ==> CutPdu(ps[i])
    ensures ReceivedAll(s, Acls(AllPackets(ps, handle))) == if ps == [] then s else Rx([], s.out + Payloads(ps))
    decreases |ps|
  {
    if ps != [] {
      hide Packets, Cut, Acls, ReceivedAll;
      var p := ps[0];
      assert CutPdu(p);
      var first, more := Packets(handle, p.ds), AllPackets(ps[1..], handle);
      AclsConcat(first, more);
      ReceivedConcat(s, Acls(first), Acls(more));
      PacketsArrive(handle, p.ds);
      AnyCutReassembles(s, p.cid, p.payload, handle, p.ds);
      var got := if p.cid == SIGNAL_CID then [] else [p.payload];
      StreamArrives(Rx([], s.out + got), ps[1..], handle);
      Assoc(s.out, got, Payloads(ps[1..]));
      assert ps[1..] == [] ==> (s.out + got) + Payloads(ps[1..]) == s.out + got;
    }
  }

  // ------------------------------------------------- several connections

  /** What is sent on one connection: its handle, and its PDUs. */
  datatype Stream = Stream(handle: nat, ps: seq<Pdu>)

  predicate Sendable(st: Stream)
  {
    st.handle < 0x1000 && forall i :: 0 <= i < |st.ps| ==> CutPdu(st.ps[i])
  }

  /** Packets as the link hands them to a connection: the packet type is off. */
  function Bare(ps: seq<bytes>): (bs: seq<bytes>)
    requires forall i :: 0 <= i < |ps| ==> ps[i] != []
    ensures |bs| == |ps|
  {
    if ps == [] then [] else [ps[0][1..]] + Bare(ps[1..])
  }

  function Wire(st: Stream): (bs: seq<bytes>)
    requires Sendable(st)
    ensures forall i :: 0 <= i < |bs| ==> Names(bs[i], st.handle)
    ensures For(st.handle, bs) == Acls(AllPackets(st.ps, st.handle))
  {
    StreamIsOfHandle(st.ps, st.handle);
    BareOfHandle(AllPackets(st.ps, st.handle), st.handle);
    Bare(AllPackets(st.ps, st.handle))
  }

  /** Packet `b` carries handle `h` in its header. */
  predicate Names(b: bytes, h: nat) { Unmarshal(b).Some? && Unmarshal(b).value.attr == h }

  predicate OfHandle(ps: seq<bytes>, h: nat) { forall i :: 0 <= i < |ps| ==> ps[i] != [] && Names(ps[i][1..], h) }

  lemma {:induction false} PacketsOfHandle(handle: nat, ds: seq<Piece>)
    requires handle < 0x1000 && forall i :: 0 <= i < |ds| ==> ds[i].flags < 0x10 && |ds[i].d| <= 0xFFFF
    ensures OfHandle(Packets(handle, ds), handle)
  {
    if ds != [] {
      hide Unmarshal, Packet;
      UnmarshalPacket(handle, 0x10 * ds[0].flags, ds[0].d);
      PacketsOfHandle(handle, ds[1..]);
    }
  }

  lemma {:induction false} StreamIsOfHandle(ps: seq<Pdu>, handle: nat)
    requires handle < 0x1000 && forall i :: 0 <= i < |ps| ==> CutPdu(ps[i])
    ensures OfHandle(AllPackets(ps, handle), handle)
  {
    if ps != [] {
      hide Packets, Names, Cut;
      assert CutPdu(ps[0]);
      PacketsOfHandle(handle, ps[0].ds);
      StreamIsOfHandle(ps[1..], handle);
    }
  }

  lemma {:induction false} BareOfHandle(ps: seq<bytes>, h: nat)
    requires OfHandle(ps, h)
    ensures forall i :: 0 <= i < |ps| ==> Names(Bare(ps)[i], h)
    ensures For(h, Bare(ps)) == Acls(ps)
  {
    if ps != [] {
      hide Unmarshal;
      BareOfHandle(ps[1..], h);
      assert Bare(ps)[1..] == Bare(ps[1..]);
    }
  }

  /** `bs` interleaves the queues: every packet is the next one of some queue. */
  ghost predicate Merged(bs: seq<bytes>, qs: seq<seq<bytes>>)
    decreases |bs|
  {
    if bs == [] then forall i :: 0 <= i < |qs| ==> qs[i] == []
    else exists i :: 0 <= i < |qs| && qs[i] != [] && qs[i][0] == bs[0] && Merged(bs[1..], qs[i := qs[i][1..]])
  }

  predicate Distinct(hs: seq<nat>) { forall i, j :: 0 <= i < j < |hs| ==> hs[i] != hs[j] }

  /** Of merged queues with different handles, the packets that decode to one handle are
      its own queue. */
  lemma {:induction false} MergedProjects(bs: seq<bytes>, qs: seq<seq<bytes>>, hs: seq<nat>, k: nat)
    requires Merged(bs, qs) && |qs| == |hs| && Distinct(hs) && k < |hs|
    requires forall i, j :: 0 <= i < |qs| && 0 <= j < |qs[i]| ==> Names(qs[i][j], hs[i])
    ensures For(hs[k], bs) == For(hs[k], qs[k])
    decreases |bs|
  {
    hide Unmarshal;
    if bs != [] {
      var i :| 0 <= i < |qs| && qs[i] != [] && qs[i][0] == bs[0] && Merged(bs[1..], qs[i := qs[i][1..]]);
      var rest := qs[i := qs[i][1..]];
      MergedProjects(bs[1..], rest, hs, k);
      assert Names(bs[0], hs[i]);
    }
  }

  function Handles(sts: seq<Stream>): (hs: seq<nat>) { seq(|sts|, i requires 0 <= i < |sts| => sts[i].handle) }

  function Wires(sts: seq<Stream>): (qs: seq<seq<bytes>>)
    requires forall i :: 0 <= i < |sts| ==> Sendable(sts[i])
  {
    seq(|sts|, i requires 0 <= i < |sts| => Wire(sts[i]))
  }

  /** Whatever order the packets of several connections arrive in, and however each PDU was
      cut, every connection delivers exactly the payloads sent on it, in order. */
  lemma ConnectionsDoNotDisturbEachOther(sts: seq<Stream>, bs: seq<bytes>)
    requires Distinct(Handles(sts)) && forall i :: 0 <= i < |sts| ==> Sendable(sts[i])
    requires Merged(bs, Wires(sts))
    ensures forall k, s: Rx :: 0 <= k < |sts| ==> RoutedAll(sts[k].handle, s, bs).out == s.out + Payloads(sts[k].ps)
  {
    forall k, s: Rx | 0 <= k < |sts| ensures RoutedAll(sts[k].handle, s, bs).out == s.out + Payloads(sts[k].ps) {
      var st := sts[k];
      MergedProjects(bs, Wires(sts), Handles(sts), k);
      RoutedIsProjection(st.handle, s, bs);
      StreamArrives(s, st.ps, st.handle);
      assert st.ps == [] ==> s.out + Payloads(st.ps) == s.out;
    }
  }

  /** Packets of other connections never reach handle `h`. */
  lemma {:induction false} StrangersSeeNothing(h: nat, s: Rx, bs: seq<bytes>, qs: seq<seq<bytes>>, hs: seq<nat>)
    requires Merged(bs, qs) && |qs| == |hs| && h !in hs
    requires forall i, j :: 0 <= i < |qs| && 0 <= j < |qs[i]| ==> Names(qs[i][j], hs[i])
    ensures RoutedAll(h, s, bs) == s
    decreases |bs|
  {
    hide Unmarshal;
    if bs != [] {
      var i :| 0 <= i < |qs| && qs[i] != [] && qs[i][0] == bs[0] && Merged(bs[1..], qs[i := qs[i][1..]]);
      assert Names(bs[0], hs[i]);
      StrangersSeeNothing(h, s, bs[1..], qs[i := qs[i][1..]], hs);
    }
  }
}
