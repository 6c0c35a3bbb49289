/** The advertising report event (Bluetooth Core Specification, Vol 4 Part E, section
    7.7.65.2), stored column by column on the wire, and what is kept of each advertiser. */
module AdvReports {
  import opened Bytes

  const ADV_IND: byte := 0x00
  const ADV_DIRECT_IND: byte := 0x01
  const SCAN_RESP: byte := 0x04

  /** `address` is most significant byte first; on the wire it is reversed. */
  datatype Report = Report(eventType: byte, addressType: byte, address: bytes, data: bytes, rssi: int)

  function Int8(b: byte): int { if b < 0x80 then b else b - 0x100 }

  function Uint8(v: int): byte
    requires -0x80 <= v < 0x80
  {
    if v >= 0 then v else v + 0x100
  }

  function Mac(b: bytes): (m: bytes)
    requires |b| >= 6
    ensures |m| == 6
  {
    [b[5], b[4], b[3], b[2], b[1], b[0]]
  }

  predicate Wire(r: Report)
  {
    |r.address| == 6 && |r.data| < 0x100 && -0x80 <= r.rssi < 0x80
  }

  /** The reports that have a wire format. */
  type WireReport = r: Report | Wire(r) witness Report(0, 0, [0, 0, 0, 0, 0, 0], [], 0)

  // --------------------------------------------------------------- columns

  function Sum(lens: seq<byte>): nat
  {
    if lens == [] then 0 else lens[0] + Sum(lens[1..])
  }

  /** The addresses at the front of `b`. */
  function Macs(b: bytes, n: nat): (ms: seq<bytes>)
    requires |b| >= 6 * n
    ensures |ms| == n
    decreases n
  {
    if n == 0 then [] else [Mac(b)] + Macs(b[6..], n - 1)
  }

  /** The data at the front of `b`, cut by the lengths. */
  function Datas(b: bytes, lens: seq<byte>): (ds: seq<bytes>)
    requires |b| >= Sum(lens)
    ensures |ds| == |lens|
    decreases |lens|
  {
    if lens == [] then [] else [b[..lens[0]]] + Datas(b[lens[0]..], lens[1..])
  }

  function Rssis(b: bytes): (rs: seq<int>)
    ensures |rs| == |b|
  {
    if b == [] then [] else [Int8(b[0])] + Rssis(b[1..])
  }

  datatype Columns = Columns(eventType: bytes, addressType: bytes, address: seq<bytes>, length: bytes,
                             data: seq<bytes>, rssi: seq<int>)

  /** What the decoder finds in the bytes after the two header bytes; `None` is an error. */
  function Decode(b: bytes, n: nat): Option<Columns>
  {
    if |b| < 9 * n then None
    else
      var lens := b[8 * n..9 * n];
      var rest := b[9 * n..];
      if |rest| < Sum(lens) + n then None
      else Some(Columns(b[..n], b[n..2 * n], Macs(b[2 * n..8 * n], n), lens, Datas(rest, lens),
                        Rssis(rest[Sum(lens)..][..n])))
  }

  class LEAdvertisingReportEP {
    var subeventCode: byte
    var numReports: byte
    var columns: Columns

    constructor ()
      ensures columns == Columns([], [], [], [], [], [])
    {
      subeventCode, numReports, columns := 0, 0, Columns([], [], [], [], [], []);
    }

    /** Total: every byte string gives an error or is read within its bounds. */
    method Unmarshal(packet: bytes) returns (ok: bool)
      modifies this
      ensures ok <==> |packet| >= 2 && Decode(packet[2..], packet[1]).Some?
      ensures ok ==> subeventCode == packet[0] && numReports == packet[1]
      ensures ok ==> Decode(packet[2..], packet[1]) == Some(columns)
    {
      if |packet| < 2 {
        return false;
      }
      subeventCode, numReports := packet[0], packet[1];
      var b, n := packet[2..], packet[1] as int;
      if |b| < 9 * n {
        return false;
      }
      var eventType, addressType, lens;
      eventType, b := TakeBytes(b, n);
      addressType, b := TakeBytes(b, n);
      var address;
      address, b := TakeMacs(b, n);
      lens, b := TakeBytes(b, n);
      ColumnSlices(packet[2..], n);
      if |b| < Sum(lens) + n {
        return false;
      }
      var data, rssi;
      data, b := TakeDatas(b, lens);
      rssi := TakeRssis(b, n);
      columns := Columns(eventType, addressType, address, lens, data, rssi);
      ok := true;
    }

    /** One pass over a column of single bytes. */
    method TakeBytes(b: bytes, n: nat) returns (r: bytes, rest: bytes)
      requires n <= |b|
      ensures r == b[..n] && rest == b[n..]
    {
      r, rest := [], b;
      for i := 0 to n
        invariant r == b[..i] && rest == b[i..]
      {
        r := r + [rest[0]];
        rest := rest[1..];
      }
    }

    method TakeMacs(b: bytes, n: nat) returns (r: seq<bytes>, rest: bytes)
      requires 6 * n <= |b|
      ensures r == Macs(b[..6 * n], n) && rest == b[6 * n..]
    {
      r, rest := [], b;
      for i := 0 to n
        invariant |rest| == |b| - 6 * i && rest == b[6 * i..]
        invariant r + Macs(rest, n - i) == Macs(b, n)
      {
        Assoc(r, [Mac(rest)], Macs(rest[6..], n - i - 1));
        r := r + [Mac(rest)];
        rest := rest[6..];
      }
      MacsPrefix(b, n);
    }

    method TakeDatas(b: bytes, lens: bytes) returns (r: seq<bytes>, rest: bytes)
      requires Sum(lens) <= |b|
      ensures r == Datas(b, lens) && rest == b[Sum(lens)..]
    {
      r, rest := [], b;
      assert lens[0..] == lens;
      for i := 0 to |lens|
        invariant |b| >= |rest| >= Sum(lens[i..]) && |b| - |rest| + Sum(lens[i..]) == Sum(lens)
        invariant rest == b[|b| - |rest|..]
        invariant r + Datas(rest, lens[i..]) == Datas(b, lens)
      {
        assert lens[i..][0] == lens[i] && lens[i..][1..] == lens[i + 1..];
        Assoc(r, [rest[..lens[i]]], Datas(rest[lens[i]..], lens[i + 1..]));
        r := r + [rest[..lens[i]]];
        rest := rest[lens[i]..];
      }
    }

    method TakeRssis(b: bytes, n: nat) returns (r: seq<int>)
      requires n <= |b|
      ensures r == Rssis(b[..n])
    {
      r := [];
      var rest := b;
      for i := 0 to n
        invariant rest == b[i..] && r == Rssis(b[..i])
      {
        RssisSnoc(b[..i], b[i]);
        assert b[..i] + [b[i]] == b[..i + 1];
        r := r + [Int8(rest[0])];
        rest := rest[1..];
      }
    }
  }

  lemma {:induction false} MacsPrefix(b: bytes, n: nat)
    requires 6 * n <= |b|
    ensures Macs(b, n) == Macs(b[..6 * n], n)
    decreases n
  {
    if n > 0 {
      assert b[..6 * n][6..] == b[6..][..6 * (n - 1)];
      MacsPrefix(b[6..], n - 1);
    }
  }

  lemma {:induction false} RssisSnoc(b: bytes, x: byte)
    ensures Rssis(b + [x]) == Rssis(b) + [Int8(x)]
  {
    if b == [] {
      assert (b + [x])[1..] == [];
    } else {
      assert (b + [x])[1..] == b[1..] + [x];
      RssisSnoc(b[1..], x);
    }
  }

  lemma ColumnSlices(b: bytes, n: nat)
    requires |b| >= 9 * n
    ensures b[n..][..n] == b[n..2 * n] && b[n..][n..] == b[2 * n..]
    ensures b[2 * n..][..6 * n] == b[2 * n..8 * n] && b[2 * n..][6 * n..] == b[8 * n..]
    ensures b[8 * n..][..n] == b[8 * n..9 * n] && b[8 * n..][n..] == b[9 * n..]
  {}

  // ------------------------------------------------------------ wire layout

  function Types(rs: seq<WireReport>): (b: bytes)
    ensures |b| == |rs|
  {
    if rs == [] then [] else [rs[0].eventType] + Types(rs[1..])
  }

  function AddressTypes(rs: seq<WireReport>): (b: bytes)
    ensures |b| == |rs|
  {
    if rs == [] then [] else [rs[0].addressType] + AddressTypes(rs[1..])
  }

  function WireAddresses(rs: seq<WireReport>): (b: bytes)
    ensures |b| == 6 * |rs|
  {
    if rs == [] then [] else Mac(rs[0].address) + WireAddresses(rs[1..])
  }

  function Lengths(rs: seq<WireReport>): (b: bytes)
    ensures |b| == |rs|
  {
    if rs == [] then [] else [|rs[0].data|] + Lengths(rs[1..])
  }

  function DataBytes(rs: seq<WireReport>): (b: bytes)
    ensures |b| == Sum(Lengths(rs))
  {
    if rs == [] then []
    else
      assert ([|rs[0].data|] + Lengths(rs[1..]))[1..] == Lengths(rs[1..]);
      rs[0].data + DataBytes(rs[1..])
  }

  function RssiBytes(rs: seq<WireReport>): (b: bytes)
    ensures |b| == |rs|
  {
    if rs == [] then [] else [Uint8(rs[0].rssi)] + RssiBytes(rs[1..])
  }

  /** The event parameters after the subevent code and the count. */
  function Encode(rs: seq<WireReport>): bytes
  {
    Types(rs) + (AddressTypes(rs) + (WireAddresses(rs) + (Lengths(rs) + (DataBytes(rs) + RssiBytes(rs)))))
  }

  /** Row `i` of the columns. */
  function Row(c: Columns, i: nat): Report
    requires i < |c.eventType| && i < |c.addressType| && i < |c.address| && i < |c.data| && i < |c.rssi|
  {
    Report(c.eventType[i], c.addressType[i], c.address[i], c.data[i], c.rssi[i])
  }

  ghost predicate Holds(c: Columns, rs: seq<WireReport>)
  {
    && |c.eventType| == |c.addressType| == |c.address| == |c.data| == |c.rssi| == |c.length| == |rs|
    && forall i :: 0 <= i < |rs| ==> Row(c, i) == rs[i] && c.length[i] as int == |rs[i].data|
  }

  lemma {:induction false} TypesAt(rs: seq<WireReport>, i: nat)
    requires i < |rs|
    ensures Types(rs)[i] == rs[i].eventType && AddressTypes(rs)[i] == rs[i].addressType
  {
    if i > 0 {
      TypesAt(rs[1..], i - 1);
    }
  }

  lemma {:induction false} MacsAt(rs: seq<WireReport>, i: nat)
    requires i < |rs|
    ensures Macs(WireAddresses(rs), |rs|)[i] == rs[i].address
  {
    var m := Mac(rs[0].address);
    var b := WireAddresses(rs);
    assert b[..6] == m && b[6..] == WireAddresses(rs[1..]) && Mac(b) == Mac(m) == rs[0].address;
    if i > 0 {
      MacsAt(rs[1..], i - 1);
    }
  }

  lemma {:induction false} LengthsAt(rs: seq<WireReport>, i: nat)
    requires i < |rs|
    ensures Lengths(rs)[i] as int == |rs[i].data|
  {
    if i > 0 {
      LengthsAt(rs[1..], i - 1);
    }
  }

  lemma {:induction false} DatasAt(rs: seq<WireReport>, more: bytes, i: nat)
    requires i < |rs|
    ensures Datas(DataBytes(rs) + more, Lengths(rs))[i] == rs[i].data
    decreases |rs|
  {
    var b, lens, n := DataBytes(rs) + more, Lengths(rs), |rs[0].data|;
    assert lens[0] as int == n && lens[1..] == Lengths(rs[1..]);
    assert b[..n] == rs[0].data && b[n..] == DataBytes(rs[1..]) + more;
    if i > 0 {
      DatasAt(rs[1..], more, i - 1);
    }
  }

  lemma {:induction false} RssisAt(rs: seq<WireReport>, i: nat)
    requires i < |rs|
    ensures Rssis(RssiBytes(rs))[i] == rs[i].rssi
  {
    var b := RssiBytes(rs);
    assert b[0] == Uint8(rs[0].rssi) && b[1..] == RssiBytes(rs[1..]);
    if i > 0 {
      RssisAt(rs[1..], i - 1);
    }
  }

  /** Where the columns lie. */
  lemma EncodeSlices(rs: seq<WireReport>, more: bytes)
    ensures var b, n := Encode(rs) + more, |rs|;
      && |b| >= 9 * n && b[..n] == Types(rs) && b[n..2 * n] == AddressTypes(rs)
      && b[2 * n..8 * n] == WireAddresses(rs) && b[8 * n..9 * n] == Lengths(rs)
      && b[9 * n..] == DataBytes(rs) + (RssiBytes(rs) + more)
  {
    var b, n := Encode(rs) + more, |rs|;
    var d, r := DataBytes(rs), RssiBytes(rs);
    var b4 := d + (r + more);
    Assoc(d, r, more);
    var b3 := Lengths(rs) + b4;
    Assoc(Lengths(rs), d + r, more);
    var b2 := WireAddresses(rs) + b3;
    Assoc(WireAddresses(rs), Lengths(rs) + (d + r), more);
    var b1 := AddressTypes(rs) + b2;
    Assoc(AddressTypes(rs), WireAddresses(rs) + (Lengths(rs) + (d + r)), more);
    Assoc(Types(rs), AddressTypes(rs) + (WireAddresses(rs) + (Lengths(rs) + (d + r))), more);
    assert b == Types(rs) + b1;
    HeadTail(Types(rs), b1);
    HeadTail(AddressTypes(rs), b2);
    HeadTail(WireAddresses(rs), b3);
    HeadTail(Lengths(rs), b4);
    ColumnSlices(b, n);
  }

  lemma HeadTail(x: bytes, y: bytes)
    ensures (x + y)[..|x|] == x && (x + y)[|x|..] == y
  {}

  /** Decoding the event that carries any list of up to 255 reports gives back that list. */
  lemma DecodeInvertsEncode(subevent: byte, rs: seq<WireReport>, more: bytes)
    requires |rs| <= 0xFF
    ensures var packet := [subevent, |rs|] + (Encode(rs) + more);
      var c := Decode(packet[2..], packet[1]);
      c.Some? && Holds(c.value, rs)
  {
    assert ([subevent, |rs|] + (Encode(rs) + more))[2..] == Encode(rs) + more;
    hide Encode;
    EncodeSlices(rs, more);
    var tail := RssiBytes(rs) + more;
    var rest := DataBytes(rs) + tail;
    assert rest[Sum(Lengths(rs))..] == tail && tail[..|rs|] == RssiBytes(rs);
    var c := Decode(Encode(rs) + more, |rs|).value;
    forall i | 0 <= i < |rs| ensures Row(c, i) == rs[i] && c.length[i] as int == |rs[i].data| {
      TypesAt(rs, i);
      MacsAt(rs, i);
      LengthsAt(rs, i);
      DatasAt(rs, tail, i);
      RssisAt(rs, i);
    }
  }

  /** One report octet by octet: event type, address type, the address last octet first, the
      length, the data, and the signal strength as a signed octet. */
  lemma OneReportOctets(typ: byte, atyp: byte, mac: bytes, data: bytes, rssi: byte)
    requires |mac| == 6 && |data| < 0x100
    ensures Decode([typ, atyp, mac[5], mac[4], mac[3], mac[2], mac[1], mac[0], |data|] + data + [rssi], 1) ==
      Some(Columns([typ], [atyp], [mac], [|data|], [data], [if rssi < 0x80 then rssi as int else rssi as int - 0x100]))
  {
    var b := [typ, atyp, mac[5], mac[4], mac[3], mac[2], mac[1], mac[0], |data|] + data + [rssi];
    var a, rest := b[2..8], data + [rssi];
    assert b[..1] == [typ] && b[1..2] == [atyp] && b[8..9] == [|data|] && b[9..] == rest;
    assert a == [mac[5], mac[4], mac[3], mac[2], mac[1], mac[0]] && Mac(a) == mac;
    assert Macs(a, 1) == [mac] + Macs(a[6..], 0) == [mac];
    var lens: seq<byte> := [|data|];
    assert lens[1..] == [] && Sum(lens) == |data| && rest[..|data|] == data;
    assert Datas(rest, lens) == [data] + Datas(rest[|data|..], []) == [data];
    assert rest[|data|..][..1] == [rssi] && [rssi][1..] == [];
    assert Rssis([rssi]) == [Int8(rssi)];
  }

  // ------------------------------------------------- one record per advertiser

  datatype Plat = Plat(addressType: byte, address: bytes, data: bytes, connectable: bool, rssi: int)

  function NewPlat(r: Report): Plat
  {
    Plat(r.addressType, r.address, r.data, r.eventType == ADV_IND || r.eventType == ADV_DIRECT_IND, r.rssi)
  }

  /** What is kept of an advertiser; handlers are given the record itself, not a copy. */
  class PlatData {
    const addressType: byte
    const address: bytes
    const connectable: bool
    const rssi: int
    var data: bytes

    constructor (r: Report)
      ensures Value() == NewPlat(r)
    {
      addressType, address, data, rssi := r.addressType, r.address, r.data, r.rssi;
      connectable := r.eventType == ADV_IND || r.eventType == ADV_DIRECT_IND;
    }

    ghost function Value(): Plat
      reads this`data
    {
      Plat(addressType, address, data, connectable, rssi)
    }
  }

  class Scanner {
    var plist: map<bytes, PlatData>
    var calls: seq<PlatData>    // what the advertisement handler was called with
    ghost var seen: seq<Plat>   // and what that record then held

    /** Every record is kept under its own address. A record handed out before only grows. */
    ghost predicate Valid()
      reads this, plist.Values, set c | c in calls
    {
      && (forall a :: a in plist ==> plist[a].address == a)
      && |calls| == |seen|
      && forall i :: 0 <= i < |calls| ==> Grown(seen[i], calls[i].Value())
    }

    ghost function Records(): map<bytes, Plat>
      reads this`plist, plist.Values
    {
      map a | a in plist :: plist[a].Value()
    }

    constructor ()
      ensures Valid() && plist == map[] && Records() == map[] && calls == [] && seen == []
    {
      plist, calls, seen := map[], [], [];
    }

    /** Advertisements start a record, scan responses extend the one that is there. */
    method HandleReport(r: Report)
      requires Valid()
      modifies this, plist.Values
      ensures Valid() && fresh(plist.Values - old(plist.Values))
      ensures Seen(Records(), seen) == SeenOne(Seen(old(Records()), old(seen)), r)
      ensures old(calls) <= calls
    {
      if r.eventType != SCAN_RESP {
        StartRecord(r);
      } else if r.address in plist {
        Extend(plist[r.address], r.data);
      }
    }

    method StartRecord(r: Report)
      requires Valid()
      modifies this
      ensures Valid() && fresh(plist.Values - old(plist.Values))
      ensures Records() == old(Records())[r.address := NewPlat(r)]
      ensures r.address in plist && calls == old(calls) + [plist[r.address]] && seen == old(seen) + [NewPlat(r)]
    {
      var pd := new PlatData(r);
      plist := plist[r.address := pd];
      calls, seen := calls + [pd], seen + [pd.Value()];
    }

    method Extend(pd: PlatData, data: bytes)
      requires Valid() && pd.address in plist && plist[pd.address] == pd
      modifies this`calls, this`seen, pd
      ensures Valid() && pd.Value() == old(pd.Value()).(data := old(pd.data) + data)
      ensures Records() == old(Records())[pd.address := pd.Value()]
      ensures calls == old(calls) + [pd] && seen == old(seen) + [pd.Value()]
    {
      pd.data := pd.data + data;
      calls, seen := calls + [pd], seen + [pd.Value()];
    }

    method HandleReports(rs: seq<Report>)
      requires Valid()
      modifies this, plist.Values
      ensures Valid() && fresh(plist.Values - old(plist.Values))
      ensures Seen(Records(), seen) == SeenAll(Seen(old(Records()), old(seen)), rs)
      ensures old(calls) <= calls
    {
      var i := 0;
      assert rs[0..] == rs;
      while i < |rs|
        invariant 0 <= i <= |rs| && Valid() && fresh(plist.Values - old(plist.Values)) && old(calls) <= calls
        invariant SeenAll(Seen(Records(), seen), rs[i..]) == SeenAll(Seen(old(Records()), old(seen)), rs)
      {
        assert rs[i..][0] == rs[i] && rs[i..][1..] == rs[i + 1..];
        HandleReport(rs[i]);
        i := i + 1;
      }
    }
  }

  /** The record `now` is `was` with more data. */
  predicate Grown(was: Plat, now: Plat) { was.data <= now.data && now.(data := was.data) == was }

  datatype Seen = Seen(plist: map<bytes, Plat>, calls: seq<Plat>)

  /** One report: the record kept and the call of the advertisement handler. */
  function SeenOne(s: Seen, r: Report): Seen
  {
    if r.eventType == SCAN_RESP && r.address !in s.plist then s
    else
      var pd := if r.eventType == SCAN_RESP
                then s.plist[r.address].(data := s.plist[r.address].data + r.data)
                else NewPlat(r);
      Seen(s.plist[r.address := pd], s.calls + [pd])
  }

  /** An advertisement starts the record of its advertiser afresh, connectable for event
      types 0 and 1, and no other record changes. */
  lemma AdvertisementStarts(s: Seen, r: Report)
    requires r.eventType != 0x04
    ensures var t := SeenOne(s, r);
      && r.address in t.plist && t.calls == s.calls + [t.plist[r.address]]
      && t.plist - {r.address} == s.plist - {r.address}
      && var p := t.plist[r.address];
         && p.address == r.address && p.addressType == r.addressType && p.data == r.data && p.rssi == r.rssi
         && (p.connectable <==> r.eventType == 0x00 || r.eventType == 0x01)
  {}

  /** A scan response adds its data to the record of its advertiser; without one it is ignored. */
  lemma ResponseExtends(s: Seen, r: Report)
    requires r.eventType == 0x04
    ensures var t := SeenOne(s, r);
      if r.address !in s.plist then t == s
      else
        && r.address in t.plist && t.calls == s.calls + [t.plist[r.address]]
        && t.plist - {r.address} == s.plist - {r.address}
        && t.plist[r.address] == s.plist[r.address].(data := s.plist[r.address].data + r.data)
  {}

  function SeenAll(s: Seen, rs: seq<Report>): Seen
    decreases |rs|
  {
    if rs == [] then s else SeenAll(SeenOne(s, rs[0]), rs[1..])
  }

  /** The record of an advertiser depends on its own reports alone. */
  lemma {:induction false} AdvertisersAreSeparate(s: Seen, rs: seq<Report>, a: bytes)
    ensures Lookup(SeenAll(s, rs).plist, a) == Kept(Lookup(s.plist, a), rs, a)
    decreases |rs|
  {
    if rs != [] {
      AdvertisersAreSeparate(SeenOne(s, rs[0]), rs[1..], a);
    }
  }

  function Lookup(plist: map<bytes, Plat>, a: bytes): Option<Plat>
  {
    if a in plist then Some(plist[a]) else None
  }

  /** What is known of address `a` after the reports `rs`: those of other advertisers
      do not matter. */
  function Kept(p: Option<Plat>, rs: seq<Report>, a: bytes): Option<Plat>
    decreases |rs|
  {
    if rs == [] then p
    else if rs[0].address != a then Kept(p, rs[1..], a)
    else if rs[0].eventType != SCAN_RESP then Kept(Some(NewPlat(rs[0])), rs[1..], a)
    else if p.Some? then Kept(Some(p.value.(data := p.value.data + rs[0].data)), rs[1..], a)
    else Kept(None, rs[1..], a)
  }

  /** The data of the reports of `a`. */
  function DataOf(rs: seq<Report>, a: bytes): seq<bytes>
  {
    if rs == [] then [] else if rs[0].address == a then [rs[0].data] + DataOf(rs[1..], a) else DataOf(rs[1..], a)
  }

  /** An advertisement followed by scan responses only: all their data, in order. */
  lemma {:induction false} ResponsesExtend(p: Plat, rs: seq<Report>, a: bytes)
    requires forall i :: 0 <= i < |rs| && rs[i].address == a ==> rs[i].eventType == SCAN_RESP
    ensures Kept(Some(p), rs, a) == Some(p.(data := p.data + Flatten(DataOf(rs, a))))
    decreases |rs|
  {
    if rs == [] {
      assert p.data + Flatten(DataOf(rs, a)) == p.data;
    } else if rs[0].address == a {
      var q := p.(data := p.data + rs[0].data);
      ResponsesExtend(q, rs[1..], a);
      var more := DataOf(rs[1..], a);
      assert ([rs[0].data] + more)[1..] == more;
      Assoc(p.data, rs[0].data, Flatten(more));
    } else {
      ResponsesExtend(p, rs[1..], a);
    }
  }
}
