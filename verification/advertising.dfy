/** What the device advertises for a name and a list of services, and what a scanner
    makes of it. */
module Advertising {
  import opened Bytes
  import opened AdvData

  const GENERAL_LE_ONLY: byte := 0x06   // general discoverable, BR/EDR not supported
  const APPLE: uint16 := 0x004C

  /** The payload of a beacon: 16-bit numbers and the UUID most significant byte first. */
  ghost predicate IsBeacon(b: bytes, u: bytes, major: uint16, minor: uint16, pwr: byte)
  {
    && |b| == 23 && b[0] == 0x02 && b[1] == 0x15 && b[22] == pwr
    && (forall j :: 2 <= j < 18 ==> b[j] == if j < 2 + |u| then u[|u| + 1 - j] else 0)
    && 0x100 * (b[18] as int) + b[19] as int == major && 0x100 * (b[20] as int) + b[21] as int == minor
  }

  function Reversed(u: bytes): (r: bytes)
    ensures |r| == |u|
  {
    if u == [] then [] else Reversed(u[1..]) + [u[0]]
  }

  lemma {:induction false} ReversedAt(u: bytes, i: nat)
    requires i < |u|
    ensures Reversed(u)[i] == u[|u| - 1 - i]
  {
    if i < |u| - 1 {
      ReversedAt(u[1..], i);
    }
  }

  /** Octet by octet: the beacon's type, its UUID last octet first, then both numbers high octet
      first, and the power. */
  lemma BeaconPayload(b: bytes, u: bytes, major: uint16, minor: uint16, pwr: byte)
    requires IsBeacon(b, u, major, minor, pwr) && |u| == 16
    ensures b == [0x02, 0x15] + Reversed(u)
                 + [major / 0x100, major % 0x100, minor / 0x100, minor % 0x100, pwr]
  {
    forall j | 2 <= j < 18 ensures b[j] == Reversed(u)[j - 2] {
      ReversedAt(u, j - 2);
    }
  }

  const FLAGS_FIELD := Field(FLAGS, [GENERAL_LE_ONLY])

  function Start(uu: seq<bytes>): (b: bytes)
    requires forall i :: 0 <= i < |uu| ==> |uu[i]| == 2 || |uu[i]| == 16
  {
    Taken(FieldBytes(FLAGS_FIELD), uu, 3 + SizeOf(uu) <= MAX_EIR)
  }

  /** Flags and a beacon payload, cut to the room there is. */
  function BeaconStart(d: bytes): (b: bytes)
    ensures |b| <= MAX_EIR
  {
    FieldBytes(FLAGS_FIELD) + FieldBytes(Fitted(Field(MANUFACTURER, Le16(APPLE) + d), 3))
  }

  /** The name goes into the advertising data when more than enough room is left. */
  predicate NameInAir(start: bytes, name: bytes) { |start| + |name| + 2 < MAX_EIR }

  /** The advertising data: what comes first, and the name if there is room for it. */
  function AirData(start: bytes, name: bytes): bytes
  {
    if NameInAir(start, name) then start + FieldBytes(NameField(name, |start|)) else start
  }

  /** The scan response the controller holds afterwards. */
  function ScanData(start: bytes, name: bytes, scan: bytes): bytes
  {
    if NameInAir(start, name) then scan else FieldBytes(NameField(name, 0))
  }

  /** A name goes into the advertising data exactly when it leaves an octet free there; in
      the scan response up to 29 of its octets are shown. */
  lemma NameIsPlaced(start: bytes, name: bytes, scan: bytes)
    requires |start| <= 31
    ensures |start| + 2 + |name| <= 30 ==>
      AirData(start, name) == start + ([|name| + 1, 0x09] + name) && ScanData(start, name, scan) == scan
    ensures |start| + 2 + |name| > 30 ==>
      && AirData(start, name) == start
      && ScanData(start, name, scan) == if |name| <= 29 then [|name| + 1, 0x09] + name else [30, 0x08] + name[..29]
  {
    NameOctets(name, 0);
    if |start| + 2 + |name| <= 30 {
      NameOctets(name, |start|);
    }
  }

  /** A beacon packet, octet by octet: the flags, general discoverable without BR/EDR, then
      company 0x004C and the payload, up to 24 octets of it. */
  lemma BeaconOctets(d: bytes)
    ensures var x := d[..Min(|d|, 24)];
      BeaconStart(d) == [0x02, 0x01, 0x06] + ([|x| + 3, 0xFF, 0x4C, 0x00] + x)
  {
    var x := d[..Min(|d|, 24)];
    assert Fitted(Field(MANUFACTURER, Le16(APPLE) + d), 3).d == [0x4C, 0x00] + x;
    assert [|x| + 3, 0xFF] + ([0x4C, 0x00] + x) == [|x| + 3, 0xFF, 0x4C, 0x00] + x;
  }

  // -------------------------------------------------- what a scanner reads

  /** A name as a scan response shows it: up to 29 bytes, and up to its first zero. */
  function Shown(n: bytes): bytes { ZeroTruncate(n[..Min(|n|, MAX_EIR - 2)]) }

  lemma {:induction false} NoNulNoCut(n: bytes)
    requires 0 !in n
    ensures ZeroTruncate(n) == n
  {
    if n != [] {
      assert 0 !in n[1..];
      NoNulNoCut(n[1..]);
    }
  }

  /** Reading one name field. */
  lemma ApplyName(a: Adv, n: bytes, used: nat)
    requires used + 2 <= MAX_EIR
    ensures var d := n[..Min(|n|, MAX_EIR - used - 2)];
      Apply(a, NameField(n, used)) == Some(a.(localName := ZeroTruncate(d), raw := d))
  {}

  /** Flags and UUIDs come first. */
  lemma StartFields(uu: seq<bytes>)
    requires forall i :: 0 <= i < |uu| ==> |uu[i]| == 2 || |uu[i]| == 16
    ensures var us, fit := TakenUuids(3, uu), 3 + SizeOf(uu) <= MAX_EIR;
      && |Start(uu)| <= MAX_EIR && Fields(Start(uu)) == Some([FLAGS_FIELD] + FieldsOf(us, fit))
      && var r := ApplyAll(BLANK, [FLAGS_FIELD] + FieldsOf(us, fit));
         r.Some? && r.value.(raw := []) == BLANK.(flags := GENERAL_LE_ONLY, services := us)
  {
    var us, fit := TakenUuids(3, uu), 3 + SizeOf(uu) <= MAX_EIR;
    OneField(FLAGS_FIELD);
    TakenFields(FieldBytes(FLAGS_FIELD), uu, fit);
    TakenIsLongestPrefix(3, uu);
    ServicesAreUuids(uu);
    var a := BLANK.(flags := GENERAL_LE_ONLY, raw := [GENERAL_LE_ONLY]);
    assert Apply(BLANK, FLAGS_FIELD) == Some(a);
    ApplyUuids(a, us, fit);
    assert ([FLAGS_FIELD] + FieldsOf(us, fit))[1..] == FieldsOf(us, fit);
    assert a.services + us == us;
  }

  lemma {:induction false} ServicesAreUuids(uu: seq<bytes>)
    requires forall i :: 0 <= i < |uu| ==> |uu[i]| == 2 || |uu[i]| == 16
    ensures forall i :: 0 <= i < |Services(uu)| ==> |Services(uu)[i]| == 2 || |Services(uu)[i]| == 16
  {
    if uu != [] {
      ServicesAreUuids(uu[1..]);
    }
  }

  /** One more name field on a packet that reads well. */
  lemma OneMoreName(b: bytes, a: Adv, n: bytes, used: nat)
    requires used + 2 <= MAX_EIR
    requires Fields(b).Some? && ApplyAll(BLANK, Fields(b).value) == Some(a)
    ensures var c := b + FieldBytes(NameField(n, used));
      var d := n[..Min(|n|, MAX_EIR - used - 2)];
      Fields(c).Some? && ApplyAll(BLANK, Fields(c).value) == Some(a.(localName := ZeroTruncate(d), raw := d))
  {
    hide Apply, Fields, FieldBytes, NameField;
    var f := NameField(n, used);
    FieldsAppend(b, f);
    ApplyName(a, n, used);
    ApplyConcat(BLANK, Fields(b).value, [f]);
    assert [f][1..] == [];
  }

  /** Flags and a beacon come first. */
  lemma BeaconFields(d: bytes)
    ensures var b, data := BeaconStart(d), Le16(APPLE) + d[..Min(|d|, MAX_EIR - 7)];
      && Fields(b).Some? && ApplyAll(BLANK, Fields(b).value) == Some(BLANK.(
            flags := GENERAL_LE_ONLY, companyId := APPLE, manufacturerData := data, raw := data))
  {
    hide Fields, FieldBytes;
    var f := Fitted(Field(MANUFACTURER, Le16(APPLE) + d), 3);
    assert f.d == Le16(APPLE) + d[..Min(|d|, MAX_EIR - 7)];
    OneField(FLAGS_FIELD);
    FieldsAppend(FieldBytes(FLAGS_FIELD), f);
    WordOfLe16(APPLE);
    var fs := [FLAGS_FIELD] + [f];
    assert fs[1..] == [f] && [f][1..] == [];
    var a1 := Apply(BLANK, FLAGS_FIELD).value;
    assert ApplyAll(BLANK, fs) == ApplyAll(a1, [f]) == Some(Apply(a1, f).value);
  }

  /** The scan response the controller holds: nothing, or the last name sent there. */
  predicate Held(scan: bytes, m: bytes)
  {
    scan == [] || scan == FieldBytes(NameField(m, 0))
  }

  /** A scanner that reads the advertising data and then the scan response gets what comes
      first, and a name: the new one, unless it went into the advertising data while an
      older scan response is still there. */
  lemma WhatAScannerReads(start: bytes, a: Adv, name: bytes, scan: bytes, m: bytes)
    requires |start| <= MAX_EIR && Fields(start).Some? && ApplyAll(BLANK, Fields(start).value) == Some(a)
    requires Held(scan, m)
    ensures var (r, o) := Walk(BLANK, AirData(start, name) + ScanData(start, name, scan));
      && o == Parsed && r.(localName := a.localName, raw := a.raw) == a
      && r.localName == if NameInAir(start, name) && scan != [] then Shown(m) else Shown(name)
  {
    if NameInAir(start, name) {
      NameInAirIsRead(start, a, name, scan, m);
    } else {
      hide Apply, Fields, FieldBytes, NameField, ZeroTruncate;
      OneMoreName(start, a, name, 0);
      WalkIsApplyAll(BLANK, start + FieldBytes(NameField(name, 0)));
    }
  }

  /** The name is in the advertising data, and an older one may follow in the scan response. */
  lemma NameInAirIsRead(start: bytes, a: Adv, name: bytes, scan: bytes, m: bytes)
    requires |start| <= MAX_EIR && Fields(start).Some? && ApplyAll(BLANK, Fields(start).value) == Some(a)
    requires Held(scan, m) && NameInAir(start, name)
    ensures var (r, o) := Walk(BLANK, AirData(start, name) + scan);
      && o == Parsed && r.(localName := a.localName, raw := a.raw) == a
      && r.localName == if scan != [] then Shown(m) else Shown(name)
  {
    hide Apply, Fields, FieldBytes, NameField, ZeroTruncate, ApplyAll, Walk;
    OneMoreName(start, a, name, |start|);
    var c := AirData(start, name);
    if scan == [] {
      assert c + scan == c;
      WalkIsApplyAll(BLANK, c);
    } else {
      OneMoreName(c, ApplyAll(BLANK, Fields(c).value).value, m, 0);
      WalkIsApplyAll(BLANK, c + scan);
    }
  }

  /** The services and the name a scanner reads. */
  lemma ServicesAreRead(name: bytes, uu: seq<bytes>, scan: bytes, m: bytes)
    requires (forall i :: 0 <= i < |uu| ==> |uu[i]| == 2 || |uu[i]| == 16) && Held(scan, m)
    ensures var start := Start(uu);
      var (r, o) := Walk(BLANK, AirData(start, name) + ScanData(start, name, scan));
      && o == Parsed && r.flags == GENERAL_LE_ONLY && r.services == TakenUuids(3, uu)
      && r.localName == if NameInAir(start, name) && scan != [] then Shown(m) else Shown(name)
  {
    hide Apply, Fields, FieldBytes, NameField, Shown, AirData, ScanData, Held, Start;
    StartFields(uu);
    WhatAScannerReads(Start(uu), ApplyAll(BLANK, Fields(Start(uu)).value).value, name, scan, m);
  }

  /** The beacon payload and the name a scanner reads. */
  lemma BeaconIsRead(name: bytes, d: bytes, scan: bytes, m: bytes)
    requires Held(scan, m)
    ensures var start := BeaconStart(d);
      var (r, o) := Walk(BLANK, AirData(start, name) + ScanData(start, name, scan));
      && o == Parsed && r.flags == GENERAL_LE_ONLY && r.companyId == APPLE
      && r.manufacturerData == Le16(APPLE) + d[..Min(|d|, MAX_EIR - 7)]
      && r.localName == if NameInAir(start, name) && scan != [] then Shown(m) else Shown(name)
  {
    hide Apply, Fields, FieldBytes, NameField, Shown, AirData, ScanData, Held;
    BeaconFields(d);
    WhatAScannerReads(BeaconStart(d), ApplyAll(BLANK, Fields(BeaconStart(d)).value).value, name, scan, m);
  }

  /** It goes wrong with a long name followed by a short one. */
  lemma StaleNameIsRead() returns (long: bytes, short: bytes)
    ensures !NameInAir(Start([]), long) && NameInAir(Start([]), short) && Shown(long) != Shown(short)
    ensures var start := Start([]);
      var scan := ScanData(start, long, []);
      Walk(BLANK, AirData(start, short) + ScanData(start, short, scan)).0.localName == Shown(long)
  {
    long, short := seq(26, i => 0x42), [0x41];
    NoNulNoCut(long);
    NoNulNoCut(short);
    assert long[..|long|] == long && short[..|short|] == short;
    var scan := FieldBytes(NameField(long, 0));
    ServicesAreRead(short, [], scan, long);
    assert scan != [];
  }
}
