/** A local device: every change of its services rebuilds the attribute table from handle 1,
    and it tells the controller what to advertise. */
module LocalDevice {
  import opened Bytes
  import opened AttributeTable
  import opened AdvData
  import opened Advertising

  /** A command that sets 31 bytes of which `len` count. */
  datatype SetData = SetData(len: nat, data: bytes)

  class Device {
    var services: seq<Service>
    var attrs: Option<AttrRange>      // no table before a service is set
    ghost var given: seq<Service>     // the services as handed in, before placement
    var advData: Option<SetData>
    var scanResp: Option<SetData>
    var air: bytes                    // advertising data the controller sends
    var scan: bytes                   // scan response data the controller sends
    ghost var scanName: bytes         // the last name sent as scan response

    ghost predicate Published()
      reads this`services, this`attrs, this`given
    {
      && services == Place(given, 1) && (attrs.None? ==> given == [])
      && (attrs.Some? ==>
            && attrs.value == AttrRange(TableAttrs(services, |services|), 1)
            && Indexed(attrs.value.aa, 1) && |attrs.value.aa| == TableSize(given, |given|))
    }

    /** Commands may be pending, of which a scan response holds the last name sent there. */
    ghost predicate Pending()
      reads this`advData, this`scanResp, this`scan, this`scanName
    {
      && (advData.Some? ==> advData.value.len <= |advData.value.data|)
      && (scanResp.None? ==> Held(scan, scanName))
      && (scanResp.Some? ==>
            && scanResp.value.len <= |scanResp.value.data|
            && scanResp.value.data[..scanResp.value.len] == FieldBytes(NameField(scanName, 0)))
    }

    /** Between calls nothing is pending, and the controller holds no scan response but the
        last name sent there. */
    ghost predicate Valid()
      reads this
    {
      Published() && advData.None? && scanResp.None? && Held(scan, scanName)
    }

    constructor ()
      ensures Valid() && given == [] && air == [] && scan == []
    {
      services, attrs, given := [], None, [];
      advData, scanResp, air, scan, scanName := None, None, [], [], [];
    }

    // ---------------------------------------------------------- services

    method AddService(s: Service)
      requires Valid()
      modifies this`services, this`attrs, this`given
      ensures Valid() && given == old(given) + [s] && attrs.Some?
    {
      hide Place, TableAttrs, Indexed;
      PlaceAgain(given, s);
      given := given + [s];
      Rebuild(services + [s]);
    }

    method RemoveAllServices()
      requires Valid()
      modifies this`services, this`attrs, this`given
      ensures Valid() && given == [] && services == [] && attrs.None?
    {
      services, attrs, given := [], None, [];
    }

    method SetServices(ss: seq<Service>)
      requires Valid()
      modifies this`services, this`attrs, this`given
      ensures Valid() && given == ss && attrs.Some?
    {
      hide TableAttrs, Indexed;
      RemoveAllServices();
      given := ss;
      assert services + ss == ss;
      Rebuild(services + ss);
    }

    method Rebuild(ss: seq<Service>)
      requires Place(ss, 1) == Place(given, 1)
      modifies this`services, this`attrs
      ensures Published() && attrs.Some?
    {
      var aa;
      services, aa := GenerateAttributes(ss, 1);
      attrs := Some(AttrRange(aa, 1));
      GeneratedIndexed(given, 1);
    }

    // ------------------------------------------------------- advertising

    /** Commands still pending go to the controller, which keeps what it is not told to change. */
    method Update()
      requires Published() && Pending()
      modifies this`advData, this`scanResp, this`air, this`scan
      ensures Valid()
      ensures scan == if old(scanResp).Some? then old(scanResp.value.data[..scanResp.value.len]) else old(scan)
      ensures air == if old(advData).Some? then old(advData.value.data[..advData.value.len]) else old(air)
    {
      hide Place, TableAttrs, Indexed, FieldBytes, NameField;
      if scanResp.Some? {
        scan := scanResp.value.data[..scanResp.value.len];
        scanResp := None;
      }
      if advData.Some? {
        air := advData.value.data[..advData.value.len];
        advData := None;
      }
    }

    method Advertise(a: AdvPacket)
      requires Published() && Pending() && |a.b| <= MAX_EIR
      modifies this`advData, this`scanResp, this`air, this`scan
      ensures Valid() && air == a.b
      ensures scan == if old(scanResp).Some? then old(scanResp.value.data[..scanResp.value.len]) else old(scan)
    {
      hide Place, TableAttrs, Indexed, FieldBytes, NameField;
      var data, len := a.Bytes();
      advData := Some(SetData(len, data));
      Update();
    }

    /** The name goes into the packet if there is room, else into a scan response. */
    method AdvertiseWithName(a: AdvPacket, name: bytes)
      requires Valid() && |a.b| <= MAX_EIR
      modifies a, this`advData, this`scanResp, this`air, this`scan, this`scanName
      ensures Valid() && air == AirData(old(a.b), name) && scan == ScanData(old(a.b), name, old(scan))
      ensures scanName == if NameInAir(old(a.b), name) then old(scanName) else name
    {
      hide Place, TableAttrs, Indexed;
      if |a.b| + |name| + 2 < MAX_EIR {
        a.AppendName(name);
        scanResp := None;
      } else {
        var r := new AdvPacket();
        r.AppendName(name);
        assert r.b == FieldBytes(NameField(name, 0));
        var data, len := r.Bytes();
        scanResp := Some(SetData(len, data));
        scanName := name;
      }
      Advertise(a);
    }

    /** A scanner gets the flags, the services that fit, and the name: the right one exactly
        when it went into the scan response, or none is held, or that shows the same. */
    method AdvertiseNameAndServices(name: bytes, uu: seq<bytes>)
      requires Valid() && forall i :: 0 <= i < |uu| ==> |uu[i]| == 2 || |uu[i]| == 16
      modifies this`advData, this`scanResp, this`air, this`scan, this`scanName
      ensures Valid() && air == AirData(Start(uu), name) && scan == ScanData(Start(uu), name, old(scan))
      ensures scanName == if NameInAir(Start(uu), name) then old(scanName) else name
      ensures var (r, o) := Walk(BLANK, air + scan);
        && o == Parsed && r.flags == GENERAL_LE_ONLY && r.services == TakenUuids(3, uu)
        && r.localName == (if NameInAir(Start(uu), name) && old(scan) != [] then Shown(old(scanName)) else Shown(name))
        && (r.localName == Shown(name) <==>
              !NameInAir(Start(uu), name) || old(scan) == [] || Shown(old(scanName)) == Shown(name))
    {
      hide AirData, ScanData, Walk, Shown, NameInAir, Held, Fields, Place, TableAttrs, Indexed;
      var a := new AdvPacket();
      StartPacket(a, uu);
      ServicesAreRead(name, uu, scan, scanName);
      AdvertiseWithName(a, name);
    }

    method StartPacket(a: AdvPacket, uu: seq<bytes>)
      requires a.b == [] && forall i :: 0 <= i < |uu| ==> |uu[i]| == 2 || |uu[i]| == 16
      modifies a
      ensures a.b == Start(uu) && |a.b| <= MAX_EIR
    {
      a.AppendFlags(GENERAL_LE_ONLY);
      var fit := a.AppendUUIDFit(uu);
      assert [] + FieldBytes(FLAGS_FIELD) == FieldBytes(FLAGS_FIELD);
    }

    method AdvertiseNameAndIBeaconData(name: bytes, d: bytes)
      requires Valid()
      modifies this`advData, this`scanResp, this`air, this`scan, this`scanName
      ensures Valid() && air == AirData(BeaconStart(d), name) && scan == ScanData(BeaconStart(d), name, old(scan))
      ensures scanName == if NameInAir(BeaconStart(d), name) then old(scanName) else name
      ensures var (r, o) := Walk(BLANK, air + scan);
        && o == Parsed && r.flags == GENERAL_LE_ONLY && r.companyId == APPLE
        && r.manufacturerData == Le16(APPLE) + d[..Min(|d|, MAX_EIR - 7)]
        && r.localName ==
           if NameInAir(BeaconStart(d), name) && old(scan) != [] then Shown(old(scanName)) else Shown(name)
    {
      hide AirData, ScanData, Walk, Shown, NameInAir, Held, Fields, Place, TableAttrs, Indexed;
      var a := new AdvPacket();
      BeaconPacket(a, d);
      BeaconIsRead(name, d, scan, scanName);
      AdvertiseWithName(a, name);
    }

    method BeaconPacket(a: AdvPacket, d: bytes)
      requires a.b == []
      modifies a
      ensures a.b == BeaconStart(d) && |a.b| <= MAX_EIR
    {
      a.AppendFlags(GENERAL_LE_ONLY);
      assert a.b == FieldBytes(FLAGS_FIELD);
      a.AppendManufacturerData(APPLE, d);
    }

    method AdvertiseIBeaconData(d: bytes)
      requires Valid()
      modifies this`advData, this`scanResp, this`air, this`scan
      ensures Valid() && scan == old(scan) && air == BeaconStart(d)
    {
      var a := new AdvPacket();
      BeaconPacket(a, d);
      Advertise(a);
    }

    /** The beacon, filled in place. */
    method Beacon(u: bytes, major: uint16, minor: uint16, pwr: byte) returns (r: bytes)
      requires |u| <= 16
      ensures |r| == 23 && IsBeacon(r, u, major, minor, pwr)
    {
      var b := new byte[23](i => 0);
      b[0] := 0x02;
      b[1] := 0x15;
      var i := 0;
      while i < |u|
        invariant 0 <= i <= |u| && b[0] == 0x02 && b[1] == 0x15
        invariant forall j :: 2 <= j < 18 ==> b[j] == if j < 2 + i then u[|u| + 1 - j] else 0
      {
        b[2 + i] := u[|u| - 1 - i];
        i := i + 1;
      }
      b[18], b[19] := High(major), Low(major);
      b[20], b[21] := High(minor), Low(minor);
      b[22] := pwr;
      r := b[..];
      WordOfLe16(major);
      WordOfLe16(minor);
    }

    /** A reader of the packet finds the company and exactly the beacon that was asked for. */
    method AdvertiseIBeacon(u: bytes, major: uint16, minor: uint16, pwr: byte)
      requires Valid() && |u| <= 16
      modifies this`advData, this`scanResp, this`air, this`scan
      ensures Valid() && scan == old(scan)
      ensures var (r, o) := Walk(BLANK, air);
        && o == Parsed && r.flags == GENERAL_LE_ONLY && r.companyId == APPLE && |r.manufacturerData| == 25
        && IsBeacon(r.manufacturerData[2..], u, major, minor, pwr)
    {
      hide Walk, Fields, FieldBytes, IsBeacon, BeaconStart, Place, TableAttrs, Indexed, Held;
      var b := Beacon(u, major, minor, pwr);
      BeaconFields(b);
      WalkIsApplyAll(BLANK, BeaconStart(b));
      assert b[..|b|] == b && (Le16(APPLE) + b)[2..] == b;
      AdvertiseIBeaconData(b);
    }
  }

  // -------------------------------------- placement forgets older handles

  lemma {:induction false} PlaceDescsAgain(ds: seq<Descriptor>, n: nat, i: nat, g: nat, h: nat)
    requires i <= n <= |ds|
    ensures PlaceDescs(PlaceDescs(ds, n, g), i, h) == PlaceDescs(ds, i, h)
  {
    if i > 0 {
      PlaceDescsAgain(ds, n, i - 1, g, h);
      PlaceDescsAt(ds, n, g, i - 1);
    }
  }

  lemma PlaceCharAgain(c: Characteristic, g: nat, h: nat)
    ensures PlaceChar(PlaceChar(c, g), h) == PlaceChar(c, h) && CharSize(PlaceChar(c, g)) == CharSize(c)
  {
    PlaceDescsAgain(c.descs, |c.descs|, |c.descs|, g + 2, h + 2);
  }

  lemma {:induction false} CharsSizeAgain(cs: seq<Characteristic>, n: nat, j: nat, g: nat)
    requires j <= n <= |cs|
    ensures CharsSize(PlaceChars(cs, n, g), j) == CharsSize(cs, j)
  {
    if j > 0 {
      CharsSizeAgain(cs, n, j - 1, g);
      PlaceCharsAt(cs, n, g, j - 1);
    }
  }

  lemma {:induction false} PlaceCharsAgain(cs: seq<Characteristic>, n: nat, j: nat, g: nat, h: nat)
    requires j <= n <= |cs|
    ensures PlaceChars(PlaceChars(cs, n, g), j, h) == PlaceChars(cs, j, h)
  {
    hide PlaceChar, CharSize;
    if j > 0 {
      PlaceCharsAgain(cs, n, j - 1, g, h);
      PlaceCharsAt(cs, n, g, j - 1);
      CharsSizeAgain(cs, n, j - 1, g);
      PlaceCharAgain(cs[j - 1], g + CharsSize(cs, j - 1), h + CharsSize(cs, j - 1));
    }
  }

  lemma PlaceServiceAgain(s: Service, g: nat, e: nat, h: nat, endh: nat)
    ensures PlaceService(PlaceService(s, g, e), h, endh) == PlaceService(s, h, endh)
    ensures ServiceSize(PlaceService(s, g, e)) == ServiceSize(s)
  {
    PlaceCharsAgain(s.chars, |s.chars|, |s.chars|, g + 1, h + 1);
    CharsSizeAgain(s.chars, |s.chars|, |s.chars|, g + 1);
  }

  /** Two service lists that are the same once placed. */
  ghost predicate Alike(a: seq<Service>, b: seq<Service>)
  {
    |a| == |b| && forall k {:trigger a[k]} {:trigger b[k]} :: 0 <= k < |a| ==> AlikeService(a[k], b[k])
  }

  ghost predicate AlikeService(s: Service, t: Service)
  {
    ServiceSize(s) == ServiceSize(t) && forall h, endh :: PlaceService(s, h, endh) == PlaceService(t, h, endh)
  }

  lemma {:induction false} AlikeSizes(a: seq<Service>, b: seq<Service>, k: nat)
    requires Alike(a, b) && k <= |a|
    ensures TableSize(a, k) == TableSize(b, k)
  {
    if k > 0 {
      AlikeSizes(a, b, k - 1);
      assert AlikeService(a[k - 1], b[k - 1]);
    }
  }

  lemma {:induction false} AlikePlaced(a: seq<Service>, b: seq<Service>, k: nat, base: nat)
    requires Alike(a, b) && k <= |a|
    ensures PlaceTo(a, k, base) == PlaceTo(b, k, base)
  {
    hide TableSize, PlaceService, ServiceSize;
    if k > 0 {
      AlikePlaced(a, b, k - 1, base);
      AlikeSizes(a, b, k - 1);
      AlikeSizes(a, b, k);
      assert AlikeService(a[k - 1], b[k - 1]);
    }
  }

  /** Adding a service to services that have handles already gives the same table as
      generating it afresh. */
  lemma PlaceAgain(ss: seq<Service>, s: Service)
    ensures Place(Place(ss, 1) + [s], 1) == Place(ss + [s], 1)
  {
    var a, b := Place(ss, 1) + [s], ss + [s];
    forall k | 0 <= k < |a| ensures AlikeService(a[k], b[k]) {
      if k < |ss| {
        PlaceAt(ss, 1, k);
        forall h, endh ensures PlaceService(a[k], h, endh) == PlaceService(b[k], h, endh) {
          PlaceServiceAgain(ss[k], StartOf(ss, k, 1), EndOf(ss, k, 1), h, endh);
        }
        PlaceServiceAgain(ss[k], StartOf(ss, k, 1), EndOf(ss, k, 1), 0, 0);
      }
    }
    AlikePlaced(a, b, |a|, 1);
  }

  lemma {:induction false} SameStart(ss: seq<Service>, s: Service, k: nat)
    requires k <= |ss|
    ensures TableSize(ss + [s], k) == TableSize(ss, k)
  {
    if k > 0 {
      SameStart(ss, s, k - 1);
    }
  }

  /** Adding a service leaves every handle given out before as it was; only the range of the
      service that was last now ends where the new one starts. */
  lemma HandlesStay(ss: seq<Service>, s: Service, k: nat)
    requires k < |ss|
    ensures Place(ss + [s], 1)[k] == Place(ss, 1)[k].(
      endh := if k == |ss| - 1 then Place(ss + [s], 1)[|ss|].h - 1 else Place(ss, 1)[k].endh)
  {
    hide PlaceChars, Place, TableSize;
    var more := ss + [s];
    PlaceAt(ss, 1, k);
    PlaceAt(more, 1, k);
    PlaceAt(more, 1, |ss|);
    SameStart(ss, s, k);
    SameStart(ss, s, k + 1);
  }
}
