/** Advertising data (Bluetooth Core Specification, Vol 3 Part C, section 11): building
    packets of at most 31 bytes field by field, and taking them apart. */
module AdvData {
  import opened Bytes

  const MAX_EIR: nat := 31

  const FLAGS: byte := 0x01
  const SOME_UUID16: byte := 0x02
  const ALL_UUID16: byte := 0x03
  const SOME_UUID32: byte := 0x04
  const ALL_UUID32: byte := 0x05
  const SOME_UUID128: byte := 0x06
  const ALL_UUID128: byte := 0x07
  const SHORT_NAME: byte := 0x08
  const COMPLETE_NAME: byte := 0x09
  const TX_POWER: byte := 0x0A
  const SERVICE_SOL16: byte := 0x14
  const SERVICE_SOL128: byte := 0x15
  const SERVICE_DATA16: byte := 0x16
  const SERVICE_SOL32: byte := 0x1F
  const SERVICE_DATA32: byte := 0x20
  const SERVICE_DATA128: byte := 0x21
  const MANUFACTURER: byte := 0xFF

  const GAP: bytes := [0x00, 0x18]
  const GATT: bytes := [0x01, 0x18]

  // --------------------------------------------------------------- parsing

  datatype Field = Field(typ: byte, d: bytes)

  /** One turn of the header walk; the size of the length byte makes 255 a crash. */
  datatype Split = End | Malformed | Bad | One(f: Field, rest: bytes)

  function SplitField(b: bytes): (s: Split)
    ensures s.One? ==> |s.rest| < |b|
  {
    if b == [] then End
    else if |b| < 2 then Malformed
    else
      var size := ((b[0] as int) + 1) % 0x100;
      if b[0] < 1 || |b| < size then Malformed
      else if size < 2 then Bad
      else One(Field(b[1], b[2..size]), b[size..])
  }

  datatype Adv = Adv(localName: bytes, flags: byte, companyId: nat, manufacturerData: bytes,
                     serviceData: seq<(bytes, bytes)>, services: seq<bytes>, txPower: byte,
                     solicited: seq<bytes>, raw: bytes)

  const BLANK := Adv([], 0, 0, [], [], [], 0, [], [])

  /** `d` cut into UUIDs of `w` bytes, after `u`; a ragged list loses everything. */
  function UuidList(u: seq<bytes>, d: bytes, w: nat): seq<bytes>
    requires w > 0
    decreases |d|
  {
    if d == [] then u
    else if |d| < w then []
    else UuidList(u + [d[..w]], d[w..], w)
  }

  function ZeroTruncate(b: bytes): bytes
  {
    if b == [] || b[0] == 0 then [] else [b[0]] + ZeroTruncate(b[1..])
  }

  /** What a service-data field yields; the payload is always copied from byte 2. */
  function ServiceData(d: bytes, w: nat): (bytes, bytes)
    requires 2 <= w <= |d|
  {
    (d[..w], d[2..2 + |d| - w])
  }

  /** What one field does to the advertisement; `None` is a crash. */
  function Apply(a: Adv, f: Field): Option<Adv>
  {
    var a, t, d := a.(raw := f.d), f.typ, f.d;
    if t == FLAGS then (if d == [] then None else Some(a.(flags := d[0])))
    else if t == SOME_UUID16 || t == ALL_UUID16 then Some(a.(services := UuidList(a.services, d, 2)))
    else if t == SOME_UUID32 || t == ALL_UUID32 then Some(a.(services := UuidList(a.services, d, 4)))
    else if t == SOME_UUID128 || t == ALL_UUID128 then Some(a.(services := UuidList(a.services, d, 16)))
    else if t == SHORT_NAME || t == COMPLETE_NAME then Some(a.(localName := ZeroTruncate(d)))
    else if t == TX_POWER then (if d == [] then None else Some(a.(txPower := d[0])))
    else if t == SERVICE_SOL16 then Some(a.(solicited := UuidList(a.solicited, d, 2)))
    else if t == SERVICE_SOL128 then Some(a.(solicited := UuidList(a.solicited, d, 16)))
    else if t == SERVICE_SOL32 then Some(a.(solicited := UuidList(a.solicited, d, 4)))
    else if t == MANUFACTURER then
      Some(a.(manufacturerData := d, companyId := if |d| >= 2 then Word(d) else a.companyId))
    else if t == SERVICE_DATA16 then AddServiceData(a, d, 2)
    else if t == SERVICE_DATA32 then AddServiceData(a, d, 4)
    else if t == SERVICE_DATA128 then AddServiceData(a, d, 16)
    else Some(a)
  }

  function AddServiceData(a: Adv, d: bytes, w: nat): Option<Adv>
    requires w >= 2
  {
    if |d| < w then None else Some(a.(serviceData := a.serviceData + [ServiceData(d, w)]))
  }

  datatype Outcome = Parsed | Invalid | Crashed

  /** Walking the whole packet. */
  function Walk(a: Adv, b: bytes): (Adv, Outcome)
    decreases |b|
  {
    match SplitField(b)
    case End => (a, Parsed)
    case Malformed => (a, Invalid)
    case Bad => (a, Crashed)
    case One(f, rest) =>
      var n := Apply(a, f);
      if n.None? then (a.(raw := f.d), Crashed) else Walk(n.value, rest)
  }

  class Advertisement {
    var a: Adv

    constructor ()
      ensures a == BLANK
    {
      a := BLANK;
    }

    method ListUuids(u: seq<bytes>, d: bytes, w: nat) returns (r: seq<bytes>)
      requires w > 0
      ensures r == UuidList(u, d, w)
    {
      r := u;
      var left := d;
      while |left| > 0
        invariant UuidList(r, left, w) == UuidList(u, d, w)
        decreases |left|
      {
        if |left| < w {
          return [];
        }
        r := r + [left[..w]];
        left := left[w..];
      }
    }

    /** Service data of one field, `w` bytes of UUID; too short a field is a crash. */
    method ListServiceData(d: bytes, w: nat) returns (ok: bool)
      requires w >= 2
      modifies this
      ensures ok == AddServiceData(old(a), d, w).Some?
      ensures a == if ok then AddServiceData(old(a), d, w).value else old(a)
    {
      ok := |d| >= w;
      if ok {
        a := a.(serviceData := a.serviceData + [(d[..w], d[2..2 + |d| - w])]);
      }
    }

    method ApplyField(t: byte, d: bytes) returns (ok: bool)
      modifies this
      ensures ok == Apply(old(a), Field(t, d)).Some?
      ensures a == if ok then Apply(old(a), Field(t, d)).value else old(a).(raw := d)
    {
      hide UuidList;
      ok := true;
      a := a.(raw := d);
      var us;
      if t == FLAGS || t == TX_POWER {
        if d == [] {
          return false;
        }
        a := if t == FLAGS then a.(flags := d[0]) else a.(txPower := d[0]);
      } else if t == SOME_UUID16 || t == ALL_UUID16 {
        us := ListUuids(a.services, d, 2);
        a := a.(services := us);
      } else if t == SOME_UUID32 || t == ALL_UUID32 {
        us := ListUuids(a.services, d, 4);
        a := a.(services := us);
      } else if t == SOME_UUID128 || t == ALL_UUID128 {
        us := ListUuids(a.services, d, 16);
        a := a.(services := us);
      } else if t == SHORT_NAME || t == COMPLETE_NAME {
        a := a.(localName := ZeroTruncate(d));
      } else if t == SERVICE_SOL16 {
        us := ListUuids(a.solicited, d, 2);
        a := a.(solicited := us);
      } else if t == SERVICE_SOL128 {
        us := ListUuids(a.solicited, d, 16);
        a := a.(solicited := us);
      } else if t == SERVICE_SOL32 {
        us := ListUuids(a.solicited, d, 4);
        a := a.(solicited := us);
      } else if t == MANUFACTURER {
        a := a.(manufacturerData := d);
        if |d| >= 2 {
          a := a.(companyId := Word(d));
        }
      } else if t == SERVICE_DATA16 {
        ok := ListServiceData(d, 2);
      } else if t == SERVICE_DATA32 {
        ok := ListServiceData(d, 4);
      } else if t == SERVICE_DATA128 {
        ok := ListServiceData(d, 16);
      }
    }

    method Unmarshall(packet: bytes) returns (o: Outcome)
      modifies this
      ensures (a, o) == Walk(old(a), packet)
    {
      var b := packet;
      while |b| > 0
        invariant Walk(a, b) == Walk(old(a), packet)
        decreases |b|
      {
        if |b| < 2 {
          return Invalid;
        }
        var l, t := b[0], b[1];
        var size := ((l as int) + 1) % 0x100;
        if l < 1 || |b| < size {
          return Invalid;
        }
        if size < 2 {
          return Crashed;
        }
        var ok := ApplyField(t, b[2..size]);
        if !ok {
          return Crashed;
        }
        b := b[size..];
      }
      o := Parsed;
    }
  }

  /** The list is what the bytes spell exactly when they divide evenly. */
  lemma {:induction false} UuidListIsAll(u: seq<bytes>, d: bytes, w: nat)
    requires w == 2 || w == 4 || w == 16
    ensures |d| % w == 0 ==> u <= UuidList(u, d, w) && Flatten(UuidList(u, d, w)) == Flatten(u) + d
    ensures |d| % w != 0 ==> UuidList(u, d, w) == []
    decreases |d|
  {
    if d == [] {
      assert Flatten(u) + d == Flatten(u);
    } else if |d| >= w {
      assert |d[w..]| % w == |d| % w by { Less(|d|, w); }
      UuidListIsAll(u + [d[..w]], d[w..], w);
      FlattenAppend(u, d[..w]);
      Assoc(Flatten(u), d[..w], d[w..]);
      assert d[..w] + d[w..] == d;
    }
  }

  lemma Less(n: nat, w: nat)
    requires w <= n && (w == 2 || w == 4 || w == 16)
    ensures (n - w) % w == n % w
  {
    if w == 2 {
    } else if w == 4 {
    } else {
    }
  }

  // ------------------------------------------------ malformed and crashing

  /** Fields that crash the reader: an empty value, or service data shorter than its UUID. */
  predicate Crashing(f: Field)
  {
    var n := |f.d|;
    || ((f.typ == FLAGS || f.typ == TX_POWER) && n == 0)
    || (f.typ == SERVICE_DATA16 && n < 2)
    || (f.typ == SERVICE_DATA32 && n < 4)
    || (f.typ == SERVICE_DATA128 && n < 16)
  }

  /** What is left of the packet after its first `k` fields, none of which crashes. */
  function Left(b: bytes, k: nat): Option<bytes>
  {
    if k == 0 then Some(b)
    else
      match SplitField(b)
      case One(f, rest) => if Crashing(f) then None else Left(rest, k - 1)
      case _ => None
  }

  /** The length byte is 255, or the field crashes. */
  predicate CrashesHere(b: bytes)
  {
    && |b| >= 2
    && (b[0] == 0xFF || (b[0] >= 1 && |b| > b[0] as int && Crashing(Field(b[1], b[2..1 + b[0]]))))
  }

  /** A byte is alone, or the length is 0 or more than there is. */
  predicate MalformedHere(b: bytes)
  {
    |b| == 1 || (|b| >= 2 && b[0] != 0xFF && (b[0] == 0 || |b| <= b[0] as int))
  }

  lemma Here(b: bytes)
    ensures CrashesHere(b) <==> SplitField(b).Bad? || (SplitField(b).One? && Crashing(SplitField(b).f))
    ensures MalformedHere(b) <==> SplitField(b).Malformed?
  {}

  lemma ApplyFailsIff(a: Adv, f: Field)
    ensures Apply(a, f).None? <==> Crashing(f)
  {
    hide UuidList, ZeroTruncate;
  }

  /** How a packet is read depends on the packet alone: the first field that cannot be read
      decides whether it is malformed or crashes. */
  lemma {:induction false} WalkEnds(a: Adv, b: bytes) returns (k: nat)
    ensures Left(b, k).Some?
    ensures var r := Left(b, k).value;
      match Walk(a, b).1
      case Parsed => r == []
      case Invalid => MalformedHere(r)
      case Crashed => CrashesHere(r)
    decreases |b|
  {
    hide Apply, Crashing, CrashesHere, MalformedHere;
    Here(b);
    k := 0;
    var s := SplitField(b);
    if s.One? {
      ApplyFailsIff(a, s.f);
      if !Crashing(s.f) {
        k := WalkEnds(Apply(a, s.f).value, s.rest);
        k := k + 1;
      }
    }
  }

  /** Only one of the fields can be the first that cannot be read. */
  lemma {:induction false} OneEnd(b: bytes, j: nat, k: nat)
    requires Left(b, j).Some? && Left(b, k).Some? && Stops(Left(b, j).value) && Stops(Left(b, k).value)
    ensures j == k
    decreases j
  {
    hide Crashing, CrashesHere, MalformedHere;
    Here(b);
    if j > 0 && k > 0 {
      OneEnd(SplitField(b).rest, j - 1, k - 1);
    }
  }

  predicate Stops(b: bytes) { b == [] || MalformedHere(b) || CrashesHere(b) }

  predicate MalformedAt(b: bytes, k: nat) { Left(b, k).Some? && MalformedHere(Left(b, k).value) }

  predicate CrashesAt(b: bytes, k: nat) { Left(b, k).Some? && CrashesHere(Left(b, k).value) }

  /** A packet crashes the reader exactly when some field does and all before it can be read,
      is refused exactly when it is malformed there, and is read otherwise. */
  lemma WalkOutcome(a: Adv, b: bytes)
    ensures Walk(a, b).1 == Crashed <==> exists k :: CrashesAt(b, k)
    ensures Walk(a, b).1 == Invalid <==> exists k :: MalformedAt(b, k)
  {
    hide Left, Walk, CrashesHere, MalformedHere;
    var n := WalkEnds(a, b);
    Exclusive(Left(b, n).value);
    assert Walk(a, b).1 == Crashed ==> CrashesAt(b, n);
    assert Walk(a, b).1 == Invalid ==> MalformedAt(b, n);
    forall k | CrashesAt(b, k) || MalformedAt(b, k) ensures k == n {
      OneEnd(b, k, n);
    }
  }

  lemma Exclusive(b: bytes)
    ensures !(CrashesHere(b) && MalformedHere(b)) && (b == [] ==> !CrashesHere(b) && !MalformedHere(b))
  {}

  // ------------------------------------------ what reading one field changes

  /** A field on the wire: how long the rest is, its type, its data. */
  function Octets(typ: byte, d: bytes): bytes
    requires |d| <= 0xFD
  {
    [|d| + 1, typ] + d
  }

  /** Reading goes on behind the first field, with what that field leaves. */
  lemma ReadsOn(a: Adv, typ: byte, d: bytes, more: bytes)
    requires |d| <= 0xFD && Apply(a, Field(typ, d)).Some?
    ensures Walk(a, Octets(typ, d) + more) == Walk(Apply(a, Field(typ, d)).value, more)
  {
    hide Apply;
    var b := Octets(typ, d) + more;
    assert b[2..2 + |d|] == d && b[2 + |d|..] == more;
  }

  /** Flags are the first octet. */
  lemma FlagsAreRead(a: Adv, d: bytes, more: bytes)
    requires 0 < |d| <= 0xFD
    ensures Walk(a, Octets(0x01, d) + more) == Walk(a.(flags := d[0], raw := d), more)
  {
    ReadsOn(a, 0x01, d, more);
  }

  /** So is the transmission power. */
  lemma TxPowerIsRead(a: Adv, d: bytes, more: bytes)
    requires 0 < |d| <= 0xFD
    ensures Walk(a, Octets(0x0A, d) + more) == Walk(a.(txPower := d[0], raw := d), more)
  {
    ReadsOn(a, 0x0A, d, more);
  }

  /** Names, complete or shortened, end with the field or before its first zero. */
  lemma NamesAreRead(a: Adv, typ: byte, name: bytes, tail: bytes, more: bytes)
    requires typ in {0x08, 0x09} && 0 !in name && (tail == [] || tail[0] == 0) && |name + tail| <= 0xFD
    ensures Walk(a, Octets(typ, name + tail) + more) == Walk(a.(localName := name, raw := name + tail), more)
  {
    ReadsOn(a, typ, name + tail, more);
    CutAtZero(name, tail);
  }

  lemma {:induction false} CutAtZero(name: bytes, tail: bytes)
    requires 0 !in name && (tail == [] || tail[0] == 0)
    ensures ZeroTruncate(name + tail) == name
  {
    if name == [] {
      assert name + tail == tail;
    } else {
      assert (name + tail)[0] == name[0] && (name + tail)[1..] == name[1..] + tail;
      assert 0 !in name[1..];
      CutAtZero(name[1..], tail);
    }
  }

  /** Service UUIDs of 2, 4 and 16 octets, from complete and incomplete lists, join those
      known; a list that does not divide evenly loses those known as well. */
  lemma ServiceListsAreRead(a: Adv, typ: byte, w: nat, us: seq<bytes>, d: bytes, more: bytes)
    requires (typ in {0x02, 0x03} && w == 2) || (typ in {0x04, 0x05} && w == 4) || (typ in {0x06, 0x07} && w == 16)
    requires |d| <= 0xFD && if |d| % w == 0 then Splits(us, d, w) else us == []
    ensures Walk(a, Octets(typ, d) + more) ==
            Walk(a.(services := if |d| % w == 0 then a.services + us else [], raw := d), more)
  {
    hide UuidList;
    ReadsOn(a, typ, d, more);
    UuidListSplits(a.services, us, d, w);
  }

  /** The same for solicited services. */
  lemma SolicitedListsAreRead(a: Adv, typ: byte, w: nat, us: seq<bytes>, d: bytes, more: bytes)
    requires (typ == 0x14 && w == 2) || (typ == 0x1F && w == 4) || (typ == 0x15 && w == 16)
    requires |d| <= 0xFD && if |d| % w == 0 then Splits(us, d, w) else us == []
    ensures Walk(a, Octets(typ, d) + more) ==
            Walk(a.(solicited := if |d| % w == 0 then a.solicited + us else [], raw := d), more)
  {
    hide UuidList;
    ReadsOn(a, typ, d, more);
    UuidListSplits(a.solicited, us, d, w);
  }

  /** `us` are the pieces of `d`, `w` octets each. */
  predicate Splits(us: seq<bytes>, d: bytes, w: nat)
  {
    Flatten(us) == d && forall i :: 0 <= i < |us| ==> |us[i]| == w
  }

  lemma {:induction false} UuidListSplits(u: seq<bytes>, us: seq<bytes>, d: bytes, w: nat)
    requires w == 2 || w == 4 || w == 16
    requires if |d| % w == 0 then Splits(us, d, w) else us == []
    ensures UuidList(u, d, w) == if |d| % w == 0 then u + us else []
    decreases |d|
  {
    UuidListIsAll(u, d, w);
    if |d| % w == 0 {
      if us == [] {
        assert u + us == u;
      } else {
        assert d == us[0] + Flatten(us[1..]) && d[..w] == us[0] && d[w..] == Flatten(us[1..]);
        Less(|d|, w);
        UuidListSplits(u + [us[0]], us[1..], d[w..], w);
        assert (u + [us[0]]) + us[1..] == u + us;
      }
    }
  }

  /** Service data of 16-bit, 32-bit and 128-bit UUIDs: the UUID, and as many octets as follow
      it, taken from the third on. */
  lemma ServiceDataIsRead(a: Adv, typ: byte, w: nat, u: bytes, x: bytes, more: bytes)
    requires (typ == 0x16 && w == 2) || (typ == 0x20 && w == 4) || (typ == 0x21 && w == 16)
    requires |u| == w && w + |x| <= 0xFD
    ensures Walk(a, Octets(typ, u + x) + more) ==
            Walk(a.(serviceData := a.serviceData + [(u, (u + x)[2..2 + |x|])], raw := u + x), more)
  {
    ReadsOn(a, typ, u + x, more);
    assert (u + x)[..w] == u;
  }

  /** Manufacturer data is kept whole; its first two octets, low one first, are the company. */
  lemma ManufacturerIsRead(a: Adv, d: bytes, more: bytes)
    requires |d| <= 0xFD
    ensures var company := if |d| >= 2 then d[0] as int + 0x100 * d[1] as int else a.companyId;
      Walk(a, Octets(0xFF, d) + more) == Walk(a.(manufacturerData := d, companyId := company, raw := d), more)
  {
    ReadsOn(a, 0xFF, d, more);
  }

  /** Fields of any other type are skipped. */
  lemma OthersAreSkipped(a: Adv, typ: byte, d: bytes, more: bytes)
    requires typ !in {0x01, 0x02, 0x03, 0x04, 0x05, 0x06, 0x07, 0x08, 0x09, 0x0A,
                      0x14, 0x15, 0x16, 0x1F, 0x20, 0x21, 0xFF}
    requires |d| <= 0xFD
    ensures Walk(a, Octets(typ, d) + more) == Walk(a.(raw := d), more)
  {
    ReadsOn(a, typ, d, more);
  }

  /** Nothing is known of an advertiser whose packet is empty. */
  lemma NothingIsRead()
    ensures var (a, o) := Walk(BLANK, []);
      && o == Parsed && a.localName == [] && a.flags == 0 && a.companyId == 0 && a.manufacturerData == []
      && a.serviceData == [] && a.services == [] && a.txPower == 0 && a.solicited == []
  {}

  /** Service data is right for 16-bit UUIDs and only for them. */
  lemma ServiceDataIsTail(w: nat)
    requires w >= 2
    ensures (forall d: bytes :: |d| >= w ==> ServiceData(d, w).1 == d[w..]) <==> w == 2
  {
    if w > 2 {
      var zeros: bytes := seq(w, i => 0);
      var d := zeros + [1];
      assert d[2] == zeros[2] && d[w] == 1;
      assert ServiceData(d, w).1 == d[2..3] && d[2] == 0 && d[w..] == [1];
    }
  }

  // -------------------------------------------------------------- building

  function FieldBytes(f: Field): bytes
    requires |f.d| < 0xFF
  {
    [|f.d| + 1, f.typ] + f.d
  }

  class AdvPacket {
    var b: bytes

    constructor ()
      ensures b == []
    {
      b := [];
    }

    /** The data is cut to what fits; there must be room for the header. */
    method AppendField(typ: byte, d: bytes)
      requires |b| + 2 <= MAX_EIR
      modifies this
      ensures b == old(b) + FieldBytes(Fitted(Field(typ, d), |old(b)|)) && |b| <= MAX_EIR
    {
      var x := d;
      if |b| + 2 + |x| > MAX_EIR {
        x := x[..MAX_EIR - |b| - 2];
      } else {
        assert d == d[..|d|];
      }
      assert ((b + [|x| + 1]) + [typ]) + x == b + FieldBytes(Field(typ, x));
      b := b + [|x| + 1];
      b := b + [typ];
      b := b + x;
    }

    method AppendFlags(f: byte)
      requires |b| + 2 <= MAX_EIR
      modifies this
      ensures b == old(b) + FieldBytes(Fitted(Field(FLAGS, [f]), |old(b)|)) && |b| <= MAX_EIR
    {
      AppendField(FLAGS, [f]);
    }

    method AppendName(n: bytes)
      requires |b| + 2 <= MAX_EIR
      modifies this
      ensures b == old(b) + FieldBytes(NameField(n, |old(b)|)) && |b| <= MAX_EIR
    {
      var typ := COMPLETE_NAME;
      if |b| + 2 + |n| > MAX_EIR {
        typ := SHORT_NAME;
      }
      AppendField(typ, n);
    }

    /** Appends the service UUIDs in order until one does not fit, each as its own field. */
    method AppendUUIDFit(uu: seq<bytes>) returns (fit: bool)
      requires |b| <= MAX_EIR && forall i :: 0 <= i < |uu| ==> |uu[i]| == 2 || |uu[i]| == 16
      modifies this
      ensures fit <==> |old(b)| + SizeOf(uu) <= MAX_EIR
      ensures b == Taken(old(b), uu, fit) && |b| <= MAX_EIR
    {
      fit := true;
      var l, i := |b|, 0;
      assert uu[0..] == uu;
      while i < |uu|
        invariant 0 <= i <= |uu| && fit && l <= MAX_EIR
        invariant l + SizeOf(uu[i..]) == |b| + SizeOf(uu)
      {
        assert uu[i..][0] == uu[i] && uu[i..][1..] == uu[i + 1..];
        if IsService(uu[i]) {
          l := l + 2 + |uu[i]|;
          if l > MAX_EIR {
            fit := false;
            break;
          }
        }
        i := i + 1;
      }
      i := 0;
      while i < |uu|
        invariant 0 <= i <= |uu| && |b| <= MAX_EIR
        invariant Taken(b, uu[i..], fit) == Taken(old(b), uu, fit)
      {
        assert uu[i..][0] == uu[i] && uu[i..][1..] == uu[i + 1..];
        var u := uu[i];
        if IsService(u) {
          if |b| + 2 + |u| > MAX_EIR {
            break;
          }
          assert u[..|u|] == u;
          if |u| == 2 && fit {
            AppendField(ALL_UUID16, u);
          } else if |u| == 16 && fit {
            AppendField(ALL_UUID128, u);
          } else if |u| == 2 {
            AppendField(SOME_UUID16, u);
          } else {
            AppendField(SOME_UUID128, u);
          }
        }
        i := i + 1;
      }
    }

    /** The packet in 31 bytes, and how many of them count. */
    method Bytes() returns (r: bytes, len: nat)
      requires |b| <= MAX_EIR
      ensures |r| == MAX_EIR && len == |b| && r[..len] == b
    {
      r := b + seq(MAX_EIR - |b|, i => 0);
      len := |b|;
    }

    method AppendManufacturerData(id: uint16, d: bytes)
      requires |b| + 2 <= MAX_EIR
      modifies this
      ensures b == old(b) + FieldBytes(Fitted(Field(MANUFACTURER, Le16(id) + d), |old(b)|)) && |b| <= MAX_EIR
    {
      AppendField(MANUFACTURER, [Low(id), High(id)] + d);
    }
  }

  /** A field with its data cut to the room left after `used` bytes. */
  function Fitted(f: Field, used: nat): (r: Field)
    requires used + 2 <= MAX_EIR
    ensures |r.d| <= MAX_EIR - used - 2 && (used + 2 + |f.d| <= MAX_EIR ==> r == f)
  {
    Field(f.typ, f.d[..Min(|f.d|, MAX_EIR - used - 2)])
  }

  /** The GAP and GATT services are never advertised. */
  predicate IsService(u: bytes) { u != GAP && u != GATT }

  /** The bytes all the service UUIDs would take. */
  function SizeOf(uu: seq<bytes>): nat
  {
    if uu == [] then 0 else (if IsService(uu[0]) then 2 + |uu[0]| else 0) + SizeOf(uu[1..])
  }

  function UuidField(u: bytes, fit: bool): Field
  {
    Field(if |u| == 2 then (if fit then ALL_UUID16 else SOME_UUID16)
          else (if fit then ALL_UUID128 else SOME_UUID128), u)
  }

  /** A packet after the UUIDs that fit. */
  function Taken(b: bytes, uu: seq<bytes>, fit: bool): bytes
    requires forall i :: 0 <= i < |uu| ==> |uu[i]| == 2 || |uu[i]| == 16
    decreases |uu|
  {
    if uu == [] then b
    else if !IsService(uu[0]) then Taken(b, uu[1..], fit)
    else if |b| + 2 + |uu[0]| > MAX_EIR then b
    else Taken(b + FieldBytes(UuidField(uu[0], fit)), uu[1..], fit)
  }

  /** The name field appended to a packet of `used` bytes. */
  function NameField(n: bytes, used: nat): (f: Field)
    requires used + 2 <= MAX_EIR
    ensures |f.d| <= MAX_EIR - used - 2
  {
    Fitted(Field(if used + 2 + |n| > MAX_EIR then SHORT_NAME else COMPLETE_NAME, n), used)
  }

  // -------------------------------------------------- fields on the wire

  /** Every service UUID but 0x1800 and 0x1801 is to be advertised, in order. */
  lemma {:induction false} ServicesLeftOut(a: seq<bytes>, u: bytes, b: seq<bytes>)
    ensures Services(a + [u] + b) ==
            Services(a) + (if u == [0x00, 0x18] || u == [0x01, 0x18] then [] else [u]) + Services(b)
  {
    if a == [] {
      assert [] + [u] + b == [u] + b && ([u] + b)[1..] == b;
    } else {
      assert (a + [u] + b)[0] == a[0] && (a + [u] + b)[1..] == a[1..] + [u] + b;
      ServicesLeftOut(a[1..], u, b);
    }
  }

  /** A UUID takes two octets more than its own: 2 or 16 octets, types 2 and 6 as long as not
      all fit, else 3 and 7. */
  lemma UuidOctets(u: bytes, fit: bool)
    requires |u| == 2 || |u| == 16
    ensures FieldBytes(UuidField(u, fit)) ==
      (if |u| == 2 then [0x03, if fit then 0x03 else 0x02] else [0x11, if fit then 0x07 else 0x06]) + u
  {}

  /** A name is complete, type 9, when two octets more than its own are free behind `used`;
      else it is shortened, type 8, and fills the packet up to 31 octets. */
  lemma NameOctets(n: bytes, used: nat)
    requires used + 2 <= 31
    ensures used + 2 + |n| <= 31 ==> FieldBytes(NameField(n, used)) == [|n| + 1, 0x09] + n
    ensures used + 2 + |n| > 31 ==>
      var room := 29 - used;
      FieldBytes(NameField(n, used)) == [room + 1, 0x08] + n[..room]
  {
    assert n[..|n|] == n;
  }

  // ------------------------------------------------------- round trip

  /** The fields a packet is made of. */
  function Fields(b: bytes): Option<seq<Field>>
    decreases |b|
  {
    match SplitField(b)
    case End => Some([])
    case One(f, rest) =>
      var more := Fields(rest);
      if more.None? then None else Some([f] + more.value)
    case _ => None
  }

  lemma SplitFirst(f: Field, rest: bytes)
    requires |f.d| < 0xFE
    ensures SplitField(FieldBytes(f) + rest) == One(f, rest)
  {
    var b := FieldBytes(f) + rest;
    assert b[2..2 + |f.d|] == f.d && b[2 + |f.d|..] == rest;
  }

  lemma OneField(f: Field)
    requires |f.d| < 0xFE
    ensures Fields(FieldBytes(f)) == Some([f])
  {
    SplitFirst(f, []);
    assert FieldBytes(f) + [] == FieldBytes(f);
    var none: seq<Field> := [];
    assert Fields([]) == Some(none) && [f] + none == [f];
  }

  /** What follows a complete field does not change it. */
  lemma SplitKeeps(b: bytes, x: bytes)
    requires SplitField(b).One?
    ensures SplitField(b + x) == One(SplitField(b).f, SplitField(b).rest + x)
  {
    var size := (b[0] as int) + 1;
    assert (b + x)[2..size] == b[2..size] && (b + x)[size..] == b[size..] + x;
  }

  /** Appending one more field appends one more field to what is read back. */
  lemma {:induction false} FieldsAppend(b: bytes, f: Field)
    requires |f.d| < 0xFE && Fields(b).Some?
    ensures Fields(b + FieldBytes(f)) == Some(Fields(b).value + [f])
    decreases |b|
  {
    hide FieldBytes, SplitField;
    OneField(f);
    FieldsStep(b);
    if b == [] {
      assert b + FieldBytes(f) == FieldBytes(f) && Fields(b).value + [f] == [f];
    } else {
      var s := SplitField(b);
      SplitKeeps(b, FieldBytes(f));
      FieldsAppend(s.rest, f);
      Assoc([s.f], Fields(s.rest).value, [f]);
    }
  }

  lemma FieldsStep(b: bytes)
    requires Fields(b).Some?
    ensures if b == [] then Fields(b).value == [] else SplitField(b).One? && |SplitField(b).rest| < |b|
  {}

  /** Reading a packet back applies its fields one after the other. */
  function ApplyAll(a: Adv, fs: seq<Field>): Option<Adv>
    decreases |fs|
  {
    if fs == [] then Some(a)
    else
      var n := Apply(a, fs[0]);
      if n.None? then None else ApplyAll(n.value, fs[1..])
  }

  lemma {:induction false} WalkIsApplyAll(a: Adv, b: bytes)
    requires Fields(b).Some? && ApplyAll(a, Fields(b).value).Some?
    ensures Walk(a, b) == (ApplyAll(a, Fields(b).value).value, Parsed)
    decreases |b|
  {
    var s := SplitField(b);
    if s.One? {
      var more := Fields(s.rest).value;
      assert ([s.f] + more)[1..] == more;
      WalkIsApplyAll(Apply(a, s.f).value, s.rest);
    }
  }

  /** What any sequence of `AppendField` calls leaves in the packet. */
  function Appended(b: bytes, calls: seq<Field>): bytes
    requires |b| <= MAX_EIR
    decreases |calls|
  {
    if calls == [] || |b| + 2 > MAX_EIR then b
    else
      Appended(b + FieldBytes(Fitted(calls[0], |b|)), calls[1..])
  }

  /** The fields actually stored: each as called, or cut to the room left. */
  function Stored(used: nat, calls: seq<Field>): seq<Field>
    requires used <= MAX_EIR
    decreases |calls|
  {
    if calls == [] || used + 2 > MAX_EIR then []
    else
      var f := Fitted(calls[0], used);
      [f] + Stored(used + 2 + |f.d|, calls[1..])
  }

  /** Packets stay within 31 bytes and split back into exactly the stored fields. */
  lemma {:induction false} AppendedSplitsBack(b: bytes, calls: seq<Field>)
    requires |b| <= MAX_EIR && Fields(b).Some?
    ensures |Appended(b, calls)| <= MAX_EIR
    ensures Fields(Appended(b, calls)) == Some(Fields(b).value + Stored(|b|, calls))
    decreases |calls|
  {
    hide Fields, FieldBytes, Fitted;
    if calls == [] || |b| + 2 > MAX_EIR {
      assert Fields(b).value + [] == Fields(b).value;
    } else {
      var f := Fitted(calls[0], |b|);
      SizeOfField(f);
      FieldsAppend(b, f);
      AppendedSplitsBack(b + FieldBytes(f), calls[1..]);
      Assoc(Fields(b).value, [f], Stored(|b| + 2 + |f.d|, calls[1..]));
    }
  }

  // ------------------------------------------------- service UUID fields

  /** The service UUIDs to advertise, in order. */
  function Services(uu: seq<bytes>): seq<bytes>
  {
    if uu == [] then []
    else if IsService(uu[0]) then [uu[0]] + Services(uu[1..])
    else Services(uu[1..])
  }

  /** Those that fit after `used` bytes. */
  function TakenUuids(used: nat, uu: seq<bytes>): seq<bytes>
    decreases |uu|
  {
    if uu == [] then []
    else if !IsService(uu[0]) then TakenUuids(used, uu[1..])
    else if used + 2 + |uu[0]| > MAX_EIR then []
    else [uu[0]] + TakenUuids(used + 2 + |uu[0]|, uu[1..])
  }

  function FieldsOf(us: seq<bytes>, fit: bool): seq<Field>
  {
    if us == [] then [] else [UuidField(us[0], fit)] + FieldsOf(us[1..], fit)
  }

  /** The longest prefix of the service UUIDs that fits; all of them when all fit. */
  lemma {:induction false} TakenIsLongestPrefix(used: nat, uu: seq<bytes>)
    requires used <= MAX_EIR
    ensures var us, k := Services(uu), |TakenUuids(used, uu)|;
      && k <= |us| && TakenUuids(used, uu) == us[..k] && used + SizeOf(us[..k]) <= MAX_EIR
      && (k < |us| ==> used + SizeOf(us[..k]) + 2 + |us[k]| > MAX_EIR)
      && (k == |us| <==> used + SizeOf(uu) <= MAX_EIR)
    decreases |uu|
  {
    if uu != [] {
      var us := Services(uu[1..]);
      if !IsService(uu[0]) {
        TakenIsLongestPrefix(used, uu[1..]);
      } else if used + 2 + |uu[0]| <= MAX_EIR {
        TakenIsLongestPrefix(used + 2 + |uu[0]|, uu[1..]);
        var k := |TakenUuids(used + 2 + |uu[0]|, uu[1..])|;
        assert ([uu[0]] + us)[..k + 1] == [uu[0]] + us[..k];
        assert ([uu[0]] + us[..k])[1..] == us[..k];
      }
    }
  }

  /** They come back as one field each. */
  lemma {:induction false} TakenFields(b: bytes, uu: seq<bytes>, fit: bool)
    requires |b| <= MAX_EIR && Fields(b).Some?
    requires forall i :: 0 <= i < |uu| ==> |uu[i]| == 2 || |uu[i]| == 16
    ensures Fields(Taken(b, uu, fit)) == Some(Fields(b).value + FieldsOf(TakenUuids(|b|, uu), fit))
    ensures |Taken(b, uu, fit)| <= MAX_EIR
    decreases |uu|
  {
    hide Fields, FieldBytes;
    if uu == [] {
      assert Fields(b).value + [] == Fields(b).value;
    } else if !IsService(uu[0]) {
      TakenFields(b, uu[1..], fit);
    } else if |b| + 2 + |uu[0]| > MAX_EIR {
      assert Fields(b).value + [] == Fields(b).value;
    } else {
      var f := UuidField(uu[0], fit);
      FieldsAppend(b, f);
      SizeOfField(f);
      TakenFields(b + FieldBytes(f), uu[1..], fit);
      var more := TakenUuids(|b| + 2 + |uu[0]|, uu[1..]);
      assert ([uu[0]] + more)[1..] == more;
      Assoc(Fields(b).value, [f], FieldsOf(more, fit));
    }
  }

  lemma SizeOfField(f: Field)
    requires |f.d| < 0xFF
    ensures |FieldBytes(f)| == 2 + |f.d|
  {}

  lemma {:induction false} ApplyConcat(a: Adv, x: seq<Field>, y: seq<Field>)
    requires ApplyAll(a, x).Some?
    ensures ApplyAll(a, x + y) == ApplyAll(ApplyAll(a, x).value, y)
    decreases |x|
  {
    if x == [] {
      assert x + y == y;
    } else {
      assert (x + y)[0] == x[0] && (x + y)[1..] == x[1..] + y;
      ApplyConcat(Apply(a, x[0]).value, x[1..], y);
    }
  }

  /** Reading one UUID field adds that UUID. */
  lemma ApplyUuid(a: Adv, u: bytes, fit: bool)
    requires |u| == 2 || |u| == 16
    ensures Apply(a, UuidField(u, fit)) == Some(a.(services := a.services + [u], raw := u))
  {
    assert u[..|u|] == u && u[|u|..] == [];
    assert UuidList(a.services, u, |u|) == UuidList(a.services + [u], [], |u|);
  }

  lemma {:induction false} ApplyUuids(a: Adv, us: seq<bytes>, fit: bool)
    requires forall i :: 0 <= i < |us| ==> |us[i]| == 2 || |us[i]| == 16
    ensures var r := ApplyAll(a, FieldsOf(us, fit));
      r.Some? && r.value.(raw := a.raw) == a.(services := a.services + us)
    decreases |us|
  {
    hide Apply;
    if us == [] {
      assert a.services + us == a.services;
    } else {
      ApplyUuid(a, us[0], fit);
      var f, more := UuidField(us[0], fit), FieldsOf(us[1..], fit);
      assert ([f] + more)[0] == f && ([f] + more)[1..] == more;
      ApplyUuids(a.(services := a.services + [us[0]], raw := us[0]), us[1..], fit);
      assert (a.services + [us[0]]) + us[1..] == a.services + us;
    }
  }
}
