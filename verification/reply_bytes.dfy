/** Requests and replies octet by octet: what a server answers, said without the functions
    that compute it. */
module ReplyBytes {
  import opened Bytes
  import opened Att
  import opened AttributeTable
  import opened ResponseWriters
  import opened Replies
  import opened Discovery

  /** A 16-bit number on the wire, low octet first. */
  function Two(v: uint16): bytes { [v % 0x100, v / 0x100] }

  lemma TwoIsLe16(v: uint16)
    ensures Two(v) == Le16(v) && Word(Two(v)) == v
  {}

  lemma TwoOfWord(b: bytes)
    requires |b| >= 2
    ensures Two(Word(b)) == [b[0], b[1]] && [Low(Word(b)), High(Word(b))] == [b[0], b[1]]
  {}

  /** An error reply: opcode 1, the request's opcode, its first two octets after that, the code. */
  function Refusal(req: bytes, code: byte): bytes
    requires |req| >= 3
  {
    [0x01, req[0], req[1], req[2], code]
  }

  // ------------------------------------------------------------- the MTU

  /** A wish within 23..256 is granted, a smaller one becomes 23, a larger one 256. */
  lemma MtuIsGranted(aa: seq<Attr>, mtu: nat, env: Env, wish: uint16, more: bytes)
    requires mtu >= 23
    ensures var req := [0x02] + Two(wish) + more;
      && LongEnough(req)
      && (23 <= wish <= 256 ==> NextMtu(mtu, req) == wish && Reply(aa, mtu, env, req) == Some([0x03] + Two(wish)))
      && (wish < 23 ==> NextMtu(mtu, req) == 23 && Reply(aa, mtu, env, req) == Some([0x03, 23, 0]))
      && (wish > 256 ==> NextMtu(mtu, req) == 256 && Reply(aa, mtu, env, req) == Some([0x03, 0, 1]))
  {
    TwoIsLe16(wish);
    var req := [0x02] + Two(wish) + more;
    assert req[1..] == Two(wish) + more && Word(req[1..]) == wish;
    assert [0x03] + Le16(23) == [0x03, 23, 0] && [0x03] + Le16(256) == [0x03, 0, 1];
  }

  /** No other request changes the MTU. */
  lemma OnlyMtuRequests(mtu: nat, req: bytes)
    requires req != [] && req[0] != 0x02
    ensures NextMtu(mtu, req) == mtu
  {}

  /** The client takes a reply for its request when it has the opcode behind the request's, or
      is an error that names the request. */
  lemma AcceptedOctets(op: byte, r: bytes)
    requires op in {0x02, 0x04, 0x06, 0x08, 0x0A, 0x0C, 0x10, 0x12}
    ensures Answers(op, r) <==> |r| >= 1 && (r[0] as int == op + 1 || (r[0] == 0x01 && |r| >= 2 && r[1] == op))
  {}

  // ----------------------------------------------------------- error codes

  /** Requests this server does not know are unsupported. */
  lemma UnknownIsUnsupported(aa: seq<Attr>, mtu: nat, env: Env, req: bytes)
    requires mtu >= 23 && req != [] && req[0] !in {0x02, 0x04, 0x06, 0x08, 0x0A, 0x0C, 0x10, 0x12, 0x52}
    ensures LongEnough(req) && Reply(aa, mtu, env, req) == Some([0x01, req[0], 0, 0, 0x06])
    ensures NextMtu(mtu, req) == mtu && ChangeOf(aa, req) == NoChange
  {}

  /** Only primary services are grouped. */
  lemma OtherGroupIsUnsupported(aa: seq<Attr>, mtu: nat, env: Env, req: bytes)
    requires mtu >= 23 && |req| >= 5 && req[0] == 0x10 && req[5..] != [0x00, 0x28]
    ensures LongEnough(req) && Reply(aa, mtu, env, req) == Some(Refusal(req, 0x10))
  {
    assert req[1..][4..] == req[5..];
    TwoOfWord(req[1..]);
  }

  /** Only primary services are found by their value. */
  lemma OtherTypeIsNotFound(aa: seq<Attr>, mtu: nat, env: Env, req: bytes)
    requires mtu >= 23 && |req| >= 7 && req[0] == 0x06 && req[5..7] != [0x00, 0x28]
    ensures LongEnough(req) && Reply(aa, mtu, env, req) == Some(Refusal(req, 0x0A))
  {
    assert req[1..][4..6] == req[5..7];
    TwoOfWord(req[1..]);
  }

  /** Reads and writes of a handle that is not in the table. */
  lemma MissingIsInvalid(aa: seq<Attr>, mtu: nat, env: Env, req: bytes)
    requires mtu >= 23 && |req| >= 3 && req[0] in {0x0A, 0x0C, 0x12, 0x52} && (req[0] == 0x0C ==> |req| >= 5)
    requires forall a :: a in aa ==> a.h != req[1] as int + 0x100 * req[2] as int
    ensures LongEnough(req) && Reply(aa, mtu, env, req) == Some(Refusal(req, 0x01)) && ChangeOf(aa, req) == NoChange
  {
    TwoOfWord(req[1..]);
    NotThere(aa, Word(req[1..]));
    hide Find;
  }

  lemma {:induction false} NotThere(aa: seq<Attr>, h: nat)
    requires forall a :: a in aa ==> a.h != h
    ensures Find(aa, h).None?
  {
    if aa != [] {
      NotThere(aa[1..], h);
    }
  }

  /** The handle of `req` is that of attribute `a`. */
  predicate Targets(aa: seq<Attr>, req: bytes, a: Attr)
  {
    |req| >= 3 && Find(aa, req[1] as int + 0x100 * req[2] as int) == Some(a)
  }

  /** Reads need property bit 1, writes bit 3 and Write Commands bit 2. */
  lemma UnpermittedIsRefused(aa: seq<Attr>, mtu: nat, env: Env, req: bytes, a: Attr)
    requires mtu >= 23 && Targets(aa, req, a) && (req[0] == 0x0C ==> |req| >= 5)
    requires (req[0] in {0x0A, 0x0C} && a.props / 2 % 2 == 0)
             || (req[0] == 0x12 && a.props / 8 % 2 == 0) || (req[0] == 0x52 && a.props / 4 % 2 == 0)
    ensures LongEnough(req) && ChangeOf(aa, req) == NoChange
    ensures Reply(aa, mtu, env, req) == Some(Refusal(req, if req[0] in {0x0A, 0x0C} then 0x02 else 0x03))
  {
    hide Find;
    TwoOfWord(req[1..]);
  }

  // -------------------------------------------------------- reads, writes

  /** A read of a value stored in the table. */
  lemma StoredOctets(aa: seq<Attr>, mtu: nat, env: Env, h: uint16, a: Attr, v: bytes)
    requires mtu >= 23 && Find(aa, h) == Some(a) && a.props / 2 % 2 == 1 && a.value == Some(v)
    ensures var req := [0x0A] + Two(h);
      LongEnough(req) && Reply(aa, mtu, env, req) == Some([0x0B] + v[..Min(|v|, mtu - 1)])
  {
    hide Find, ListReply, ReadBlobReply, WriteReply, Scan;
    TwoIsLe16(h);
    assert ([0x0A] + Two(h))[1..] == Two(h);
  }

  /** A read from an offset: what is left of it, or an error when the offset is behind its end. */
  lemma StoredOctetsFrom(aa: seq<Attr>, mtu: nat, env: Env, h: uint16, off: uint16, a: Attr, v: bytes)
    requires mtu >= 23 && Find(aa, h) == Some(a) && a.props / 2 % 2 == 1 && a.value == Some(v)
    ensures var req := [0x0C] + Two(h) + Two(off);
      && LongEnough(req)
      && (off > |v| ==> Reply(aa, mtu, env, req) == Some(Refusal(req, 0x07)))
      && (off <= |v| ==> Reply(aa, mtu, env, req) == Some([0x0D] + v[off..Min(|v|, off + mtu - 1)]))
  {
    hide Find, ListReply, ReadReply, WriteReply, Scan;
    TwoIsLe16(h);
    TwoIsLe16(off);
    var req := [0x0C] + Two(h) + Two(off);
    assert req[1..] == Two(h) + Two(off) && req[1..][2..] == Two(off);
    if off <= |v| {
      assert v[off..][..Min(|v| - off, mtu - 1)] == v[off..Min(|v|, off + mtu - 1)];
    }
  }

  /** What a read handler writes in one go, if it fits. */
  lemma ServedOctets(aa: seq<Attr>, mtu: nat, env: Env, h: uint16, off: uint16, a: Attr, w: bytes)
    requires mtu >= 23 && Find(aa, h) == Some(a) && a.h == h && a.props / 2 % 2 == 1 && a.value == None
    requires env.read(h, mtu - 1, off) == [w]
    ensures var req := [0x0C] + Two(h) + Two(off);
      LongEnough(req) && Reply(aa, mtu, env, req) == Some([0x0D] + if |w| <= mtu - 1 then w else [])
    ensures off == 0 ==>
      var req := [0x0A] + Two(h);
      LongEnough(req) && Reply(aa, mtu, env, req) == Some([0x0B] + if |w| <= mtu - 1 then w else [])
  {
    hide Find;
    TwoIsLe16(h);
    TwoIsLe16(off);
    assert ([0x0A] + Two(h))[1..] == Two(h);
    var req := [0x0C] + Two(h) + Two(off);
    assert req[1..] == Two(h) + Two(off) && req[1..][2..] == Two(off);
    var got := if |w| <= mtu - 1 then w else [];
    assert [w][1..] == [] && [] + w == w;
    assert Collect(mtu - 1, [w], []) == got;
    assert got[0..] == got && got[..|got|] == got;
  }

  /** A write of a characteristic's value. */
  lemma WriteOctets(aa: seq<Attr>, mtu: nat, env: Env, h: uint16, a: Attr, value: bytes)
    requires mtu >= 23 && Find(aa, h) == Some(a) && a.pvt.OfChar? && a.typ != [0x02, 0x29]
    ensures var req := [0x12] + Two(h) + value;
      && LongEnough(req)
      && (a.props / 8 % 2 == 1 ==>
            var status := env.write(a.pvt.ch, value);
            Reply(aa, mtu, env, req) == Some(if status == 0 then [0x13] else Refusal(req, status)))
    ensures var req := [0x52] + Two(h) + value;
      LongEnough(req) && (a.props / 4 % 2 == 1 ==> Reply(aa, mtu, env, req) == None)
  {
    hide Find;
    TwoIsLe16(h);
    var req, cmd := [0x12] + Two(h) + value, [0x52] + Two(h) + value;
    assert req[1..] == Two(h) + value && req[1..][2..] == value;
    assert cmd[1..] == Two(h) + value && cmd[1..][2..] == value;
  }

  /** A write of a Client Characteristic Configuration: any of its lower two bits subscribes. */
  lemma SubscribeOctets(aa: seq<Attr>, mtu: nat, env: Env, h: uint16, a: Attr, value: bytes)
    requires mtu >= 23 && Find(aa, h) == Some(a) && a.pvt.OfDesc? && a.typ == [0x02, 0x29] && a.props / 8 % 2 == 1
    ensures var req := [0x12] + Two(h) + value;
      && LongEnough(req)
      && Reply(aa, mtu, env, req) == Some(if |value| == 2 then [0x13] else Refusal(req, 0x0D))
      && ChangeOf(aa, req) == if |value| != 2 then NoChange
                              else if value[0] % 4 != 0 then Start(a.h, a.pvt.cvh) else Stop(a.h)
  {
    hide Find;
    TwoIsLe16(h);
    var req := [0x12] + Two(h) + value;
    assert req[1..] == Two(h) + value && req[1..][2..] == value == req[3..];
  }

  // ------------------------------------------------------------------ lists

  function RangeRequest(op: byte, start: uint16, end: uint16, more: bytes): bytes
  {
    [op] + Two(start) + Two(end) + more
  }

  lemma RangeParts(op: byte, start: uint16, end: uint16, more: bytes)
    ensures var req := RangeRequest(op, start, end, more);
      var b := req[1..];
      && |req| == 5 + |more| && req[0] == op && Word(b) == start && Word(b[2..]) == end && b[4..] == more
  {
    TwoIsLe16(start);
    TwoIsLe16(end);
    var b := RangeRequest(op, start, end, more)[1..];
    assert b == Two(start) + Two(end) + more && b[2..] == Two(end) + more && b[4..] == more;
  }

  /** A reply that lists `es`: `head` and then as many entries, all as long as the first, as
      fit the MTU; without entries, an error. */
  ghost predicate Lists(r: Option<bytes>, req: bytes, es: seq<bytes>, head: bytes, mtu: nat)
    requires |req| >= 3 && |head| <= mtu
  {
    if es == [] then r == Some(Refusal(req, 0x0A))
    else exists got ::
      && r == Some(head + Flatten(got)) && LongestPrefix(got, es, |es[0]|, mtu - |head|)
      && (|es[0]| > 0 ==> Pieces(Flatten(got), |es[0]|) == got)
  }

  lemma ListsWhatIsSelected(q: Query, aa: seq<Attr>, req: bytes, start: uint16, mtu: nat, es: seq<bytes>, head: bytes)
    requires mtu >= 23 && |req| >= 3 && req[0] == ListOp(q) && req[1..3] == Two(start)
    requires Select(q, aa) == es && |head| <= 2 && (es != [] ==> head == Header(q, |es[0]|))
    ensures Lists(Some(ListReply(q, aa, start, mtu)), req, es, head, mtu)
  {
    hide Select, Header, Flatten, Pieces, Fit, LongestPrefix;
    if es != [] {
      var n := |es[0]|;
      var got := Fit(es, n, mtu - |head|);
      FitIsLongest(es, n, mtu - |head|);
      if n > 0 {
        FitDecodes(es, n, mtu - |head|);
      }
      assert ListReply(q, aa, start, mtu) == head + Flatten(got);
    } else {
      TwoIsLe16(start);
      assert req[1..3] == [req[1], req[2]];
    }
  }

  // ------------------------------------------------------- lists of services

  /** The services among the first `k`, in order, that have UUID `u`, if any is asked for, and
      whose handle is in range. */
  function ServicesNamed(p: seq<Service>, k: nat, u: Option<bytes>, start: nat, end: nat): seq<Service>
    requires k <= |p|
  {
    if k == 0 then []
    else
      var s := p[k - 1];
      ServicesNamed(p, k - 1, u, start, end)
      + if (u.None? || u == Some(s.uuid)) && start <= s.h <= end then [s] else []
  }

  /** Their handle ranges, with their UUIDs if those are asked for. */
  function Ranges(ss: seq<Service>, uuids: bool): (es: seq<bytes>)
    ensures |es| == |ss|
    ensures forall i :: 0 <= i < |ss| ==>
      es[i] == [ss[i].h % 0x100, ss[i].h / 0x100 % 0x100, ss[i].endh % 0x100, ss[i].endh / 0x100 % 0x100]
               + if uuids then ss[i].uuid else []
  {
    seq(|ss|, i requires 0 <= i < |ss| =>
      [ss[i].h % 0x100, ss[i].h / 0x100 % 0x100, ss[i].endh % 0x100, ss[i].endh / 0x100 % 0x100]
      + if uuids then ss[i].uuid else [])
  }

  lemma RangesConcat(a: seq<Service>, b: seq<Service>, uuids: bool)
    ensures Ranges(a + b, uuids) == Ranges(a, uuids) + Ranges(b, uuids)
  {}

  function QueryFor(u: Option<bytes>): Query { if u.Some? then ServicesWith(u.value) else Groups }

  lemma {:induction false} NamedSelected(p: seq<Service>, k: nat, u: Option<bytes>, start: nat, end: nat)
    requires Served(p) && k <= |p|
    ensures Selected(QueryFor(u), TableAttrs(p, k), start, end) == Ranges(ServicesNamed(p, k, u, start, end), u.None?)
  {
    hide Selected, ServiceAttrs, Ranges;
    if k == 0 {
      SelectedNil(QueryFor(u), start, end);
    } else {
      var s := p[k - 1];
      var mine := if (u.None? || u == Some(s.uuid)) && start <= s.h <= end then [s] else [];
      NamedSelected(p, k - 1, u, start, end);
      ServiceSelected(s, u, start, end, mine);
      RangesConcat(ServicesNamed(p, k - 1, u, start, end), mine, u.None?);
      SelectedBoth(QueryFor(u), TableAttrs(p, k - 1), ServiceAttrs(s), start, end,
                   Ranges(ServicesNamed(p, k - 1, u, start, end), u.None?), Ranges(mine, u.None?));
    }
  }

  lemma ServiceSelected(s: Service, u: Option<bytes>, start: nat, end: nat, mine: seq<Service>)
    requires ServiceServed(s)
    requires mine == if (u.None? || u == Some(s.uuid)) && start <= s.h <= end then [s] else []
    ensures Selected(QueryFor(u), ServiceAttrs(s), start, end) == Ranges(mine, u.None?)
  {
    hide Selected, CharsAttrs;
    var q, rows := QueryFor(u), CharsAttrs(s.chars, |s.chars|);
    CharsRows(s, |s.chars|);
    SelectedNone(q, rows, start, end);
    SelectedOne(q, ServiceAttr(s), start, end);
    SelectedFirst(q, [ServiceAttr(s)], rows, start, end, if mine == [] then [] else [Entry(q, ServiceAttr(s))]);
    if mine == [] {
      assert Ranges(mine, u.None?) == [];
    } else {
      assert Ranges(mine, u.None?) == [Ranges(mine, u.None?)[0]];
      assert Ranges(mine, u.None?)[0] == Entry(q, ServiceAttr(s));
    }
  }

  /** Find By Type Value for a service UUID, over any range: the handle ranges of exactly the
      services with that UUID, in order, as many as fit; none is an error. */
  lemma ServicesAreFoundByUuid(db: seq<Service>, u: bytes, start: uint16, end: uint16, mtu: nat, env: Env)
    requires Publishable(db) && mtu >= 23
    ensures var p := Place(db, 1);
      var req := RangeRequest(0x06, start, end, [0x00, 0x28] + u);
      && LongEnough(req)
      && Lists(Reply(TableAttrs(p, |p|), mtu, env, req), req,
               Ranges(ServicesNamed(p, |p|, Some(u), start, end), false), [0x07], mtu)
  {
    hide Place, TableAttrs, Scan, Select, ListReply, Served, ServicesNamed, Ranges, Lists;
    var p := Place(db, 1);
    var req, aa := RangeRequest(0x06, start, end, [0x00, 0x28] + u), TableAttrs(p, |p|);
    PlacedIsServed(db);
    NamedSelected(p, |p|, Some(u), start, end);
    RangeParts(0x06, start, end, [0x00, 0x28] + u);
    assert req[1..][4..6] == [0x00, 0x28] && req[1..][6..] == u;
    assert req[1..3] == Two(start);
    ListsWhatIsSelected(ServicesWith(u), Scan(aa, start, end), req, start, mtu,
                        Ranges(ServicesNamed(p, |p|, Some(u), start, end), false), [0x07]);
  }

  /** Read By Group Type for primary services, over any range: the same with their UUIDs. */
  lemma ServicesAreListed(db: seq<Service>, start: uint16, end: uint16, mtu: nat, env: Env)
    requires Publishable(db) && mtu >= 23
    ensures var p := Place(db, 1);
      var req := RangeRequest(0x10, start, end, [0x00, 0x28]);
      var ss := ServicesNamed(p, |p|, None, start, end);
      && LongEnough(req)
      && Lists(Reply(TableAttrs(p, |p|), mtu, env, req), req, Ranges(ss, true),
               [0x11, if ss == [] then 0 else (4 + |ss[0].uuid|) % 0x100], mtu)
  {
    hide Place, TableAttrs, Scan, Select, ListReply, Served, ServicesNamed, Lists;
    var p := Place(db, 1);
    var req, aa := RangeRequest(0x10, start, end, [0x00, 0x28]), TableAttrs(p, |p|);
    var ss := ServicesNamed(p, |p|, None, start, end);
    PlacedIsServed(db);
    NamedSelected(p, |p|, None, start, end);
    RangeParts(0x10, start, end, [0x00, 0x28]);
    assert req[1..3] == Two(start);
    ListsWhatIsSelected(Groups, Scan(aa, start, end), req, start, mtu, Ranges(ss, true),
                        [0x11, if ss == [] then 0 else (4 + |ss[0].uuid|) % 0x100]);
  }

  // ----------------------------------------------------- lists of attributes

  /** The attributes in range, in table order, of type `t` if one is asked for. */
  function AttrsOf(aa: seq<Attr>, t: Option<bytes>, start: nat, end: nat): seq<Attr>
  {
    if aa == [] then []
    else
      (if start <= aa[0].h <= end && (t.None? || t == Some(aa[0].typ)) then [aa[0]] else [])
      + AttrsOf(aa[1..], t, start, end)
  }

  /** A handle, and what goes with it. */
  function Tagged(h: nat, x: bytes): bytes { [h % 0x100, h / 0x100 % 0x100] + x }

  /** Handle and type of each. */
  function TypesOf(aa: seq<Attr>): (es: seq<bytes>)
    ensures |es| == |aa| && forall i :: 0 <= i < |aa| ==> es[i] == Tagged(aa[i].h, aa[i].typ)
  {
    seq(|aa|, i requires 0 <= i < |aa| => Tagged(aa[i].h, aa[i].typ))
  }

  /** Handle and value of each: what is stored, or what the handler writes. */
  function ValuesOf(aa: seq<Attr>, cap: nat, env: Env): (es: seq<bytes>)
    ensures |es| == |aa|
    ensures forall i :: 0 <= i < |aa| && aa[i].value.Some? ==> es[i] == Tagged(aa[i].h, aa[i].value.value)
    ensures forall i :: 0 <= i < |aa| && aa[i].value.None? ==>
      es[i] == Tagged(aa[i].h, Collect(cap, env.read(aa[i].h, cap, 0), []))
  {
    seq(|aa|, i requires 0 <= i < |aa| =>
      Tagged(aa[i].h, if aa[i].value.Some? then aa[i].value.value else Collect(cap, env.read(aa[i].h, cap, 0), [])))
  }

  lemma TypesOfHead(a: Attr, more: seq<Attr>)
    ensures TypesOf([a] + more) == [Le16(a.h) + a.typ] + TypesOf(more)
  {}

  lemma ValuesOfHead(a: Attr, more: seq<Attr>, cap: nat, env: Env)
    ensures ValuesOf([a] + more, cap, env) == [Le16(a.h) + ValueOf(a, cap, 0, env)] + ValuesOf(more, cap, env)
  {}

  lemma {:induction false} TypesSelected(aa: seq<Attr>, start: nat, end: nat)
    ensures Select(Info, Scan(aa, start, end)) == TypesOf(AttrsOf(aa, None, start, end))
  {
    hide TypesOf, Le16;
    if aa == [] {
      NoneTagged();
    } else {
      TypesSelected(aa[1..], start, end);
      var more := AttrsOf(aa[1..], None, start, end);
      if start <= aa[0].h <= end {
        TypesOfHead(aa[0], more);
      } else {
        assert [] + more == more;
      }
    }
  }

  lemma NoneTagged()
    ensures TypesOf([]) == [] && forall cap, env :: ValuesOf([], cap, env) == []
  {}

  lemma {:induction false} ValuesSelected(aa: seq<Attr>, t: bytes, start: nat, end: nat, cap: nat, env: Env)
    ensures Select(Types(t, cap, env), Scan(aa, start, end)) == ValuesOf(AttrsOf(aa, Some(t), start, end), cap, env)
  {
    hide ValuesOf, Le16, ValueOf;
    if aa == [] {
      NoneTagged();
    } else {
      ValuesSelected(aa[1..], t, start, end, cap, env);
      var more := AttrsOf(aa[1..], Some(t), start, end);
      if start <= aa[0].h <= end && t == aa[0].typ {
        ValuesOfHead(aa[0], more, cap, env);
      } else {
        assert [] + more == more;
      }
    }
  }

  /** Find Information over any range and any table: handles and types, in order, as many of
      one size as fit; the format says whether the types have 2 or 16 octets. */
  lemma TypesAreListed(aa: seq<Attr>, start: uint16, end: uint16, mtu: nat, env: Env)
    requires mtu >= 23
    ensures var req := RangeRequest(0x04, start, end, []);
      var ms := AttrsOf(aa, None, start, end);
      && LongEnough(req)
      && Lists(Reply(aa, mtu, env, req), req, TypesOf(ms), [0x05, if ms != [] && |ms[0].typ| == 2 then 1 else 2], mtu)
  {
    hide Scan, Select, ListReply, Lists, AttrsOf;
    var req, ms := RangeRequest(0x04, start, end, []), AttrsOf(aa, None, start, end);
    TypesSelected(aa, start, end);
    RangeParts(0x04, start, end, []);
    assert req[1..3] == Two(start);
    ListsWhatIsSelected(Info, Scan(aa, start, end), req, start, mtu, TypesOf(ms),
                        [0x05, if ms != [] && |ms[0].typ| == 2 then 1 else 2]);
  }

  /** Read By Type over any range, table and type: handles and values likewise. */
  lemma ValuesAreListed(aa: seq<Attr>, t: bytes, start: uint16, end: uint16, mtu: nat, env: Env)
    requires mtu >= 23
    ensures var req := RangeRequest(0x08, start, end, t);
      var es := ValuesOf(AttrsOf(aa, Some(t), start, end), mtu - 1, env);
      && LongEnough(req)
      && Lists(Reply(aa, mtu, env, req), req, es, [0x09, if es == [] then 0 else |es[0]| % 0x100], mtu)
  {
    hide Scan, Select, ListReply, Lists, AttrsOf, ValuesOf;
    var req, es := RangeRequest(0x08, start, end, t), ValuesOf(AttrsOf(aa, Some(t), start, end), mtu - 1, env);
    ValuesSelected(aa, t, start, end, mtu - 1, env);
    RangeParts(0x08, start, end, t);
    assert req[1..3] == Two(start);
    ListsWhatIsSelected(Types(t, mtu - 1, env), Scan(aa, start, end), req, start, mtu, es,
                        [0x09, if es == [] then 0 else |es[0]| % 0x100]);
  }
}
