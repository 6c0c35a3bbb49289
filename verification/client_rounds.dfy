/** What the GATT client should find, and what each round of a discovery loop asks for,
    is answered and takes from the answer. */
module ClientRounds {
  import opened Bytes
  import opened Att
  import opened AttributeTable
  import opened Replies
  import opened ResponseWriters
  import opened Discovery

  // ---------------------------------------------------------- what it finds

  datatype FoundDesc = FoundDesc(uuid: bytes, h: nat)

  datatype FoundChar = FoundChar(uuid: bytes, props: byte, h: nat, vh: nat, endh: nat,
                                 descs: seq<FoundDesc>, cccd: Option<FoundDesc>)

  datatype FoundService = FoundService(uuid: bytes, h: nat, endh: nat, chars: seq<FoundChar>)

  /** The other end of the link: its MTU, and its answer to a request under an MTU. */
  datatype Peer = Peer(mtu: nat, answer: (nat, bytes) -> Option<bytes>)

  /** The peer is a server with table `aa`. */
  ghost predicate Serves(peer: Peer, aa: seq<Attr>, env: Env)
  {
    && DEFAULT_MTU <= peer.mtu <= MAX_MTU
    && forall m, b :: DEFAULT_MTU <= m <= MAX_MTU && Answerable(aa, b) ==>
         peer.answer(m, b) == Reply(aa, m, env, b)
  }

  // ------------------------------------------ what it should find, by source

  function BareService(s: Service): FoundService { FoundService(s.uuid, s.h, s.endh, []) }

  /** What is known once the services `ss` have been listed too. */
  function WithServices(found: seq<FoundService>, ss: seq<Service>): seq<FoundService>
    decreases |ss|
  {
    if ss == [] then found else WithServices(found + [BareService(ss[0])], ss[1..])
  }

  lemma {:induction false} WithServicesConcat(found: seq<FoundService>, a: seq<Service>, b: seq<Service>)
    ensures WithServices(found, a + b) == WithServices(WithServices(found, a), b)
    decreases |a|
  {
    if a == [] {
      assert a + b == b;
    } else {
      WithServicesConcat(found + [BareService(a[0])], a[1..], b);
      assert (a + b)[1..] == a[1..] + b;
    }
  }

  /** The services come after what was known, in order. */
  lemma {:induction false} WithServicesAt(found: seq<FoundService>, ss: seq<Service>, i: nat)
    requires i < |found| + |ss|
    ensures |WithServices(found, ss)| == |found| + |ss|
    ensures WithServices(found, ss)[i] == if i < |found| then found[i] else BareService(ss[i - |found|])
    decreases |ss|
  {
    if ss != [] {
      WithServicesAt(found + [BareService(ss[0])], ss[1..], i);
    }
  }

  function NewChar(c: Characteristic): FoundChar
  {
    FoundChar(c.uuid, Low(c.props), c.h, c.vh, 0, [], None)
  }

  function CloseLast(cs: seq<FoundChar>, end: nat): (r: seq<FoundChar>)
    ensures |r| == |cs|
  {
    if cs == [] then [] else cs[|cs| - 1 := cs[|cs| - 1].(endh := end)]
  }

  /** A characteristic ends where the next one starts. */
  function TakeChar(cs: seq<FoundChar>, c: Characteristic): seq<FoundChar>
  {
    CloseLast(cs, Before(c.h)) + [NewChar(c)]
  }

  /** `h - 1` on 16 bits. */
  function Before(h: nat): nat { (h + 0xFFFF) % 0x10000 }

  function WithChars(cs: seq<FoundChar>, todo: seq<Characteristic>): seq<FoundChar>
    decreases |todo|
  {
    if todo == [] then cs else WithChars(TakeChar(cs, todo[0]), todo[1..])
  }

  lemma {:induction false} WithCharsConcat(cs: seq<FoundChar>, a: seq<Characteristic>, b: seq<Characteristic>)
    ensures WithChars(cs, a + b) == WithChars(WithChars(cs, a), b)
    decreases |a|
  {
    if a == [] {
      assert a + b == b;
    } else {
      assert (a + b)[1..] == a[1..] + b;
      WithCharsConcat(TakeChar(cs, a[0]), a[1..], b);
    }
  }

  /** The characteristics known of service `s` once they have all been asked for: those
      known before stay, and the last of two or more ends with the service. */
  function ListedAgain(base: seq<FoundChar>, s: Service): seq<FoundChar>
  {
    var cs := base + WithChars([], s.chars);
    if |cs| > 1 then CloseLast(cs, s.endh) else cs
  }

  /** The characteristics a new client ends up with for service `s`. */
  function FoundChars(s: Service): seq<FoundChar>
  {
    ListedAgain([], s)
  }

  /** Asking again for a service whose characteristics are known lists them again behind
      those known, of which at most the end of the last range changes. */
  lemma ListedAgainAt(base: seq<FoundChar>, s: Service, j: nat)
    requires ServiceServed(s) && j < |base| + |s.chars|
    ensures var cs := ListedAgain(base, s);
      && |cs| == |base| + |s.chars|
      && (j < |base| ==> cs[j] == if j + 1 == |cs| > 1 then base[j].(endh := s.endh) else base[j])
      && (|base| <= j ==> cs[j] == NewChar(s.chars[j - |base|]).(
            endh := if |cs| == 1 then 0 else CharEnd(s, j - |base|)))
  {
    hide WithChars, CharLaid, CharOk, IsUuid;
    var n := |s.chars|;
    if n == 0 {
      NoMoreChars([]);
    } else {
      WithCharsAt([], s.chars, if |base| <= j then j - |base| else 0);
    }
  }

  lemma {:induction false} WithCharsAt(cs: seq<FoundChar>, todo: seq<Characteristic>, i: nat)
    requires i < |cs| + |todo|
    ensures var r := WithChars(cs, todo);
      var at := if i < |cs| then cs[i] else NewChar(todo[i - |cs|]);
      && |r| == |cs| + |todo|
      && r[i] == if |cs| <= i + 1 < |r| then at.(endh := Before(todo[i + 1 - |cs|].h)) else at
    decreases |todo|
  {
    if todo != [] {
      WithCharsAt(TakeChar(cs, todo[0]), todo[1..], i);
    }
  }

  /** One by one: uuid, properties, handles, and the end of the range. A lone
      characteristic keeps the end 0 until its descriptors are asked for. */
  lemma FoundCharsAt(s: Service, j: nat)
    requires ServiceServed(s) && j < |s.chars|
    ensures |FoundChars(s)| == |s.chars|
    ensures FoundChars(s)[j] == NewChar(s.chars[j]).(endh := if |s.chars| == 1 then 0 else CharEnd(s, j))
  {
    ListedAgainAt([], s, j);
  }

  function NewDesc(d: Descriptor): FoundDesc { FoundDesc(d.uuid, d.h) }

  /** Descriptors accumulate; the last CCC descriptor is remembered. */
  function TakeDesc(c: FoundChar, d: Descriptor): FoundChar
  {
    c.(descs := c.descs + [NewDesc(d)], cccd := if d.uuid == CLIENT_CONFIG then Some(NewDesc(d)) else c.cccd)
  }

  function WithDescs(c: FoundChar, ds: seq<Descriptor>): FoundChar
    decreases |ds|
  {
    if ds == [] then c else WithDescs(TakeDesc(c, ds[0]), ds[1..])
  }

  lemma {:induction false} WithDescsConcat(c: FoundChar, a: seq<Descriptor>, b: seq<Descriptor>)
    ensures WithDescs(c, a + b) == WithDescs(WithDescs(c, a), b)
    decreases |a|
  {
    if a == [] {
      assert a + b == b;
    } else {
      assert (a + b)[1..] == a[1..] + b;
      WithDescsConcat(TakeDesc(c, a[0]), a[1..], b);
    }
  }

  /** The last CCC descriptor among `ds`. */
  function LastCcc(ds: seq<Descriptor>): (r: Option<Descriptor>)
    ensures r.None? <==> forall x :: 0 <= x < |ds| ==> ds[x].uuid != CLIENT_CONFIG
  {
    if ds == [] then None
    else
      var r := LastCcc(ds[1..]);
      assert forall x :: 0 < x < |ds| ==> ds[x] == ds[1..][x - 1];
      if r.Some? then r else if ds[0].uuid == CLIENT_CONFIG then Some(ds[0]) else None
  }

  lemma {:induction false} LastCccIsLast(ds: seq<Descriptor>) returns (x: nat)
    requires LastCcc(ds).Some?
    ensures x < |ds| && LastCcc(ds) == Some(ds[x]) && ds[x].uuid == CLIENT_CONFIG
    ensures forall y :: x < y < |ds| ==> ds[y].uuid != CLIENT_CONFIG
  {
    x := 0;
    if LastCcc(ds[1..]).Some? {
      x := LastCccIsLast(ds[1..]);
      x := x + 1;
    }
    assert forall y :: 0 < y < |ds| ==> ds[y] == ds[1..][y - 1];
  }

  /** Only `descs` and `cccd` change: every descriptor is there, in order, and the last CCC
      descriptor is remembered. */
  lemma {:induction false} WithDescsAt(c: FoundChar, ds: seq<Descriptor>)
    ensures var r := WithDescs(c, ds);
      && r.(descs := c.descs, cccd := c.cccd) == c && |r.descs| == |c.descs| + |ds|
      && (forall i :: 0 <= i < |c.descs| ==> r.descs[i] == c.descs[i])
      && (forall i :: 0 <= i < |ds| ==> r.descs[|c.descs| + i] == NewDesc(ds[i]))
      && r.cccd == if LastCcc(ds).Some? then Some(NewDesc(LastCcc(ds).value)) else c.cccd
    decreases |ds|
  {
    if ds != [] {
      WithDescsAt(TakeDesc(c, ds[0]), ds[1..]);
      forall i | 0 <= i < |ds| ensures WithDescs(c, ds).descs[|c.descs| + i] == NewDesc(ds[i]) {
        if i > 0 {
          assert ds[1..][i - 1] == ds[i];
        }
      }
    } else {
      assert LastCcc(ds).None?;
    }
  }

  // ---------------------------------------------------------- request order

  /** Range requests with sensible bounds whose starts strictly increase and stay below `bound`. */
  ghost predicate Ascending(reqs: seq<bytes>, bound: nat)
  {
    reqs == [] ||
    var last := reqs[|reqs| - 1];
    && |last| >= 5 && Word(last[1..]) <= Word(last[3..]) + 1 && Word(last[1..]) < bound
    && Ascending(reqs[..|reqs| - 1], Word(last[1..]))
  }

  function RangeReq(op: byte, start: nat, end: nat, t: bytes): bytes
  {
    [op] + Le16(start) + Le16(end) + t
  }

  lemma RangeReqParts(op: byte, start: uint16, end: uint16, t: bytes)
    ensures var b := RangeReq(op, start, end, t);
      && |b| == 5 + |t| && b[0] == op && Word(b[1..]) == start && Word(b[3..]) == end && b[5..] == t
      && Word(b[1..][2..]) == end && b[1..][4..] == t
  {
    WordOfLe16(start);
    WordOfLe16(end);
    var b := RangeReq(op, start, end, t);
    assert b[1..] == Le16(start) + Le16(end) + t && b[1..][2..] == b[3..] == Le16(end) + t;
    assert b[1..][4..] == t;
  }

  lemma AscendingNext(reqs: seq<bytes>, op: byte, start: uint16, end: uint16, t: bytes, next: nat)
    requires Ascending(reqs, start) && start <= end + 1 && start < next
    ensures Ascending(reqs + [RangeReq(op, start, end, t)], next)
  {
    RangeReqParts(op, start, end, t);
    var r := reqs + [RangeReq(op, start, end, t)];
    assert r[..|r| - 1] == reqs && r[|r| - 1] == RangeReq(op, start, end, t);
  }

  lemma AscendingUp(reqs: seq<bytes>, bound: nat)
    requires Ascending(reqs, bound) && bound <= 0x10000
    ensures Ascending(reqs, 0x10000)
  {}

  /** Read as pairs: an earlier request starts strictly before a later one. */
  lemma {:induction false} AscendingPairs(reqs: seq<bytes>, bound: nat, i: nat, j: nat)
    requires Ascending(reqs, bound) && i < j < |reqs|
    ensures |reqs[i]| >= 5 && |reqs[j]| >= 5 && Word(reqs[i][1..]) < Word(reqs[j][1..])
    ensures Word(reqs[i][1..]) <= Word(reqs[i][3..]) + 1
    decreases |reqs|
  {
    var last := |reqs| - 1;
    if j < last {
      AscendingPairs(reqs[..last], Word(reqs[last][1..]), i, j);
    } else {
      AscendingBelow(reqs[..last], Word(reqs[last][1..]), i);
    }
  }

  lemma {:induction false} AscendingBelow(reqs: seq<bytes>, bound: nat, i: nat)
    requires Ascending(reqs, bound) && i < |reqs|
    ensures |reqs[i]| >= 5 && Word(reqs[i][1..]) < bound && Word(reqs[i][1..]) <= Word(reqs[i][3..]) + 1
    decreases |reqs|
  {
    var last := |reqs| - 1;
    if i < last {
      AscendingBelow(reqs[..last], Word(reqs[last][1..]), i);
    }
  }

  /** Whether a reply ends a discovery loop, and the error it carries (0 for none). */
  function Finish(op: byte, h: nat, b: bytes): (r: (bool, byte))
    requires |b| >= 1 && (b[0] == ERROR ==> |b| >= 5)
  {
    (b[0] == ERROR && b[1] == op && b[2] == Low(h) && b[3] == High(h),
     if b[0] == ERROR && b[4] != ATTR_NOT_FOUND then b[4] else 0)
  }

  /** An error ends a loop when it names the request and its handle; any error but 0x0A is
      reported. */
  lemma FinishOctets(op: byte, h: uint16, b: bytes)
    requires |b| >= 5
    ensures Finish(op, h, b).0 <==> b[..4] == [0x01, op, h % 0x100, h / 0x100]
    ensures Finish(op, h, b).1 == if b[0] == 0x01 && b[4] != 0x0A then b[4] else 0
  {
    assert b[..4] == [b[0], b[1], b[2], b[3]];
  }

  /** The peer serves the value `v` at handle `vh`, whole and from every offset. */
  ghost predicate Reads(peer: Peer, vh: nat, v: bytes)
  {
    && DEFAULT_MTU <= peer.mtu && |v| <= 0xFFFF
    && peer.answer(peer.mtu, [READ_REQ] + Le16(vh)) == Some([READ_RESP] + v[..Min(|v|, peer.mtu - 1)])
    && forall off :: 0 <= off <= |v| ==>
         peer.answer(peer.mtu, [READ_BLOB_REQ] + Le16(vh) + Le16(off))
         == Some([READ_BLOB_RESP] + v[off..][..Min(|v| - off, peer.mtu - 1)])
  }

  /** The peer refuses to read `vh`. */
  ghost predicate Refuses(peer: Peer, vh: nat, code: byte)
  {
    code != 0 && code != ATTR_NOT_FOUND
    && peer.answer(peer.mtu, [READ_REQ] + Le16(vh)) == Some(ErrorResp(READ_REQ, vh, code))
  }

  lemma ReadsOrRefuses(peer: Peer, vh: nat, v: bytes, code: byte)
    requires Reads(peer, vh, v) || Refuses(peer, vh, code)
    ensures Reads(peer, vh, v) ==> DEFAULT_MTU <= peer.mtu && |v| <= 0xFFFF && !Refuses(peer, vh, code)
    ensures Refuses(peer, vh, code) ==> code != 0
  {
    if Reads(peer, vh, v) {
      assert ([READ_RESP] + v[..Min(|v|, peer.mtu - 1)])[0] == READ_RESP;
    }
  }

  /** A handle that is missing or may not be read is refused, with the error that says so. */
  lemma UnreadableIsRefused(peer: Peer, aa: seq<Attr>, env: Env, vh: uint16)
    requires Serves(peer, aa, env)
    requires forall a :: a in aa && a.h == vh ==> Find(aa, vh) == Some(a)
    requires Find(aa, vh).None? || !Has(Find(aa, vh).value.props, CHAR_READ)
    ensures Refuses(peer, vh, if Find(aa, vh).None? then INVALID_HANDLE else READ_NOT_PERM)
  {
    var req := [READ_REQ] + Le16(vh);
    WordOfLe16(vh);
    assert req[1..] == Le16(vh) && Answerable(aa, req);
  }

  /** One blob read continues where the last one stopped. */
  lemma BlobStep(peer: Peer, vh: nat, v: bytes, off: nat) returns (w: bytes)
    requires Reads(peer, vh, v) && off <= |v|
    ensures var b := [READ_BLOB_REQ] + Le16(vh) + Le16(off);
      && NextMtu(peer.mtu, b) == peer.mtu
      && peer.answer(peer.mtu, b) == Some([READ_BLOB_RESP] + w)
    ensures |w| == Min(|v| - off, peer.mtu - 1) && ([READ_BLOB_RESP] + w)[1..] == w
    ensures Finish(READ_BLOB_REQ, vh, [READ_BLOB_RESP] + w) == (false, 0)
    ensures v[..off] + w == v[..off + |w|] && off + |w| <= 0xFFFF
  {
    w := v[off..][..Min(|v| - off, peer.mtu - 1)];
  }

  lemma MtuRequest(wish: uint16, peer: Peer, aa: seq<Attr>, env: Env)
    requires Serves(peer, aa, env)
    ensures var b := [MTU_REQ] + Le16(wish);
      && b[0] == MTU_REQ && peer.answer(peer.mtu, b) == Some([MTU_RESP] + Le16(Clamp(wish)))
      && NextMtu(peer.mtu, b) == Clamp(wish)
    ensures Word(([MTU_RESP] + Le16(Clamp(wish)))[1..3]) == Clamp(wish)
  {
    var b := [MTU_REQ] + Le16(wish);
    assert b[1..] == Le16(wish) && Answerable(aa, b);
    assert ([MTU_RESP] + Le16(Clamp(wish)))[1..3] == Le16(Clamp(wish));
  }

  /** A read handler that serves `v`: at each offset it writes what fits of the rest. */
  ghost predicate HandlerServes(a: Attr, v: bytes, cap: nat, env: Env)
  {
    a.value.None? && a.hasRead &&
    forall off :: 0 <= off <= |v| ==> Collect(cap, env.read(a.h, cap, off), []) == v[off..][..Min(|v| - off, cap)]
  }

  /** A readable attribute with a static value, or with such a handler, is read whole. */
  lemma ValueReads(peer: Peer, aa: seq<Attr>, env: Env, vh: uint16, a: Attr, v: bytes)
    requires Serves(peer, aa, env) && Find(aa, vh) == Some(a) && Has(a.props, CHAR_READ) && |v| <= 0xFFFF
    requires forall x, y :: x in aa && y in aa && x.h == y.h ==> x == y
    requires a.value == Some(v) || HandlerServes(a, v, peer.mtu - 1, env)
    ensures Reads(peer, vh, v)
  {
    FindFirst(aa, vh);
    PlainRead(peer, aa, env, vh, a, v);
    forall off | 0 <= off <= |v|
      ensures peer.answer(peer.mtu, [READ_BLOB_REQ] + Le16(vh) + Le16(off))
              == Some([READ_BLOB_RESP] + v[off..][..Min(|v| - off, peer.mtu - 1)])
    {
      BlobReads(peer, aa, env, vh, a, v, off);
    }
  }

  lemma PlainRead(peer: Peer, aa: seq<Attr>, env: Env, vh: uint16, a: Attr, v: bytes)
    requires Serves(peer, aa, env) && Find(aa, vh) == Some(a) && Has(a.props, CHAR_READ)
    requires forall x :: x in aa && x.h == vh ==> x == a
    requires a.value == Some(v) || HandlerServes(a, v, peer.mtu - 1, env)
    ensures peer.answer(peer.mtu, [READ_REQ] + Le16(vh)) == Some([READ_RESP] + v[..Min(|v|, peer.mtu - 1)])
  {
    var req := [READ_REQ] + Le16(vh);
    WordOfLe16(vh);
    assert req[1..] == Le16(vh) && Answerable(aa, req);
    assert v[0..] == v;
    var w := v[..Min(|v|, peer.mtu - 1)];
    assert a.value.None? ==> w[..|w|] == w;
  }

  lemma BlobReads(peer: Peer, aa: seq<Attr>, env: Env, vh: uint16, a: Attr, v: bytes, off: uint16)
    requires Serves(peer, aa, env) && Find(aa, vh) == Some(a) && Has(a.props, CHAR_READ) && off <= |v|
    requires forall x :: x in aa && x.h == vh ==> x == a
    requires a.value == Some(v) || HandlerServes(a, v, peer.mtu - 1, env)
    ensures peer.answer(peer.mtu, [READ_BLOB_REQ] + Le16(vh) + Le16(off))
            == Some([READ_BLOB_RESP] + v[off..][..Min(|v| - off, peer.mtu - 1)])
  {
    hide ListReply, WriteReply, ReadReply, ReachesWriteHandler, Backwards, Clamp;
    var req := [READ_BLOB_REQ] + Le16(vh) + Le16(off);
    assert req[1..] == Le16(vh) + Le16(off) && req[1..][2..] == Le16(off);
    WordOfLe16(vh);
    WordOfLe16(off);
    assert Answerable(aa, req);
    var w := v[off..][..Min(|v| - off, peer.mtu - 1)];
    assert a.value.None? ==> w[0..] == w && w[..|w|] == w;
  }

  lemma {:induction false} ServiceIn(p: seq<Service>, t: nat, k: nat, a: Attr)
    requires k < t <= |p| && a in ServiceAttrs(p[k])
    ensures a in TableAttrs(p, t)
  {
    hide ServiceAttrs;
    if k < t - 1 {
      ServiceIn(p, t - 1, k, a);
    }
  }

  /** Every readable row of a generated table, with a value or a handler, is read whole by its handle. */
  lemma RowIsRead(db: seq<Service>, k: nat, a: Attr, v: bytes, peer: Peer, env: Env)
    requires Publishable(db) && Serves(peer, TableAttrs(Place(db, 1), |db|), env)
    requires k < |db| && a in ServiceAttrs(Place(db, 1)[k]) && Has(a.props, CHAR_READ) && |v| <= 0xFFFF
    requires a.value == Some(v) || HandlerServes(a, v, peer.mtu - 1, env)
    ensures Reads(peer, a.h, v)
  {
    hide Place, TableAttrs, ServiceAttrs, Serves, Reads, Find, Publishable, HandlerServes;
    var aa := TableAttrs(Place(db, 1), |db|);
    GeneratedIndexed(db, 1);
    RowByHandle(db, k, a);
    PlacedIsServed(db);
    RowHandle(Place(db, 1), k, a);
    ValueReads(peer, aa, env, a.h, a, v);
  }

  lemma RowHandle(p: seq<Service>, k: nat, a: Attr)
    requires Served(p) && k < |p| && a in ServiceAttrs(p[k])
    ensures a.h <= 0xFFFF
  {
    ServiceRows(p[k]);
    var x :| 0 <= x < |ServiceAttrs(p[k])| && ServiceAttrs(p[k])[x] == a;
    assert ServiceRow(ServiceAttrs(p[k])[x], p[k].h, p[k].endh);
  }

  /** A service's declaration reads as its UUID. */
  lemma {:induction false} ServiceDeclarationIsRead(db: seq<Service>, k: nat, peer: Peer, env: Env)
    requires Publishable(db) && Serves(peer, TableAttrs(Place(db, 1), |db|), env) && k < |db|
    ensures Reads(peer, Place(db, 1)[k].h, db[k].uuid)
  {
    hide Serves, Reads, Place, TableAttrs;
    PlaceAt(db, 1, k);
    var s := Place(db, 1)[k];
    assert ServiceAttrs(s)[0] == ServiceAttr(s);
    assert ServiceOk(db[k]);
    RowIsRead(db, k, ServiceAttr(s), db[k].uuid, peer, env);
  }

  /** A readable characteristic's declaration reads as its properties, value handle and UUID. */
  lemma CharDeclarationIsRead(db: seq<Service>, k: nat, j: nat, peer: Peer, env: Env)
    requires Publishable(db) && Serves(peer, TableAttrs(Place(db, 1), |db|), env)
    requires k < |db| && j < |Place(db, 1)[k].chars| && Has(Place(db, 1)[k].chars[j].props, CHAR_READ)
    ensures var c := Place(db, 1)[k].chars[j];
      Reads(peer, c.h, [c.props % 0x100, c.vh % 0x100, c.vh / 0x100 % 0x100] + c.uuid)
  {
    hide Serves, Reads, Place, TableAttrs, Publishable;
    var c := Place(db, 1)[k].chars[j];
    assert CharAttrs(c)[0] == CharAttr(c);
    CharRowIn(db, k, j, CharAttr(c));
    PlacedIsServed(db);
    CharHandles(Place(db, 1), k, j);
    RowIsRead(db, k, CharAttr(c), CharAttr(c).value.value, peer, env);
  }

  /** Every readable characteristic with a static value, or with a handler that serves `v`,
      can be read whole by its value handle. */
  lemma CharValueIsRead(db: seq<Service>, k: nat, j: nat, v: bytes, peer: Peer, env: Env)
    requires Publishable(db) && Serves(peer, TableAttrs(Place(db, 1), |db|), env)
    requires k < |db| && j < |Place(db, 1)[k].chars|
    requires var c := Place(db, 1)[k].chars[j];
      && Has(c.props, CHAR_READ) && |v| <= 0xFFFF
      && (c.value == Some(v) || (c.value.None? && c.hasRead && HandlerServes(ValueAttr(c), v, peer.mtu - 1, env)))
    ensures Reads(peer, Place(db, 1)[k].chars[j].vh, v)
  {
    hide Place, TableAttrs, Serves, Reads, Publishable, HandlerServes;
    var c := Place(db, 1)[k].chars[j];
    assert CharAttrs(c)[1] == ValueAttr(c);
    CharRowIn(db, k, j, ValueAttr(c));
    RowIsRead(db, k, ValueAttr(c), v, peer, env);
  }

  /** A readable descriptor reads as its string if it has one, else as its value. */
  lemma DescriptorIsRead(db: seq<Service>, k: nat, j: nat, i: nat, v: bytes, peer: Peer, env: Env)
    requires Publishable(db) && Serves(peer, TableAttrs(Place(db, 1), |db|), env)
    requires k < |db| && j < |Place(db, 1)[k].chars| && i < |Place(db, 1)[k].chars[j].descs|
    requires var d := Place(db, 1)[k].chars[j].descs[i];
      && Has(d.props, CHAR_READ) && |v| <= 0xFFFF
      && (if |d.valueStr| > 0 then v == d.valueStr else d.value == Some(v))
    ensures Reads(peer, Place(db, 1)[k].chars[j].descs[i].h, v)
  {
    hide Place, TableAttrs, Serves, Reads, Publishable, CharAttrs;
    var c := Place(db, 1)[k].chars[j];
    DescIn(c.descs, |c.descs|, c.vh, i);
    DescRow(c, DescAttr(c.descs[i], c.vh));
    CharRowIn(db, k, j, DescAttr(c.descs[i], c.vh));
    RowIsRead(db, k, DescAttr(c.descs[i], c.vh), v, peer, env);
  }

  lemma DescRow(c: Characteristic, a: Attr)
    requires a in DescAttrs(c.descs, |c.descs|, c.vh)
    ensures a in CharAttrs(c)
  {}

  lemma CharRowIn(db: seq<Service>, k: nat, j: nat, a: Attr)
    requires k < |db| && j < |Place(db, 1)[k].chars| && a in CharAttrs(Place(db, 1)[k].chars[j])
    ensures a in ServiceAttrs(Place(db, 1)[k])
  {
    hide CharAttrs;
    var s := Place(db, 1)[k];
    InChars(s.chars, |s.chars|, j, a);
  }

  lemma CharHandles(p: seq<Service>, k: nat, j: nat)
    requires Served(p) && k < |p| && j < |p[k].chars|
    ensures p[k].chars[j].h < p[k].chars[j].vh <= 0xFFFF && p[k].chars[j].uuid != CLIENT_CONFIG
  {
    assert ServiceServed(p[k]) && CharLaid(p[k].chars[j]) && CharOk(p[k].chars[j]);
  }

  // ------------------------------------- writes to what discovery has found

  lemma {:induction false} DescIn(ds: seq<Descriptor>, t: nat, vh: nat, i: nat)
    requires i < t <= |ds|
    ensures DescAttr(ds[i], vh) in DescAttrs(ds, t, vh)
  {
    if i < t - 1 {
      DescIn(ds, t - 1, vh, i);
    }
  }

  lemma {:induction false} InChars(cs: seq<Characteristic>, t: nat, j: nat, a: Attr)
    requires j < t <= |cs| && a in CharAttrs(cs[j])
    ensures a in CharsAttrs(cs, t)
  {
    hide CharAttrs;
    if j < t - 1 {
      InChars(cs, t - 1, j, a);
    }
  }

  /** The table of a placed database holds each attribute under its own handle. */
  lemma RowByHandle(db: seq<Service>, k: nat, a: Attr)
    requires k < |db| && a in ServiceAttrs(Place(db, 1)[k])
    ensures Find(TableAttrs(Place(db, 1), |db|), a.h) == Some(a)
  {
    hide Place, TableAttrs, ServiceAttrs, Find;
    var p := Place(db, 1);
    var aa := TableAttrs(p, |db|);
    GeneratedIndexed(db, 1);
    ServiceIn(p, |p|, k, a);
    FindIsAt(aa, 1, a.h);
    AtFindsExactly(AttrRange(aa, 1), a.h, a);
  }

  lemma FoundByHandle(db: seq<Service>, k: nat, j: nat, a: Attr)
    requires k < |db| && j < |Place(db, 1)[k].chars| && a in CharAttrs(Place(db, 1)[k].chars[j])
    ensures Find(TableAttrs(Place(db, 1), |db|), a.h) == Some(a)
  {
    CharRowIn(db, k, j, a);
    RowByHandle(db, k, a);
  }

  lemma WriteRequestParts(op: byte, h: uint16, value: bytes)
    ensures var req := [op] + Le16(h) + value;
      && |req| >= 3 && req[0] == op && Word(req[1..]) == h && req[1..][2..] == value && req[3..] == value
  {
    WordOfLe16(h);
    var req := [op] + Le16(h) + value;
    assert req[1..] == Le16(h) + value;
  }

  /** Property bit 3 is for writes, bit 2 for Write Commands. */
  predicate MayWrite(op: byte, props: nat) { props / (if op == 0x52 then 4 else 8) % 2 == 1 }

  predicate IsWrite(op: byte) { op == WRITE_REQ || op == WRITE_CMD }

  /** A write is answered from the attribute under its handle. */
  lemma WriteAnswer(aa: seq<Attr>, op: byte, h: uint16, a: Attr, value: bytes, mtu: nat, env: Env)
    requires IsWrite(op) && mtu >= DEFAULT_MTU && Find(aa, h) == Some(a) && forall x :: x in aa && x.h == h ==> x == a
    requires ReachesWriteHandler(op, a) ==> a.hasWrite
    ensures var req := [op] + Le16(h) + value;
      && Answerable(aa, req) && Reply(aa, mtu, env, req) == WriteReply(op, Some(a), h, value, env)
      && ChangeOf(aa, req) == WriteChange(op, Some(a), value)
  {
    hide Find, WriteReply, WriteChange;
    WriteRequestParts(op, h, value);
    var req := [op] + Le16(h) + value;
    assert Answerable(aa, req);
  }

  /** What a client hears of a write its server's handler has seen. */
  function Heard(op: byte, h: nat, status: byte): Option<bytes>
  {
    if op == WRITE_CMD then None
    else if status == 0 then Some([WRITE_RESP])
    else Some(ErrorResp(op, h, status))
  }

  /** Writing to a value handle runs that characteristic's handler, whose status decides. */
  lemma ValueWriteIsHandled(db: seq<Service>, k: nat, j: nat, op: byte, value: bytes, mtu: nat, env: Env)
    requires Publishable(db) && IsWrite(op) && mtu >= DEFAULT_MTU && k < |db| && j < |Place(db, 1)[k].chars|
    requires var c := Place(db, 1)[k].chars[j];
      MayWrite(op, c.props) && c.hasWrite
    ensures var aa, c := TableAttrs(Place(db, 1), |db|), Place(db, 1)[k].chars[j];
      var req := [op] + Le16(c.vh) + value;
      && Answerable(aa, req) && Reply(aa, mtu, env, req) == Heard(op, c.vh, env.write(c.h, value))
      && ChangeOf(aa, req) == NoChange
  {
    var aa, c := TableAttrs(Place(db, 1), |db|), Place(db, 1)[k].chars[j];
    hide Place, TableAttrs, Find, Publishable, Reply, Answerable, ChangeOf, Served;
    assert CharAttrs(c)[1] == ValueAttr(c);
    FoundByHandle(db, k, j, ValueAttr(c));
    PlacedIsServed(db);
    CharHandles(Place(db, 1), k, j);
    OnlyHandle(aa, c.vh, ValueAttr(c), db);
    WriteAnswer(aa, op, c.vh, ValueAttr(c), value, mtu, env);
  }

  /** A declaration is not read only: a write to its handle runs the handler of the value
      exactly when the characteristic is writable, and otherwise is refused. */
  lemma DeclarationWriteReachesHandler(db: seq<Service>, k: nat, j: nat, op: byte, value: bytes, mtu: nat, env: Env)
    requires Publishable(db) && IsWrite(op) && mtu >= DEFAULT_MTU && k < |db| && j < |Place(db, 1)[k].chars|
    requires var c := Place(db, 1)[k].chars[j];
      MayWrite(op, c.props) ==> c.hasWrite
    ensures var aa, c := TableAttrs(Place(db, 1), |db|), Place(db, 1)[k].chars[j];
      var req := [op] + Le16(c.h) + value;
      && Answerable(aa, req) && ChangeOf(aa, req) == NoChange
      && Find(aa, c.h) == Some(CharAttr(c)) && (ReachesWriteHandler(op, CharAttr(c)) <==> MayWrite(op, c.props))
      && Reply(aa, mtu, env, req) == if MayWrite(op, c.props) then Heard(op, c.h, env.write(c.h, value))
                                     else Some(ErrorResp(op, c.h, WRITE_NOT_PERM))
  {
    var aa, c := TableAttrs(Place(db, 1), |db|), Place(db, 1)[k].chars[j];
    hide Place, TableAttrs, Find, Publishable, Reply, Answerable, ChangeOf, Served;
    assert CharAttrs(c)[0] == CharAttr(c);
    assert CHARACTERISTIC != CLIENT_CONFIG by { assert CHARACTERISTIC[0] != CLIENT_CONFIG[0]; }
    FoundByHandle(db, k, j, CharAttr(c));
    PlacedIsServed(db);
    CharHandles(Place(db, 1), k, j);
    OnlyHandle(aa, c.h, CharAttr(c), db);
    WriteAnswer(aa, op, c.h, CharAttr(c), value, mtu, env);
  }

  /** A descriptor's write handler never runs: under any handlers, a write to an ordinary
      writable descriptor is reported as a success and changes nothing. */
  lemma DescriptorWriteIsIgnored(db: seq<Service>, k: nat, j: nat, i: nat, op: byte, value: bytes, mtu: nat, env: Env)
    requires Publishable(db) && IsWrite(op) && mtu >= DEFAULT_MTU && k < |db| && j < |Place(db, 1)[k].chars|
    requires i < |Place(db, 1)[k].chars[j].descs|
    requires var c := Place(db, 1)[k].chars[j];
      c.descs[i].uuid != CLIENT_CONFIG && MayWrite(op, c.descs[i].props)
    ensures var aa, c := TableAttrs(Place(db, 1), |db|), Place(db, 1)[k].chars[j];
      var req := [op] + Le16(c.descs[i].h) + value;
      && Answerable(aa, req) && Reply(aa, mtu, env, req) == Heard(op, c.descs[i].h, 0)
      && ChangeOf(aa, req) == NoChange
      && Find(aa, c.descs[i].h) == Some(DescAttr(c.descs[i], c.vh))
      && !ReachesWriteHandler(op, DescAttr(c.descs[i], c.vh))
  {
    hide Place, TableAttrs, Find, Publishable, Reply, Answerable, ChangeOf, Served;
    var c := Place(db, 1)[k].chars[j];
    DescWrite(db, k, j, i, op, value, mtu, env);
    assert WriteReply(op, Some(DescAttr(c.descs[i], c.vh)), c.descs[i].h, value, env) == Heard(op, c.descs[i].h, 0);
  }

  lemma DescWrite(db: seq<Service>, k: nat, j: nat, i: nat, op: byte, value: bytes, mtu: nat, env: Env)
    requires Publishable(db) && IsWrite(op) && mtu >= DEFAULT_MTU && k < |db| && j < |Place(db, 1)[k].chars|
    requires i < |Place(db, 1)[k].chars[j].descs|
    ensures var aa, c := TableAttrs(Place(db, 1), |db|), Place(db, 1)[k].chars[j];
      var a := DescAttr(c.descs[i], c.vh);
      var req := [op] + Le16(a.h) + value;
      && Find(aa, a.h) == Some(a) && Answerable(aa, req)
      && Reply(aa, mtu, env, req) == WriteReply(op, Some(a), a.h, value, env)
      && ChangeOf(aa, req) == WriteChange(op, Some(a), value)
  {
    var aa, c := TableAttrs(Place(db, 1), |db|), Place(db, 1)[k].chars[j];
    var a := DescAttr(c.descs[i], c.vh);
    hide Place, TableAttrs, Find, Publishable, Reply, Answerable, ChangeOf, Served, WriteReply, WriteChange;
    DescIn(c.descs, |c.descs|, c.vh, i);
    FoundByHandle(db, k, j, a);
    PlacedIsServed(db);
    DescHandle(Place(db, 1), k, j, i);
    OnlyHandle(aa, a.h, a, db);
    WriteAnswer(aa, op, a.h, a, value, mtu, env);
  }

  lemma OnlyHandle(aa: seq<Attr>, h: nat, a: Attr, db: seq<Service>)
    requires aa == TableAttrs(Place(db, 1), |db|) && Find(aa, h) == Some(a)
    ensures forall x :: x in aa && x.h == h ==> x == a
  {
    hide Place, TableAttrs, Find;
    GeneratedIndexed(db, 1);
    forall x | x in aa && x.h == h ensures x == a {
      FindIsAt(aa, 1, h);
      AtFindsExactly(AttrRange(aa, 1), h, x);
    }
  }

  /** Writing two bytes to a CCC descriptor subscribes to, or unsubscribes from, the value
      of the characteristic it belongs to; any other length is refused. */
  lemma SubscriptionIsForItsValue(db: seq<Service>, k: nat, j: nat, i: nat, op: byte, value: bytes, mtu: nat, env: Env)
    requires Publishable(db) && IsWrite(op) && mtu >= DEFAULT_MTU && k < |db| && j < |Place(db, 1)[k].chars|
    requires i < |Place(db, 1)[k].chars[j].descs|
    requires var c := Place(db, 1)[k].chars[j];
      c.descs[i].uuid == CLIENT_CONFIG && MayWrite(op, c.descs[i].props)
    ensures var aa, c := TableAttrs(Place(db, 1), |db|), Place(db, 1)[k].chars[j];
      var d := c.descs[i];
      var req := [op] + Le16(d.h) + value;
      && Answerable(aa, req)
      && Reply(aa, mtu, env, req) == (if |value| == 2 then Heard(op, d.h, 0)
                                      else Some(ErrorResp(op, d.h, INVAL_ATTR_VALUE_LEN)))
      && ChangeOf(aa, req) == if |value| != 2 then NoChange
                              else if Word(value) % 4 != 0 then Start(d.h, c.vh) else Stop(d.h)
  {
    hide Place, TableAttrs, Find, Publishable, Reply, Answerable, ChangeOf, Served;
    DescWrite(db, k, j, i, op, value, mtu, env);
  }

  lemma DescHandle(p: seq<Service>, k: nat, j: nat, i: nat)
    requires Served(p) && k < |p| && j < |p[k].chars| && i < |p[k].chars[j].descs|
    ensures p[k].chars[j].descs[i].h <= 0xFFFF
  {
    assert ServiceServed(p[k]) && CharLaid(p[k].chars[j]);
  }

  /** Field by field: what discovery knows of a characteristic. */
  lemma DescribedFields(s: Service, j: nat)
    requires ServiceServed(s) && j < |s.chars|
    ensures var f, c := Described(s, j), s.chars[j];
      && f.uuid == c.uuid && f.props == Low(c.props) && f.h == c.h && f.vh == c.vh && f.endh == CharEnd(s, j)
      && |f.descs| == |c.descs|
      && (forall i :: 0 <= i < |c.descs| ==> f.descs[i] == FoundDesc(c.descs[i].uuid, c.descs[i].h))
      && f.cccd == if LastCcc(c.descs).Some? then Some(NewDesc(LastCcc(c.descs).value)) else None
  {
    WithDescsAt(NewChar(s.chars[j]).(endh := CharEnd(s, j)), s.chars[j].descs);
    var f, c := Described(s, j), s.chars[j];
    forall i | 0 <= i < |c.descs| ensures f.descs[i] == NewDesc(c.descs[i]) {
      assert f.descs[0 + i] == NewDesc(c.descs[i]);
    }
  }

  lemma {:induction false} FindFirst(aa: seq<Attr>, h: nat)
    ensures Find(aa, h).Some? ==> Find(aa, h).value in aa && Find(aa, h).value.h == h
  {
    if aa != [] && aa[0].h != h {
      FindFirst(aa[1..], h);
    }
  }

  /** What the client should hold for characteristic `j` of a service. */
  ghost function Described(s: Service, j: nat): FoundChar
    requires ServiceServed(s) && j < |s.chars|
  {
    WithDescs(NewChar(s.chars[j]).(endh := CharEnd(s, j)), s.chars[j].descs)
  }

  /** A found service is the served one: uuid, range, and every characteristic with
      its properties, handles, range and descriptors, in order. */
  ghost predicate Rebuilt(f: FoundService, s: Service)
  {
    && f.(chars := []) == BareService(s) && |f.chars| == |s.chars| && ServiceServed(s)
    && forall j :: 0 <= j < |s.chars| ==> f.chars[j] == Described(s, j)
  }

  /** Generation keeps what is published and only adds handles: each service starts where the one
      before ends, each characteristic follows the last, its value and descriptors follow it. */
  lemma PlacedContents(db: seq<Service>, k: nat, j: nat)
    requires k < |db| && j < |db[k].chars|
    ensures var s, p := db[k], Place(db, 1)[k];
      && p.uuid == s.uuid && |p.chars| == |s.chars| && p.h == 1 + TableSize(db, k)
      && var c, d := p.chars[j], s.chars[j];
         && c.uuid == d.uuid && c.props == d.props && c.value == d.value && c.hasRead == d.hasRead
         && c.hasWrite == d.hasWrite && c.h == p.h + 1 + CharsSize(s.chars, j) && c.vh == c.h + 1
         && |c.descs| == |d.descs|
         && forall i :: 0 <= i < |d.descs| ==> c.descs[i] == d.descs[i].(h := c.vh + 1 + i)
  {
    PlaceAt(db, 1, k);
    var s, p := db[k], Place(db, 1)[k];
    PlaceCharsAt(s.chars, |s.chars|, p.h + 1, j);
    var d := s.chars[j];
    forall i | 0 <= i < |d.descs| ensures p.chars[j].descs[i] == d.descs[i].(h := p.chars[j].vh + 1 + i) {
      PlaceDescsAt(d.descs, |d.descs|, p.chars[j].h + 2, i);
    }
  }

  /** Sizes in handles: a characteristic takes two and one for each descriptor, a service one
      more than its characteristics. */
  lemma SizesInHandles(db: seq<Service>, cs: seq<Characteristic>)
    ensures TableSize(db, 0) == 0 && CharsSize(cs, 0) == 0
    ensures forall k :: 0 < k <= |db| ==>
      TableSize(db, k) == TableSize(db, k - 1) + 1 + CharsSize(db[k - 1].chars, |db[k - 1].chars|)
    ensures forall j :: 0 < j <= |cs| ==> CharsSize(cs, j) == CharsSize(cs, j - 1) + 2 + |cs[j - 1].descs|
  {}

  /** What discovery finds is what was published. */
  lemma {:induction false} DiscoveredIsPublished(f: FoundService, db: seq<Service>, k: nat)
    requires Publishable(db) && k < |db| && Rebuilt(f, Place(db, 1)[k])
    ensures PublishedService(f, db, k)
  {
    hide Place, ServiceServed, Described, PublishedChar, Publishable;
    PlaceAt(db, 1, k);
    var p := Place(db, 1)[k];
    assert f.endh == p.endh && f.h == p.h;
    forall j | 0 <= j < |f.chars| ensures PublishedChar(f, j, db[k].chars) {
      CharIsPublished(f, db, k, j);
    }
  }

  lemma {:induction false} CharIsPublished(f: FoundService, db: seq<Service>, k: nat, j: nat)
    requires k < |db| && Rebuilt(f, Place(db, 1)[k]) && j < |f.chars| == |db[k].chars|
    ensures PublishedChar(f, j, db[k].chars)
  {
    hide Place, ServiceServed, Described, Publishable, WithDescs, PlaceService, TableSize, LastCcc, NewDesc;
    var p, d := Place(db, 1)[k], db[k].chars[j];
    PlacedContents(db, k, j);
    DescribedFields(p, j);
    SizesInHandles(db, db[k].chars);
    if j + 1 < |f.chars| {
      PlacedContents(db, k, j + 1);
    }
    CccIsPublished(f.chars[j], p.chars[j].descs);
    assert forall i :: 0 <= i < |d.descs| ==> d.descs[i].uuid == p.chars[j].descs[i].uuid;
  }

  /** The CCC descriptor remembered is one of those found; there is none if none is published. */
  lemma {:induction false} CccIsPublished(c: FoundChar, ds: seq<Descriptor>)
    requires |c.descs| == |ds| && forall i :: 0 <= i < |ds| ==> c.descs[i] == FoundDesc(ds[i].uuid, ds[i].h)
    requires c.cccd == if LastCcc(ds).Some? then Some(NewDesc(LastCcc(ds).value)) else None
    ensures c.cccd.Some? ==> c.cccd.value in c.descs && c.cccd.value.uuid == [0x02, 0x29]
    ensures c.cccd.None? ==> forall i :: 0 <= i < |ds| ==> ds[i].uuid != [0x02, 0x29]
  {
    if LastCcc(ds).Some? {
      var x := LastCccIsLast(ds);
      assert c.descs[x] == c.cccd.value;
    }
  }

  /** Found service `f` is published service `k`, under the handles it was given. */
  ghost predicate PublishedService(f: FoundService, db: seq<Service>, k: nat)
    requires k < |db|
  {
    && f.uuid == db[k].uuid && f.h == 1 + TableSize(db, k) && |f.chars| == |db[k].chars|
    && f.endh == (if k + 1 == |db| then 0xFFFF else TableSize(db, k + 1))
    && forall j :: 0 <= j < |f.chars| ==> PublishedChar(f, j, db[k].chars)
  }

  /** Found characteristic `j` is the one published. */
  ghost predicate PublishedChar(f: FoundService, j: nat, cs: seq<Characteristic>)
    requires j < |f.chars|
  {
    && j < |cs|
    && var c, d := f.chars[j], cs[j];
       && c.uuid == d.uuid && c.props == d.props % 0x100 && c.h == f.h + 1 + CharsSize(cs, j) && c.vh == c.h + 1
       && c.endh == (if j + 1 < |cs| then c.vh + |d.descs| else f.endh)
       && |c.descs| == |d.descs|
       && (forall i :: 0 <= i < |d.descs| ==> c.descs[i] == FoundDesc(d.descs[i].uuid, c.vh + 1 + i))
       && (c.cccd.Some? ==> c.cccd.value in c.descs && c.cccd.value.uuid == [0x02, 0x29])
       && (c.cccd.None? ==> forall i :: 0 <= i < |d.descs| ==> d.descs[i].uuid != [0x02, 0x29])
  }

  lemma Itself(found: seq<FoundService>, k: nat, p: seq<Service>)
    requires Matches(found, p) && k < |p|
    ensures Names(found, k, p[k])
  {}

  lemma ListedChars(was: seq<FoundService>, now: seq<FoundService>, k: nat, p: seq<Service>)
    requires Served(p) && Matches(was, p) && k < |p| == |was| && was[k].chars == []
    requires now == AskedFor(was, k, k, p[k])
    ensures |was| == |now| == |p|
    ensures now == InService(was, k, now[k].chars) && Matches(now, p) && ServiceServed(p[k])
    ensures now[k].chars == FoundChars(p[k]) && |FoundChars(p[k])| == |p[k].chars|
  {
    AskedForItself(was, k, p[k]);
    assert now[k].(chars := []) == was[k].(chars := []);
    if p[k].chars != [] {
      FoundCharsAt(p[k], 0);
    }
  }

  lemma CharReady(found: seq<FoundService>, k: nat, j: nat, p: seq<Service>)
    requires Matches(found, p) && k < |found| == |p| && ServiceServed(p[k])
    requires j < |found[k].chars| == |p[k].chars| == |FoundChars(p[k])| && found[k].chars[j] == FoundChars(p[k])[j]
    ensures found[k].chars[j].vh == p[k].chars[j].vh && EndKnown(found[k], j, CharEnd(p[k], j))
    ensures WithDescs(found[k].chars[j].(endh := CharEnd(p[k], j)), p[k].chars[j].descs) == Described(p[k], j)
  {
    FoundCharsAt(p[k], j);
    assert found[k].(chars := []) == BareService(p[k]);
    assert CharLaid(p[k].chars[j]);
  }

  lemma DescribeOne(was: seq<FoundService>, mid: seq<FoundService>, now: seq<FoundService>, k: nat, j: nat,
                    p: seq<Service>)
    requires k < |was| == |mid| == |now| == |p| && j < |mid[k].chars| == |p[k].chars| && ServiceServed(p[k])
    requires mid == InService(was, k, mid[k].chars) && Matches(mid, p)
    requires now == InChar(mid, k, j, Described(p[k], j))
    ensures now == InService(was, k, now[k].chars) && Matches(now, p)
    ensures now[k].chars == mid[k].chars[j := Described(p[k], j)]
  {
    assert now[k].(chars := []) == mid[k].(chars := []);
  }

  lemma ServiceDone(was: seq<FoundService>, now: seq<FoundService>, k: nat, p: seq<Service>)
    requires k < |was| == |now| == |p| && ServiceServed(p[k]) && Matches(now, p)
    requires now == InService(was, k, now[k].chars) && |now[k].chars| == |p[k].chars|
    requires forall i :: 0 <= i < |p[k].chars| ==> now[k].chars[i] == Described(p[k], i)
    ensures now == was[k := now[k]] && Rebuilt(now[k], p[k])
  {}

  lemma AllListed(found: seq<FoundService>, p: seq<Service>)
    requires found == WithServices([], p)
    ensures |found| == |p| && Matches(found, p) && forall i :: 0 <= i < |p| ==> found[i].chars == []
  {
    if p != [] {
      WithServicesAt([], p, 0);
      forall i | 0 <= i < |p| ensures found[i] == BareService(p[i]) {
        WithServicesAt([], p, i);
      }
    }
  }

  /** The end of a range is known, or is still to be taken from the service. */
  predicate EndKnown(s: FoundService, j: nat, end: nat)
    requires j < |s.chars|
  {
    end > 0 && (s.chars[j].endh == end || (s.chars[j].endh == 0 && s.endh == end))
  }

  /** `todo` is what is left of the descriptors of `c` from `start` on. */
  ghost predicate DescsLeft(c: Characteristic, todo: seq<Descriptor>, start: nat)
  {
    |todo| <= |c.descs| && todo == c.descs[|c.descs| - |todo|..] && start == c.h + 2 + (|c.descs| - |todo|)
  }

  lemma DescsStart(found: seq<FoundService>, k: nat, j: nat, s: Service)
    requires ServiceServed(s) && k < |found| && j < |found[k].chars| == |s.chars|
    requires found[k].chars[j].vh == s.chars[j].vh
    ensures InChar(found, k, j, found[k].chars[j]) == found
    ensures var start := found[k].chars[j].vh + 1;
      0 < start <= 0xFFFF && DescsLeft(s.chars[j], s.chars[j].descs, start) && Ascending([], start)
  {
    InCharSelf(found, k, j);
    assert CharLaid(s.chars[j]);
  }

  lemma DescsDone(c: FoundChar)
    ensures WithDescs(c, []) == c
  {}

  lemma {:induction false} WithDescsEnd(c: FoundChar, ds: seq<Descriptor>)
    ensures WithDescs(c, ds).endh == c.endh
    decreases |ds|
  {
    if ds != [] {
      WithDescsEnd(TakeDesc(c, ds[0]), ds[1..]);
    }
  }

  lemma DescsRequest(aa: seq<Attr>, start: nat, end: nat, peer: Peer, env: Env)
    requires Serves(peer, aa, env) && start <= end + 1 && start <= 0xFFFF && end <= 0xFFFF
    ensures peer.answer(peer.mtu, RangeReq(FIND_INFO_REQ, start, end, []))
            == Some(ListReply(Info, Scan(aa, start, end), start, peer.mtu))
  {
    hide ListReply, WriteReply, ReadReply, ReadBlobReply, Scan, Find, Clamp;
    RangeReqParts(FIND_INFO_REQ, start, end, []);
    var req := RangeReq(FIND_INFO_REQ, start, end, []);
    assert Answerable(aa, req);
  }

  lemma DescsRound(p: seq<Service>, k: nat, j: nat, todo: seq<Descriptor>, start: nat, peer: Peer, env: Env)
      returns (ds: seq<Descriptor>, rest: seq<Descriptor>, n: nat, bound: nat)
    requires Served(p) && Serves(peer, TableAttrs(p, |p|), env) && k < |p| && ServiceServed(p[k])
    requires j < |p[k].chars| && DescsLeft(p[k].chars[j], todo, start)
    ensures todo == ds + rest && (ds == [] <==> todo == [])
    ensures var end := CharEnd(p[k], j);
      && DescsAt(peer, start, end, ds, n) && start <= end + 1 <= 0x10000 && start < bound <= 0x10000
      && (ds != [] ==> bound == ds[|ds| - 1].h + 1 <= 0xFFFF && DescsLeft(p[k].chars[j], rest, bound))
      && (ds != [] && bound - 1 == end ==> rest == [])
  {
    hide Served, Serves, TableAttrs, DescsAt;
    var c := p[k].chars[j];
    assert CharLaid(c) && CharOk(c);
    var i, m := |c.descs| - |todo|, 0;
    m, n := DescsAnswer(p, k, j, i, peer, env);
    ds, rest := c.descs[i..i + m], c.descs[i + m..];
    bound := start + if m == 0 then 1 else m;
    if m > 0 {
      assert ds[m - 1] == c.descs[i + m - 1];
    }
  }

  lemma DescsAnswer(p: seq<Service>, k: nat, j: nat, i: nat, peer: Peer, env: Env) returns (m: nat, n: nat)
    requires Served(p) && Serves(peer, TableAttrs(p, |p|), env) && k < |p| && ServiceServed(p[k])
    requires j < |p[k].chars| && i <= |p[k].chars[j].descs|
    ensures var c := p[k].chars[j];
      && i + m <= |c.descs| && (m == 0 <==> i == |c.descs|)
      && DescsAt(peer, c.h + 2 + i, CharEnd(p[k], j), c.descs[i..i + m], n)
  {
    hide TableAttrs, ListReply, Served, Serves, Select, Scan, DescEntries, DescBytes;
    var aa, c, end := TableAttrs(p, |p|), p[k].chars[j], CharEnd(p[k], j);
    assert CharLaid(c) && CharOk(c);
    ServedAt(p, k, peer, env);
    DescsRequest(aa, c.h + 2 + i, end, peer, env);
    DescriptorsSelected(p, k, j, i);
    if i == |c.descs| {
      m, n := 0, 4;
      DescsEnd([]);
      NoEntries(Info, Scan(aa, c.h + 2 + i, end), c.h + 2 + i, peer.mtu);
    } else {
      m, n := DescsReply(aa, c, i, end, peer.mtu);
      assert Header(Info, n) == [FIND_INFO_RESP, if n == 4 then 1 else 2];
      DescsListed(c, i, m, n);
    }
  }

  lemma DescsListed(c: Characteristic, i: nat, m: nat, n: nat)
    requires CharOk(c) && CharLaid(c) && LastOf(c) <= 0xFFFF && i + m <= |c.descs|
    requires var ds := c.descs[i..i + m];
      forall x :: 0 <= x < |ds| ==> |DescEntry(ds[x])| == n
    ensures var ds := c.descs[i..i + m];
      forall x :: 0 <= x < |ds| ==> DescListed(ds[x], n)
  {
    var ds := c.descs[i..i + m];
    forall x | 0 <= x < |ds| ensures DescListed(ds[x], n) {
      assert ds[x] == c.descs[i + x] && DescOk(c.descs[i + x]);
    }
  }

  function InChar(found: seq<FoundService>, k: nat, j: nat, c: FoundChar): (r: seq<FoundService>)
    requires k < |found| && j < |found[k].chars|
    ensures |r| == |found| && |r[k].chars| == |found[k].chars| && r[k].chars[j] == c
  {
    InService(found, k, found[k].chars[j := c])
  }

  predicate DescListed(d: Descriptor, l: nat)
  {
    IsUuid(d.uuid) && d.h <= 0xFFFF && |DescEntry(d)| == l
  }

  lemma DescsEnd(todo: seq<Descriptor>)
    ensures DescBytes(todo) == [] <==> todo == []
  {}

  lemma InCharSelf(found: seq<FoundService>, k: nat, j: nat)
    requires k < |found| && j < |found[k].chars|
    ensures InChar(found, k, j, found[k].chars[j]) == found
  {
    assert found[k].chars[j := found[k].chars[j]] == found[k].chars;
  }

  lemma InCharTwice(was: seq<FoundService>, k: nat, j: nat, c: FoundChar, d: FoundChar)
    requires k < |was| && j < |was[k].chars|
    ensures InChar(InChar(was, k, j, c), k, j, d) == InChar(was, k, j, d)
  {
    assert was[k].chars[j := c][j := d] == was[k].chars[j := d];
  }

  lemma DescStep(was: seq<FoundService>, now: seq<FoundService>, k: nat, j: nat, todo: seq<Descriptor>, l: nat)
    requires (forall i :: 0 <= i < |todo| ==> DescListed(todo[i], l)) && todo != []
    requires k < |was| == |now| && j < |was[k].chars| == |now[k].chars|
    requires now == InChar(was, k, j, now[k].chars[j])
    ensures var b := DescBytes(todo);
      && |b| >= l >= 4 && b[l..] == DescBytes(todo[1..])
      && Word(b[..2]) == todo[0].h && FoundDesc(b[2..l], todo[0].h) == NewDesc(todo[0])
    ensures var c := now[k].chars[j];
      && TakeDesc(c, todo[0]) == (if todo[0].uuid == CLIENT_CONFIG
            then c.(descs := c.descs + [NewDesc(todo[0])]).(cccd := Some(NewDesc(todo[0])))
            else c.(descs := c.descs + [NewDesc(todo[0])]))
      && InChar(now, k, j, TakeDesc(c, todo[0])) == InChar(was, k, j, TakeDesc(c, todo[0]))
  {
    ParseDesc(todo[0], DescBytes(todo[1..]));
    InCharTwice(was, k, j, now[k].chars[j], TakeDesc(now[k].chars[j], todo[0]));
  }

  /** The peer answers a descriptors request with exactly `ds`, entries of size `n`. */
  ghost predicate DescsAt(peer: Peer, start: nat, end: nat, ds: seq<Descriptor>, n: nat)
  {
    && (n == 4 || n == 18)
    && peer.answer(peer.mtu, RangeReq(FIND_INFO_REQ, start, end, [])) ==
       Some(if ds == [] then ErrorResp(FIND_INFO_REQ, start, ATTR_NOT_FOUND)
            else [FIND_INFO_RESP, if n == 4 then 1 else 2] + DescBytes(ds))
    && |DescBytes(ds)| == n * |ds| && forall i :: 0 <= i < |ds| ==> DescListed(ds[i], n)
  }

  // ----------------------------------------------- rounds of characteristics

  /** The first services the client knows are those of `p`. */
  ghost predicate Matches(found: seq<FoundService>, p: seq<Service>)
  {
    |p| <= |found| && forall i :: 0 <= i < |p| ==> found[i].(chars := []) == BareService(p[i])
  }

  /** `todo` is what is left of the characteristics of `s` from `start` on. */
  ghost predicate CharsLeft(s: Service, todo: seq<Characteristic>, start: nat)
  {
    && |todo| <= |s.chars| && todo == s.chars[|s.chars| - |todo|..]
    && BetweenChars(s.chars, |s.chars| - |todo|, start) && s.h <= start <= s.endh
  }

  /** The peer answers a declarations request with exactly `cs`, entries of size `n`. */
  ghost predicate CharsAt(peer: Peer, start: nat, end: nat, cs: seq<Characteristic>, n: nat)
  {
    && (n == 7 || n == 21)
    && peer.answer(peer.mtu, RangeReq(READ_BY_TYPE_REQ, start, end, CHARACTERISTIC)) ==
       Some(if cs == [] then ErrorResp(READ_BY_TYPE_REQ, start, ATTR_NOT_FOUND)
            else [READ_BY_TYPE_RESP, n] + CharBytes(cs))
    && |CharBytes(cs)| == n * |cs| && forall i :: 0 <= i < |cs| ==> CharListed(cs[i], n)
  }

  lemma CharsStart(found: seq<FoundService>, p: seq<Service>, i: nat, k: nat)
    requires Served(p) && Matches(found, p) && k < |p| && Names(found, i, p[k])
    ensures k < |found| && found[k].endh == p[k].endh == found[i].endh
    ensures InService(found, k, found[k].chars + []) == found
    ensures 0 < found[i].h <= 0xFFFF && CharsLeft(p[k], p[k].chars, found[i].h)
    ensures Ascending([], found[i].h)
  {
    assert found[k].(chars := []) == BareService(p[k]);
    assert ServiceServed(p[k]);
    assert found[k].chars + [] == found[k].chars;
  }

  /** Entry `i` of what the client knows is service `s`, listed for the first time or again. */
  predicate Names(found: seq<FoundService>, i: nat, s: Service)
  {
    i < |found| && found[i].(chars := []) == BareService(s)
  }

  /** What is known once the characteristics of `s` have been asked for by its entry `i`: they
      are listed with the first entry `k`, behind those known, and the last range listed with
      entry `i` is closed. */
  function AskedFor(found: seq<FoundService>, i: nat, k: nat, s: Service): (r: seq<FoundService>)
    requires k < |found| && i < |found|
    ensures |r| == |found|
  {
    var now := InService(found, k, found[k].chars + WithChars([], s.chars));
    if |now[i].chars| > 1 then InService(now, i, CloseLast(now[i].chars, s.endh)) else now
  }

  lemma AskedForItself(found: seq<FoundService>, k: nat, s: Service)
    requires k < |found|
    ensures AskedFor(found, k, k, s) == InService(found, k, ListedAgain(found[k].chars, s))
  {}

  /** Asked for by a later entry, they still are listed with the first one, and that later
      entry gets none. */
  lemma LaterEntryGetsNone(found: seq<FoundService>, i: nat, k: nat, s: Service)
    requires k < i < |found| && found[i].chars == []
    ensures var r := AskedFor(found, i, k, s);
      r[i] == found[i] && r[k].chars == found[k].chars + WithChars([], s.chars)
  {}

  lemma NothingBefore(base: seq<FoundChar>)
    ensures PrevOf(base, []) == -1 && base + [] == base
  {}

  lemma CharsOf(found: seq<FoundService>, k: nat, cs: seq<FoundChar>)
    requires k < |found|
    ensures InService(found, k, cs)[k].chars == cs
  {}

  lemma NoMoreChars(cs: seq<FoundChar>)
    ensures WithChars(cs, []) == cs
  {}

  lemma CharsDone(was: seq<FoundService>, now: seq<FoundService>, i: nat, k: nat, s: Service, cur: seq<FoundChar>)
    requires k < |was| && i < |was| && now == InService(was, k, was[k].chars + cur) && now[i].endh == s.endh
    requires WithChars(cur, []) == WithChars([], s.chars)
    ensures var cs := now[i].chars;
      AskedFor(was, i, k, s) == if |cs| > 1 then CloseChar(now, i, |cs| - 1, now[i].endh) else now
  {}

  lemma InServiceTwice(was: seq<FoundService>, mid: seq<FoundService>, now: seq<FoundService>, i: nat, k: nat,
                       p: seq<Service>, cs: seq<FoundChar>)
    requires k < |p| && k < |was| == |mid| && Matches(mid, p) && Names(mid, i, p[k])
    requires mid == InService(was, k, mid[k].chars)
    requires now == InService(mid, k, cs)
    ensures now == InService(was, k, cs) && Matches(now, p) && Names(now, i, p[k])
    ensures now[i].endh == p[k].endh == now[k].endh
  {
    assert now[k].(chars := []) == mid[k].(chars := []) == BareService(p[k]);
    assert now[i].(chars := []) == mid[i].(chars := []);
  }

  /** Every characteristic of `p[k]` is found in service `k` and no earlier one. */
  lemma CharsHeld(found: seq<FoundService>, p: seq<Service>, k: nat, cs: seq<Characteristic>)
    requires Served(p) && Matches(found, p) && k < |p|
    requires forall i :: 0 <= i < |cs| ==> cs[i] in p[k].chars
    ensures forall i :: 0 <= i < |cs| ==> Holds(found, cs[i].h, cs[i].vh, k)
  {
    assert ServiceServed(p[k]);
    forall i | 0 <= i < |cs| ensures Holds(found, cs[i].h, cs[i].vh, k) {
      assert cs[i] in p[k].chars;
      var j :| 0 <= j < |p[k].chars| && p[k].chars[j] == cs[i];
      assert CharLaid(p[k].chars[j]);
      forall x | 0 <= x <= k ensures found[x].h == p[x].h && found[x].endh == p[x].endh {
        assert found[x].(chars := []) == BareService(p[x]);
      }
    }
  }

  lemma CharsRequest(aa: seq<Attr>, start: nat, end: nat, peer: Peer, env: Env)
    requires Serves(peer, aa, env) && start <= end <= 0xFFFF
    requires forall a :: a in aa && a.typ == CHARACTERISTIC ==> a.value.Some?
    ensures peer.answer(peer.mtu, RangeReq(READ_BY_TYPE_REQ, start, end, CHARACTERISTIC))
            == Some(ListReply(Types(CHARACTERISTIC, peer.mtu - 1, env), Scan(aa, start, end), start, peer.mtu))
  {
    hide ListReply, WriteReply, ReadReply, ReadBlobReply, Scan, Find, Clamp;
    RangeReqParts(READ_BY_TYPE_REQ, start, end, CHARACTERISTIC);
    var req := RangeReq(READ_BY_TYPE_REQ, start, end, CHARACTERISTIC);
    assert Answerable(aa, req);
  }

  lemma CharsRound(p: seq<Service>, k: nat, todo: seq<Characteristic>, start: nat, peer: Peer, env: Env)
      returns (cs: seq<Characteristic>, rest: seq<Characteristic>, n: nat, bound: nat)
    requires Served(p) && Serves(peer, TableAttrs(p, |p|), env) && k < |p| && CharsLeft(p[k], todo, start)
    ensures todo == cs + rest && (cs == [] <==> todo == [])
    ensures forall i :: 0 <= i < |cs| ==> cs[i] in p[k].chars
    ensures CharsAt(peer, start, p[k].endh, cs, n) && start <= p[k].endh <= 0xFFFF && start < bound <= 0x10000
    ensures cs != [] ==> bound == cs[|cs| - 1].vh + 1 && bound - 1 <= p[k].endh
    ensures cs != [] && bound - 1 == p[k].endh ==> rest == []
    ensures bound - 1 < p[k].endh && cs != [] ==> CharsLeft(p[k], rest, bound)
  {
    hide Served, Serves, CharsAt, CharsLeft, TableAttrs;
    CharsLeftFrom(p[k], todo, start);
    ServedAt(p, k, peer, env);
    var s := p[k];
    var j := |s.chars| - |todo|;
    var m;
    m, n := CharsAnswer(p, k, j, start, peer, env);
    cs, rest := s.chars[j..j + m], s.chars[j + m..];
    bound := CharsTaken(s, j, m, start);
  }

  lemma CharsLeftFrom(s: Service, todo: seq<Characteristic>, start: nat)
    requires CharsLeft(s, todo, start)
    ensures |todo| <= |s.chars| && todo == s.chars[|s.chars| - |todo|..] && start <= s.endh
  {}

  lemma CharsTaken(s: Service, j: nat, m: nat, start: nat) returns (bound: nat)
    requires ServiceServed(s) && j + m <= |s.chars| && CharsLeft(s, s.chars[j..], start)
    ensures start < bound <= 0x10000 && (m == 0 ==> bound == start + 1)
    ensures m > 0 ==> bound == s.chars[j + m - 1].vh + 1 && bound - 1 <= s.endh
    ensures m > 0 && bound - 1 == s.endh ==> s.chars[j + m..] == []
    ensures m > 0 && bound - 1 < s.endh ==> CharsLeft(s, s.chars[j + m..], bound)
  {
    hide CharOk, IsUuid;
    bound := if m > 0 then s.chars[j + m - 1].vh + 1 else start + 1;
    if m > 0 {
      assert CharLaid(s.chars[j + m - 1]) && start <= s.chars[j + m - 1].h;
      assert s.chars[j..][m - 1] == s.chars[j + m - 1];
      if j + m < |s.chars| {
        assert CharLaid(s.chars[j + m]) && s.chars[j + m - 1].vh < s.chars[j + m].h;
      }
    }
  }

  lemma ServedAt(p: seq<Service>, k: nat, peer: Peer, env: Env)
    requires Served(p) && k < |p| && Serves(peer, TableAttrs(p, |p|), env)
    ensures ServiceServed(p[k]) && peer.mtu >= DEFAULT_MTU
    ensures forall a :: a in TableAttrs(p, |p|) && a.typ == CHARACTERISTIC ==> a.value.Some?
  {
    TableRows(p, |p|);
  }

  lemma CharsAnswer(p: seq<Service>, k: nat, j: nat, start: nat, peer: Peer, env: Env) returns (m: nat, n: nat)
    requires Served(p) && Serves(peer, TableAttrs(p, |p|), env) && k < |p|
    requires j <= |p[k].chars| && CharsLeft(p[k], p[k].chars[j..], start)
    ensures j + m <= |p[k].chars| && (m == 0 <==> j == |p[k].chars|)
    ensures CharsAt(peer, start, p[k].endh, p[k].chars[j..j + m], n)
  {
    hide TableAttrs, ListReply, Select, Scan, Served, Serves, CharEntries, CharBytes;
    var aa, s := TableAttrs(p, |p|), p[k];
    ServedAt(p, k, peer, env);
    CharsRequest(aa, start, s.endh, peer, env);
    var q := Types(CHARACTERISTIC, peer.mtu - 1, env);
    if j == |s.chars| {
      m, n := 0, 7;
      CharsEnd([]);
      DeclarationsSelected(q, p, k, j, start);
      NoEntries(q, Scan(aa, start, s.endh), start, peer.mtu);
    } else {
      m, n := CharsReply(q, p, k, j, start, peer.mtu);
      assert Header(q, n) == [READ_BY_TYPE_RESP, n];
      var cs := s.chars[j..j + m];
      forall i | 0 <= i < m ensures CharListed(cs[i], n) {
        assert CharOk(s.chars[j + i]) && CharLaid(s.chars[j + i]);
      }
    }
  }

  /** Service `k` is the first whose range holds a declaration at `h` and a value at `vh`. */
  predicate Holds(found: seq<FoundService>, h: nat, vh: nat, k: nat)
  {
    && k < |found| && found[k].h < h && found[k].endh >= vh
    && forall i :: 0 <= i < k ==> !(found[i].h < h && found[i].endh >= vh)
  }

  function InService(found: seq<FoundService>, k: nat, cs: seq<FoundChar>): (r: seq<FoundService>)
    requires k < |found|
    ensures |r| == |found|
  {
    found[k := found[k].(chars := cs)]
  }

  function AppendChar(found: seq<FoundService>, k: nat, c: FoundChar): seq<FoundService>
    requires k < |found|
  {
    InService(found, k, found[k].chars + [c])
  }

  function CloseChar(found: seq<FoundService>, k: nat, j: nat, end: nat): seq<FoundService>
    requires k < |found| && j < |found[k].chars|
  {
    InService(found, k, found[k].chars[j := found[k].chars[j].(endh := end)])
  }

  predicate SameRanges(a: seq<FoundService>, b: seq<FoundService>)
  {
    |a| == |b| && forall i :: 0 <= i < |a| ==> a[i].h == b[i].h && a[i].endh == b[i].endh
  }

  lemma InServiceSelf(found: seq<FoundService>, k: nat)
    requires k < |found|
    ensures InService(found, k, found[k].chars) == found && SameRanges(found, found)
  {}

  lemma CharsEnd(todo: seq<Characteristic>)
    ensures CharBytes(todo) == [] <==> todo == []
  {}

  /** Nothing but the characteristics changes, so the search still ends at `k`. */
  lemma FirstHolder(was: seq<FoundService>, now: seq<FoundService>, h: nat, vh: nat, k: nat, r: Option<nat>)
    requires SameRanges(now, was) && Holds(was, h, vh, k)
    requires r.Some? ==> Holds(now, h, vh, r.value)
    requires r.None? ==> forall i :: 0 <= i < |now| ==> !(now[i].h < h && now[i].endh >= vh)
    ensures r == Some(k)
  {}

  /** The characteristic listed last in this round of requests, by index. */
  function PrevOf(base: seq<FoundChar>, cur: seq<FoundChar>): int
  {
    if cur == [] then -1 else |base| + |cur| - 1
  }

  /** Appending to the list and closing the one before is what `TakeChar` says. */
  lemma TakeStep(was: seq<FoundService>, found: seq<FoundService>, k: nat, base: seq<FoundChar>, cur: seq<FoundChar>,
                 c: Characteristic)
    requires k < |was| && found == InService(was, k, base + cur)
    ensures var prev := PrevOf(base, cur);
      var more := AppendChar(found, k, NewChar(c));
      && |more| == |found| && prev < |more[k].chars| && more[k].endh == was[k].endh
      && var now := if prev >= 0 then CloseChar(more, k, prev, Before(c.h)) else more;
      && |now| == |was| && now == InService(was, k, base + TakeChar(cur, c)) && SameRanges(now, was)
      && |now[k].chars| - 1 == PrevOf(base, TakeChar(cur, c)) && now[k].endh == was[k].endh
  {
    var last := |cur| - 1;
    if cur == [] {
      assert TakeChar(cur, c) == [NewChar(c)];
      assert (base + cur) + [NewChar(c)] == base + TakeChar(cur, c);
    } else {
      var closed := cur[last].(endh := Before(c.h));
      var prev := |base| + last;
      assert (base + cur + [NewChar(c)])[prev] == cur[last];
      assert (base + cur + [NewChar(c)])[prev := closed] == base + TakeChar(cur, c);
    }
  }

  predicate CharListed(c: Characteristic, l: nat)
  {
    IsUuid(c.uuid) && 0 < c.h <= 0xFFFF && c.vh <= 0xFFFF && |CharEntry(c)| == l
  }

  lemma CharStep(todo: seq<Characteristic>, l: nat)
    requires (forall i :: 0 <= i < |todo| ==> CharListed(todo[i], l)) && todo != []
    ensures var b := CharBytes(todo);
      && |b| >= l >= 7 && b[l..] == CharBytes(todo[1..])
      && Word(b[..2]) == todo[0].h && Word(b[3..5]) == todo[0].vh
      && FoundChar(b[5..l], b[2], todo[0].h, todo[0].vh, 0, [], None) == NewChar(todo[0])
  {
    ParseChar(todo[0], CharBytes(todo[1..]));
  }

  // ------------------------------------------------------ rounds of services

  /** `todo` is what is left of `p` from `start` on. */
  ghost predicate Left(p: seq<Service>, todo: seq<Service>, start: nat)
  {
    |todo| <= |p| && todo == p[|p| - |todo|..] && Between(p, |p| - |todo|, start)
  }

  lemma DiscoveryStart(p: seq<Service>)
    requires Served(p)
    ensures Left(p, p, 1) && Ascending([], 1)
  {
    forall i | 0 <= i < |p| ensures 1 <= p[i].h {
      assert ServiceServed(p[i]);
    }
  }

  lemma NothingLeft(found: seq<FoundService>)
    ensures WithServices(found, []) == found
  {}

  /** The peer answers a service request from `start` with exactly `ss`, entries of size `n`. */
  ghost predicate ServicesAt(peer: Peer, start: nat, ss: seq<Service>, n: nat)
  {
    && (n == 6 || n == 20)
    && peer.answer(peer.mtu, RangeReq(READ_BY_GROUP_REQ, start, 0xFFFF, PRIMARY_SERVICE)) ==
       Some(if ss == [] then ErrorResp(READ_BY_GROUP_REQ, start, ATTR_NOT_FOUND)
            else Header(Groups, n) + GroupBytes(ss))
    && |GroupBytes(ss)| == n * |ss| && forall i :: 0 <= i < |ss| ==> Listed(ss[i], n)
  }

  /** `m` whole entries of size `n`. */
  lemma Whole(n: nat, m: nat)
    requires n > 0
    ensures (n * m) % n == 0
  {
    var q: int, r: int := (n * m) / n, (n * m) % n;
    var d: int := m - q;
    assert n * m == n * q + r && n * m == n * q + n * d;
    AtLeastOne(n, d);
  }

  lemma AtLeastOne(n: nat, d: int)
    ensures d > 0 ==> n * d >= n
    ensures d < 0 ==> n * d + n <= 0
  {}

  /** The reply of a round, as the loop takes it apart. */
  lemma ServicesParts(peer: Peer, start: nat, ss: seq<Service>, n: nat) returns (b: bytes)
    requires ServicesAt(peer, start, ss, n)
    ensures var req := RangeReq(READ_BY_GROUP_REQ, start, 0xFFFF, PRIMARY_SERVICE);
      peer.answer(peer.mtu, req) == Some(b) && NextMtu(peer.mtu, req) == peer.mtu
    ensures |b| >= 1 && (b[0] == ERROR ==> |b| >= 5) && Finish(READ_BY_GROUP_REQ, start, b) == (ss == [], 0)
    ensures ss != [] ==>
      && (n == 6 || n == 20) && |b| >= 2 && b[1] == n && b[2..] == GroupBytes(ss) && |b[2..]| % n == 0
      && forall i :: 0 <= i < |ss| ==> Listed(ss[i], n)
  {
    hide GroupBytes, Listed;
    b := peer.answer(peer.mtu, RangeReq(READ_BY_GROUP_REQ, start, 0xFFFF, PRIMARY_SERVICE)).value;
    Whole(n, |ss|);
  }

  /** The same for characteristics. */
  lemma CharsParts(peer: Peer, start: nat, end: nat, cs: seq<Characteristic>, n: nat) returns (b: bytes)
    requires CharsAt(peer, start, end, cs, n)
    ensures var req := RangeReq(READ_BY_TYPE_REQ, start, end, CHARACTERISTIC);
      peer.answer(peer.mtu, req) == Some(b) && NextMtu(peer.mtu, req) == peer.mtu
    ensures |b| >= 1 && (b[0] != READ_BY_TYPE_RESP <==> cs == [])
    ensures cs != [] ==>
      && (n == 7 || n == 21) && |b| >= 2 && b[1] == n && b[2..] == CharBytes(cs) && |b[2..]| % n == 0
      && forall i :: 0 <= i < |cs| ==> CharListed(cs[i], n)
  {
    hide CharBytes, CharListed;
    b := peer.answer(peer.mtu, RangeReq(READ_BY_TYPE_REQ, start, end, CHARACTERISTIC)).value;
    Whole(n, |cs|);
  }

  /** The same for descriptors. */
  lemma DescsParts(peer: Peer, start: nat, end: nat, ds: seq<Descriptor>, n: nat) returns (b: bytes)
    requires DescsAt(peer, start, end, ds, n)
    ensures var req := RangeReq(FIND_INFO_REQ, start, end, []);
      peer.answer(peer.mtu, req) == Some(b) && NextMtu(peer.mtu, req) == peer.mtu
    ensures |b| >= 1 && (b[0] == ERROR ==> |b| >= 5) && Finish(FIND_INFO_REQ, start, b) == (ds == [], 0)
    ensures ds != [] ==>
      && (n == 4 || n == 18) && |b| >= 2 && b[1] == (if n == 4 then 1 else 2)
      && b[2..] == DescBytes(ds) && |b[2..]| % n == 0
      && forall i :: 0 <= i < |ds| ==> DescListed(ds[i], n)
  {
    hide DescBytes, DescListed;
    b := peer.answer(peer.mtu, RangeReq(FIND_INFO_REQ, start, end, [])).value;
    Whole(n, |ds|);
  }

  lemma ServicesReply(p: seq<Service>, todo: seq<Service>, start: nat, peer: Peer, env: Env)
      returns (ss: seq<Service>, rest: seq<Service>, n: nat, bound: nat)
    requires Served(p) && Serves(peer, TableAttrs(p, |p|), env)
    requires Left(p, todo, start) && start <= 0xFFFF
    ensures todo == ss + rest && (ss == [] <==> todo == [])
    ensures ServicesAt(peer, start, ss, n) && start < bound <= 0x10000
    ensures ss != [] ==> (ss[|ss| - 1].endh == 0xFFFF <==> rest == [])
    ensures rest != [] ==> bound == ss[|ss| - 1].endh + 1 <= 0xFFFF && Left(p, rest, bound)
    ensures rest == [] ==> bound == 0x10000
  {
    hide ServicesAt, TableAttrs;
    var k := |p| - |todo|;
    var m;
    m, n := ServicesRound(p, k, start, peer, env);
    ss, rest := p[k..k + m], p[k + m..];
    bound := ServicesTaken(p, k, m, start);
  }

  lemma ServicesRound(p: seq<Service>, k: nat, start: nat, peer: Peer, env: Env) returns (m: nat, n: nat)
    requires Served(p) && Serves(peer, TableAttrs(p, |p|), env)
    requires k <= |p| && Between(p, k, start) && start <= 0xFFFF
    ensures k + m <= |p| && (m == 0 <==> k == |p|) && ServicesAt(peer, start, p[k..k + m], n)
  {
    hide TableAttrs, ListReply, Select, Scan;
    GroupsRequest(TableAttrs(p, |p|), start, peer, env);
    if k == |p| {
      m, n := 0, 6;
      GroupsSelected(p, k, k, start);
      NoEntries(Groups, Scan(TableAttrs(p, |p|), start, 0xFFFF), start, peer.mtu);
    } else {
      m, n := GroupsReply(p, k, start, peer.mtu);
      var ss := p[k..k + m];
      forall i | 0 <= i < m ensures Listed(ss[i], n) {
        assert ServiceServed(p[k + i]);
      }
    }
  }

  lemma GroupsRequest(aa: seq<Attr>, start: nat, peer: Peer, env: Env)
    requires Serves(peer, aa, env) && start <= 0xFFFF
    ensures peer.answer(peer.mtu, RangeReq(READ_BY_GROUP_REQ, start, 0xFFFF, PRIMARY_SERVICE))
            == Some(ListReply(Groups, Scan(aa, start, 0xFFFF), start, peer.mtu))
  {
    hide ListReply, WriteReply, ReadReply, ReadBlobReply, Scan, Find, Clamp;
    RangeReqParts(READ_BY_GROUP_REQ, start, 0xFFFF, PRIMARY_SERVICE);
    var req := RangeReq(READ_BY_GROUP_REQ, start, 0xFFFF, PRIMARY_SERVICE);
    assert Answerable(aa, req);
  }

  lemma ServicesTaken(p: seq<Service>, k: nat, m: nat, start: nat) returns (bound: nat)
    requires Served(p) && k + m <= |p| && Between(p, k, start) && start <= 0xFFFF
    ensures start < bound <= 0x10000 && (k + m == |p| ==> bound == 0x10000)
    ensures m > 0 ==> (p[k + m - 1].endh == 0xFFFF <==> k + m == |p|)
    ensures 0 < m && k + m < |p| ==> bound == p[k + m - 1].endh + 1 <= 0xFFFF && Left(p, p[k + m..], bound)
  {
    bound := if 0 < m && k + m < |p| then p[k + m - 1].endh + 1 else 0x10000;
    if 0 < m {
      assert ServiceServed(p[k + m - 1]);
    }
  }

  predicate Listed(s: Service, l: nat)
  {
    IsUuid(s.uuid) && s.h <= 0xFFFF && s.endh <= 0xFFFF && |GroupEntry(s)| == l
  }

  lemma ServiceStep(todo: seq<Service>, l: nat)
    requires (forall i :: 0 <= i < |todo| ==> Listed(todo[i], l)) && todo != []
    ensures var b := GroupBytes(todo);
      && |b| >= l >= 6 && b[l..] == GroupBytes(todo[1..]) && Word(b[2..4]) == todo[0].endh
      && FoundService(b[4..l], Word(b[..2]), Word(b[2..4]), []) == BareService(todo[0])
  {
    ParseGroup(todo[0], GroupBytes(todo[1..]));
  }
}
