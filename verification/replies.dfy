/** What the ATT server answers, as functions of the table, the MTU, what the
    user's handlers do and the request. The handlers of `Server` are proved to
    compute exactly these. */
module Replies {
  import opened Bytes
  import opened Att
  import opened AttributeTable
  import opened ResponseWriters

  /** The user's handlers during one request: the writes a read handler performs,
      by attribute handle, capacity and offset, and the status a write handler
      returns, by characteristic handle and data. */
  datatype Env = Env(read: (nat, nat, nat) -> seq<bytes>, write: (nat, bytes) -> byte)

  /** The value a read of `a` starts from. */
  function ValueOf(a: Attr, cap: nat, offset: nat, env: Env): bytes
  {
    if a.value.Some? then a.value.value else Collect(cap, env.read(a.h, cap, offset), [])
  }

  predicate Readable(a: Attr) { a.value.Some? || a.hasRead }

  // ---------------------------------------------------------- list requests

  datatype Query =
    | Groups
    | ServicesWith(u: bytes)
    | Types(t: bytes, cap: nat, env: Env)
    | Info

  predicate Wanted(q: Query, a: Attr)
  {
    match q
    case Groups => a.typ == PRIMARY_SERVICE
    case ServicesWith(u) => a.typ == PRIMARY_SERVICE && a.value == Some(u)
    case Types(t, _, _) => a.typ == t
    case Info => true
  }

  function GroupRange(a: Attr): bytes
  {
    if a.pvt.OfService? then Le16(a.pvt.sh) + Le16(a.pvt.endh) else []
  }

  function Entry(q: Query, a: Attr): bytes
  {
    match q
    case Groups => GroupRange(a) + (if a.value.Some? then a.value.value else [])
    case ServicesWith(_) => GroupRange(a)
    case Types(_, cap, env) => Le16(a.h) + ValueOf(a, cap, 0, env)
    case Info => Le16(a.h) + a.typ
  }

  /** The entries of the wanted attributes, in table order. */
  function Select(q: Query, aa: seq<Attr>): seq<bytes>
  {
    if aa == [] then []
    else if Wanted(q, aa[0]) then [Entry(q, aa[0])] + Select(q, aa[1..])
    else Select(q, aa[1..])
  }

  /** The leading entries of size `n` that fit in `room` bytes. */
  function Fit(es: seq<bytes>, n: nat, room: nat): seq<bytes>
  {
    if es == [] || |es[0]| != n || n > room then [] else [es[0]] + Fit(es[1..], n, room - n)
  }

  function ListOp(q: Query): byte
  {
    match q
    case Groups => READ_BY_GROUP_REQ
    case ServicesWith(_) => FIND_BY_TYPE_VALUE_REQ
    case Types(_, _, _) => READ_BY_TYPE_REQ
    case Info => FIND_INFO_REQ
  }

  /** Opcode, then the entry size (or, for Find Info, the UUID format). */
  function Header(q: Query, n: nat): (r: bytes)
    ensures 1 <= |r| <= 2
  {
    [RespFor(ListOp(q))] +
    match q
    case ServicesWith(_) => []
    case Info => [if n == 4 then 1 else 2]
    case _ => [Low(n)]
  }

  /** A list response: header, then the leading entries as long as the first. */
  function ListReply(q: Query, aa: seq<Attr>, start: nat, mtu: nat): bytes
    requires mtu >= 2
  {
    var es := Select(q, aa);
    if es == [] then ErrorResp(ListOp(q), start, ATTR_NOT_FOUND)
    else
      var n := |es[0]|;
      Header(q, n) + Flatten(Fit(es, n, mtu - |Header(q, n)|))
  }

  // -------------------------------------------------------- whole requests

  function Find(aa: seq<Attr>, h: nat): Option<Attr>
  {
    if aa == [] then None else if aa[0].h == h then Some(aa[0]) else Find(aa[1..], h)
  }

  function ReadReply(a: Option<Attr>, h: nat, mtu: nat, env: Env): bytes
    requires mtu >= 1
  {
    if a.None? then ErrorResp(READ_REQ, h, INVALID_HANDLE)
    else if !Has(a.value.props, CHAR_READ) then ErrorResp(READ_REQ, h, READ_NOT_PERM)
    else
      var v := ValueOf(a.value, mtu - 1, 0, env);
      [READ_RESP] + v[..Min(|v|, mtu - 1)]
  }

  function ReadBlobReply(a: Option<Attr>, h: nat, offset: nat, mtu: nat, env: Env): bytes
    requires mtu >= 1
  {
    if a.None? then ErrorResp(READ_BLOB_REQ, h, INVALID_HANDLE)
    else if !Has(a.value.props, CHAR_READ) then ErrorResp(READ_BLOB_REQ, h, READ_NOT_PERM)
    else
      var v := ValueOf(a.value, mtu - 1, offset, env);
      var skip := if a.value.value.Some? then offset else 0;  // a handler has skipped already
      if |v| < skip then ErrorResp(READ_BLOB_REQ, h, INVALID_OFFSET)
      else [READ_BLOB_RESP] + v[skip..][..Min(|v| - skip, mtu - 1)]
  }

  function WriteReply(op: byte, a: Option<Attr>, h: nat, value: bytes, env: Env): Option<bytes>
  {
    var noResp := op == WRITE_CMD;
    if a.None? then Some(ErrorResp(op, h, INVALID_HANDLE))
    else if !Writable(op, a.value) then Some(ErrorResp(op, h, WRITE_NOT_PERM))
    else if a.value.typ != CLIENT_CONFIG then
      // descriptors have no write handler here: their status is always success
      var status := if a.value.pvt.OfChar? then env.write(a.value.pvt.ch, value) else 0;
      if noResp then None
      else if status == 0 then Some([WRITE_RESP])
      else Some(ErrorResp(op, h, status))
    else if |value| != 2 then Some(ErrorResp(op, h, INVAL_ATTR_VALUE_LEN))
    else if noResp then None
    else Some([WRITE_RESP])
  }

  /** What a write does to the connection's subscriptions. */
  datatype Change = NoChange | Start(h: nat, cvh: nat) | Stop(h: nat)

  function WriteChange(op: byte, a: Option<Attr>, value: bytes): Change
  {
    if a.None? || !Writable(op, a.value) then NoChange
    else if a.value.typ != CLIENT_CONFIG || |value| != 2 || !a.value.pvt.OfDesc? then NoChange
    else if Word(value) % 4 != 0 then Start(a.value.h, a.value.pvt.cvh)
    else Stop(a.value.h)
  }

  function Clamp(mtu: nat): nat
  {
    if mtu < DEFAULT_MTU then DEFAULT_MTU else if mtu >= MAX_MTU then MAX_MTU else mtu
  }

  /** The slice a range request cuts would have its bounds reversed. */
  predicate Backwards(aa: seq<Attr>, start: nat, end: nat)
  {
    aa != [] && aa[0].h <= end + 1 < start < aa[0].h + |aa|
  }

  predicate Writable(op: byte, a: Attr)
  {
    Has(a.props, if op == WRITE_CMD then CHAR_WRITE_NR else CHAR_WRITE)
  }

  predicate ReachesWriteHandler(op: byte, a: Attr)
  {
    Writable(op, a) && a.typ != CLIENT_CONFIG && a.pvt.OfChar?
  }

  /** Long enough for its opcode. */
  predicate LongEnough(req: bytes)
  {
    && |req| >= 1
    && var op, n := req[0], |req| - 1;
    if op == MTU_REQ || op == READ_REQ || op == WRITE_REQ || op == WRITE_CMD then n >= 2
    else if op == FIND_INFO_REQ || op == READ_BY_TYPE_REQ || op == READ_BY_GROUP_REQ || op == READ_BLOB_REQ then n >= 4
    else if op == FIND_BY_TYPE_VALUE_REQ then n >= 6
    else true
  }

  /** Long enough for its opcode, its range not backwards, and every handler it could reach
      installed: enough for the server not to panic. */
  ghost predicate Answerable(aa: seq<Attr>, req: bytes): (r: bool)
    ensures r ==> LongEnough(req)
  {
    && LongEnough(req)
    && var op, b := req[0], req[1..];
    if op == FIND_INFO_REQ then !Backwards(aa, Word(b), Word(b[2..]))
    else if op == FIND_BY_TYPE_VALUE_REQ then b[4..6] == PRIMARY_SERVICE ==> !Backwards(aa, Word(b), Word(b[2..]))
    else if op == READ_BY_TYPE_REQ then
      && !Backwards(aa, Word(b), Word(b[2..]))
      && forall a :: a in aa && Word(b) <= a.h <= Word(b[2..]) && a.typ == b[4..] ==> Readable(a)
    else if op == READ_BY_GROUP_REQ then b[4..] == PRIMARY_SERVICE ==> !Backwards(aa, Word(b), Word(b[2..]))
    else if op == READ_REQ || op == READ_BLOB_REQ then
      forall a :: a in aa && a.h == Word(b) && Has(a.props, CHAR_READ) ==> Readable(a)
    else if op == WRITE_REQ || op == WRITE_CMD then
      forall a :: a in aa && a.h == Word(b) && ReachesWriteHandler(op, a) ==> a.hasWrite
    else true
  }

  function NextMtu(mtu: nat, req: bytes): nat
  {
    if |req| >= 3 && req[0] == MTU_REQ then Clamp(Word(req[1..])) else mtu
  }

  function ChangeOf(aa: seq<Attr>, req: bytes): Change
  {
    if |req| >= 3 && (req[0] == WRITE_REQ || req[0] == WRITE_CMD)
    then WriteChange(req[0], Find(aa, Word(req[1..])), req[3..])
    else NoChange
  }

  function Reply(aa: seq<Attr>, mtu: nat, env: Env, req: bytes): Option<bytes>
    requires mtu >= 2 && LongEnough(req)
  {
    var op, b := req[0], req[1..];
    if op == MTU_REQ then
      Some([MTU_RESP] + Le16(Clamp(Word(b))))
    else if op == FIND_INFO_REQ then
      Some(ListReply(Info, Scan(aa, Word(b), Word(b[2..])), Word(b), mtu))
    else if op == FIND_BY_TYPE_VALUE_REQ then
      if b[4..6] != PRIMARY_SERVICE then Some(ErrorResp(FIND_BY_TYPE_VALUE_REQ, Word(b), ATTR_NOT_FOUND))
      else Some(ListReply(ServicesWith(b[6..]), Scan(aa, Word(b), Word(b[2..])), Word(b), mtu))
    else if op == READ_BY_TYPE_REQ then
      Some(ListReply(Types(b[4..], mtu - 1, env), Scan(aa, Word(b), Word(b[2..])), Word(b), mtu))
    else if op == READ_BY_GROUP_REQ then
      if b[4..] != PRIMARY_SERVICE then Some(ErrorResp(READ_BY_GROUP_REQ, Word(b), UNSUPP_GRP_TYPE))
      else Some(ListReply(Groups, Scan(aa, Word(b), Word(b[2..])), Word(b), mtu))
    else if op == READ_REQ then
      Some(ReadReply(Find(aa, Word(b)), Word(b), mtu, env))
    else if op == READ_BLOB_REQ then
      Some(ReadBlobReply(Find(aa, Word(b)), Word(b), Word(b[2..]), mtu, env))
    else if op == WRITE_REQ || op == WRITE_CMD then
      WriteReply(op, Find(aa, Word(b)), Word(b), b[2..], env)
    else Some(ErrorResp(op, 0, REQ_NOT_SUPP))
  }

  /** Service declarations are exactly the attributes typed so; CCC attributes
      belong to descriptors; every type is a UUID. */
  ghost predicate Typed(aa: seq<Attr>)
  {
    forall i :: 0 <= i < |aa| ==> TypedAttr(aa[i])
  }

  predicate TypedAttr(a: Attr)
  {
    && IsUuid(a.typ)
    && (a.typ == PRIMARY_SERVICE <==> a.pvt.OfService?)
    && (a.pvt.OfService? ==> a.value.Some? && IsUuid(a.value.value))
    && (a.typ == CLIENT_CONFIG ==> a.pvt.OfDesc?)
  }

  // ------------------------------------------- what the functions guarantee

  lemma {:induction false} FindIsAt(aa: seq<Attr>, base: nat, h: nat)
    requires Indexed(aa, base)
    ensures Find(aa, h) == AttrRange(aa, base).At(h)
    decreases |aa|
  {
    if aa != [] && aa[0].h != h {
      FindIsAt(aa[1..], base + 1, h);
    }
  }

  lemma {:induction false} FlattenFit(es: seq<bytes>, n: nat, room: nat)
    ensures |Flatten(Fit(es, n, room))| == n * |Fit(es, n, room)| <= room
    decreases |es|
  {
    if es != [] && |es[0]| == n && n <= room {
      FlattenFit(es[1..], n, room - n);
    }
  }

  ghost predicate LongestPrefix(got: seq<bytes>, es: seq<bytes>, n: nat, room: nat)
  {
    var k := |got|;
    && k <= |es| && got == es[..k] && n * k <= room
    && (forall i :: 0 <= i < k ==> |es[i]| == n)
    && (k == |es| || |es[k]| != n || n * (k + 1) > room)
  }

  /** `Fit` is the longest prefix whose entries all have size `n` and fit together. */
  lemma {:induction false} FitIsLongest(es: seq<bytes>, n: nat, room: nat)
    ensures LongestPrefix(Fit(es, n, room), es, n, room)
    decreases |es|
  {
    if es != [] && |es[0]| == n && n <= room {
      FitIsLongest(es[1..], n, room - n);
      var k := |Fit(es[1..], n, room - n)|;
      assert es[..k + 1] == [es[0]] + es[1..][..k];
      assert forall i :: 1 <= i < k + 1 ==> es[i] == es[1..][i - 1];
      assert n * (k + 1) == n * k + n && n * (k + 2) == n * (k + 1) + n;
    }
  }

  /** The client's reading of a list: cut into pieces of size `n`. */
  function Pieces(b: bytes, n: nat): seq<bytes>
    requires n > 0
  {
    if |b| < n then [] else [b[..n]] + Pieces(b[n..], n)
  }

  lemma {:induction false} PiecesOfFlatten(es: seq<bytes>, n: nat)
    requires n > 0 && forall i :: 0 <= i < |es| ==> |es[i]| == n
    ensures Pieces(Flatten(es), n) == es
  {
    if es != [] {
      assert Flatten(es)[..n] == es[0] && Flatten(es)[n..] == Flatten(es[1..]);
      PiecesOfFlatten(es[1..], n);
    }
  }

  /** What a client decodes is the longest such prefix. */
  lemma FitDecodes(es: seq<bytes>, n: nat, room: nat)
    requires n > 0
    ensures var got := Pieces(Flatten(Fit(es, n, room)), n);
      LongestPrefix(got, es, n, room) && got == Fit(es, n, room)
  {
    FitIsLongest(es, n, room);
    PiecesOfFlatten(Fit(es, n, room), n);
  }

  /** A list reply decodes to the longest prefix of the matching entries that has one
      entry size and fits the MTU; it is empty only when the first entry does not fit. */
  lemma ListReplyIsLongestPrefix(q: Query, aa: seq<Attr>, start: nat, mtu: nat, n: nat, skip: nat)
      returns (got: seq<bytes>)
    requires mtu >= DEFAULT_MTU && Select(q, aa) != []
    requires n == |Select(q, aa)[0]| > 0 && skip == if q.ServicesWith? then 1 else 2
    ensures var r := ListReply(q, aa, start, mtu);
      && r[..skip] == Header(q, n) && got == Pieces(r[skip..], n) && Flatten(got) == r[skip..]
    ensures LongestPrefix(got, Select(q, aa), n, mtu - skip)
    ensures got != [] <==> skip + n <= mtu
  {
    got := Fit(Select(q, aa), n, mtu - skip);
    FitDecodes(Select(q, aa), n, mtu - skip);
    HeaderThen(Header(q, n), Flatten(got));
  }

  lemma HeaderThen(a: bytes, b: bytes)
    ensures (a + b)[..|a|] == a && (a + b)[|a|..] == b
  {}

  /** Lists of services and of handle-UUID pairs are never cut to nothing. */
  lemma ServiceListsAreNonEmpty(q: Query, aa: seq<Attr>, start: nat, mtu: nat)
    requires mtu >= DEFAULT_MTU && !q.Types? && Typed(aa) && Select(q, aa) != []
    ensures var r := ListReply(q, aa, start, mtu);
      var skip := if q.ServicesWith? then 1 else 2;
      r[0] == RespFor(ListOp(q)) && |r[skip..]| >= |Select(q, aa)[0]| > 0
  {
    SelectSizes(q, aa);
    var n := |Select(q, aa)[0]|;
    assert EntrySizeOk(q, n);
    var skip := if q.ServicesWith? then 1 else 2;
    assert ListReply(q, aa, start, mtu)[skip..] == Flatten(Fit(Select(q, aa), n, mtu - skip));
  }

  /** Entry sizes: no list of services or of handle-UUID pairs is ever cut to nothing. */
  lemma {:induction false} SelectSizes(q: Query, aa: seq<Attr>)
    requires Typed(aa)
    ensures forall i :: 0 <= i < |Select(q, aa)| ==> EntrySizeOk(q, |Select(q, aa)[i]|)
  {
    if aa != [] {
      assert TypedAttr(aa[0]);
      assert forall i :: 0 <= i < |aa[1..]| ==> aa[1..][i] == aa[i + 1];
      SelectSizes(q, aa[1..]);
    }
  }

  predicate EntrySizeOk(q: Query, n: nat)
  {
    match q
    case Groups => n == 6 || n == 20
    case ServicesWith(_) => n == 4
    case Types(_, _, _) => n >= 2
    case Info => n == 4 || n == 18
  }

  lemma ListReplyFits(q: Query, aa: seq<Attr>, start: nat, mtu: nat)
    requires mtu >= DEFAULT_MTU
    ensures 1 <= |ListReply(q, aa, start, mtu)| <= mtu
  {
    var es := Select(q, aa);
    if es != [] {
      var n := |es[0]|;
      FlattenFit(es, n, mtu - |Header(q, n)|);
    }
  }

  /** Every reply is at most the MTU in force when it is sent, and that MTU stays
      within 23..256. */
  lemma ReplyFits(aa: seq<Attr>, mtu: nat, env: Env, req: bytes)
    requires DEFAULT_MTU <= mtu <= MAX_MTU && LongEnough(req)
    ensures DEFAULT_MTU <= NextMtu(mtu, req) <= MAX_MTU
    ensures var r := Reply(aa, mtu, env, req);
      r.Some? ==> 1 <= |r.value| <= NextMtu(mtu, req)
  {
    var op, b := req[0], req[1..];
    if op == FIND_INFO_REQ {
      ListReplyFits(Info, Scan(aa, Word(b), Word(b[2..])), Word(b), mtu);
    } else if op == FIND_BY_TYPE_VALUE_REQ {
      ListReplyFits(ServicesWith(b[6..]), Scan(aa, Word(b), Word(b[2..])), Word(b), mtu);
    } else if op == READ_BY_TYPE_REQ {
      ListReplyFits(Types(b[4..], mtu - 1, env), Scan(aa, Word(b), Word(b[2..])), Word(b), mtu);
    } else if op == READ_BY_GROUP_REQ {
      ListReplyFits(Groups, Scan(aa, Word(b), Word(b[2..])), Word(b), mtu);
    }
  }

  /** Every request other than a Write Command gets one reply, and it is one the
      client's matcher accepts for that request. */
  lemma EveryRequestIsAnswered(aa: seq<Attr>, mtu: nat, env: Env, req: bytes)
    requires mtu >= DEFAULT_MTU && LongEnough(req) && req[0] != WRITE_CMD
    ensures Reply(aa, mtu, env, req).Some? && Answers(req[0], Reply(aa, mtu, env, req).value)
    ensures Reply(aa, mtu, env, req).value[0] != HANDLE_NOTIFY
    ensures Reply(aa, mtu, env, req).value[0] != HANDLE_IND
  {}

  /** A Write Command is silent exactly when it would not fail. */
  predicate Silent(aa: seq<Attr>, req: bytes)
  {
    && |req| >= 3
    && var a := Find(aa, Word(req[1..]));
    && a.Some? && Has(a.value.props, CHAR_WRITE_NR)
    && (a.value.typ == CLIENT_CONFIG ==> |req| == 5)
  }

  lemma CommandReply(aa: seq<Attr>, mtu: nat, env: Env, req: bytes)
    requires mtu >= DEFAULT_MTU && LongEnough(req) && req[0] == WRITE_CMD
    ensures Reply(aa, mtu, env, req).None? <==> Silent(aa, req)
    ensures !Silent(aa, req) ==> Answers(WRITE_CMD, Reply(aa, mtu, env, req).value)
  {
    assert req[1..][2..] == req[3..];
  }
}
