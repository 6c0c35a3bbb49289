/** The ATT server of one connection: each handler drives the bounded writer and
    is proved to send exactly what `Replies` says. */
module Server {
  import opened Bytes
  import opened Att
  import opened AttributeTable
  import opened ResponseWriters
  import opened Replies

  /** Lets a handler of one subscription send until it is stopped. */
  class Notifier {
    const h: nat
    const vh: nat
    const maxLen: int
    var done: bool

    constructor (h: nat, vh: nat, maxLen: int)
      ensures this.h == h && this.vh == vh && this.maxLen == maxLen && !done
    {
      this.h, this.vh, this.maxLen, done := h, vh, maxLen, false;
    }

    method Stop()
      modifies this
      ensures done
    {
      done := true;
    }
  }

  /** A list response holding `b`, completed from attribute `i` on with entries of size `n`. */
  ghost function Fill(q: Query, aa: seq<Attr>, i: nat, n: nat, b: bytes, mtu: nat): bytes
    requires i <= |aa|
    decreases |aa| - i
  {
    if i == |aa| then b
    else if !Wanted(q, aa[i]) then Fill(q, aa, i + 1, n, b, mtu)
    else if |Entry(q, aa[i])| != n || |b| + n > mtu then b
    else Fill(q, aa, i + 1, n, b + Entry(q, aa[i]), mtu)
  }

  lemma {:induction false} FillIsFit(q: Query, aa: seq<Attr>, i: nat, n: nat, b: bytes, mtu: nat)
    requires i <= |aa| && |b| <= mtu
    ensures Fill(q, aa, i, n, b, mtu) == b + Flatten(Fit(Select(q, aa[i..]), n, mtu - |b|))
    decreases |aa| - i
  {
    hide Entry, Wanted;
    if i < |aa| {
      assert aa[i..][0] == aa[i] && aa[i..][1..] == aa[i + 1..];
      var es := Select(q, aa[i + 1..]);
      if !Wanted(q, aa[i]) {
        FillIsFit(q, aa, i + 1, n, b, mtu);
      } else {
        var e := Entry(q, aa[i]);
        assert Select(q, aa[i..]) == [e] + es && ([e] + es)[1..] == es;
        if |e| == n && |b| + n <= mtu {
          FillIsFit(q, aa, i + 1, n, b + e, mtu);
          var f := Fit(es, n, mtu - |b| - n);
          assert ([e] + f)[1..] == f;
          Assoc(b, e, Flatten(f));
        }
      }
    }
  }

  lemma FillEnd(q: Query, aa: seq<Attr>, n: nat, b: bytes, mtu: nat)
    ensures Fill(q, aa, |aa|, n, b, mtu) == b
  {}

  /** What attribute `i` adds to a list. */
  lemma FillStep(q: Query, aa: seq<Attr>, i: nat, n: nat, b: bytes, mtu: nat)
    requires i < |aa|
    ensures Fill(q, aa, i, n, b, mtu) ==
      if !Wanted(q, aa[i]) then Fill(q, aa, i + 1, n, b, mtu)
      else if |Entry(q, aa[i])| != n || |b| + n > mtu then b
      else Fill(q, aa, i + 1, n, b + Entry(q, aa[i]), mtu)
  {}

  lemma ValueEntry(q: Query, a: Attr)
    requires q.Types?
    ensures Entry(q, a) == Le16(a.h) + ValueOf(a, q.cap, 0, q.env)
  {}

  lemma InfoEntry(a: Attr)
    ensures Entry(Info, a) == Le16(a.h) + a.typ
  {}

  lemma ServiceEntry(a: Attr)
    requires a.pvt.OfService? && a.value.Some?
    ensures Entry(Groups, a) == Le16(a.pvt.sh) + Le16(a.pvt.endh) + a.value.value
  {}

  /** Nothing before attribute `i` is wanted. */
  predicate NoneBefore(q: Query, aa: seq<Attr>, i: nat) { i <= |aa| && Select(q, aa[i..]) == Select(q, aa) }

  lemma NoneYet(q: Query, aa: seq<Attr>)
    ensures NoneBefore(q, aa, 0)
  {
    assert aa[0..] == aa;
  }

  /** The response, once the first wanted attribute `i` is known and the header written. */
  lemma ListStart(q: Query, aa: seq<Attr>, i: nat, start: nat, mtu: nat, n: nat, b: bytes)
    requires mtu >= DEFAULT_MTU && !q.ServicesWith?
    requires i < |aa| && Wanted(q, aa[i]) && NoneBefore(q, aa, i)
    requires n == |Entry(q, aa[i])|
    requires b == [RespFor(ListOp(q))] + [if !q.Info? then Low(n) else if n == 4 then 1 else 2]
    ensures ListReply(q, aa, start, mtu) == Fill(q, aa, i, n, b, mtu)
  {
    hide Entry, Fill;
    assert aa[i..][0] == aa[i];
    assert b == Header(q, n);
    FillIsFit(q, aa, i, n, b, mtu);
  }

  /** Byte addition wraps. */
  lemma LowAdd(a: nat, b: nat)
    ensures (Low(a) + b) % 0x100 == Low(a + b)
  {}

  lemma ListEmpty(q: Query, aa: seq<Attr>, i: nat, start: nat, mtu: nat)
    requires mtu >= DEFAULT_MTU && i == |aa| && NoneBefore(q, aa, i)
    ensures ListReply(q, aa, start, mtu) == ErrorResp(ListOp(q), start, ATTR_NOT_FOUND)
  {}

  /** Attributes that are not wanted leave no trace in the selection. */
  lemma SelectSkip(q: Query, aa: seq<Attr>, i: nat)
    requires i < |aa| && !Wanted(q, aa[i]) && NoneBefore(q, aa, i)
    ensures NoneBefore(q, aa, i + 1)
  {
    assert aa[i..][0] == aa[i] && aa[i..][1..] == aa[i + 1..];
  }

  /** One handle and a value as a chunk of the response: all of it or nothing. */
  method WriteHandleAnd(w: L2capWriter, h: nat, x: bytes) returns (ok: bool)
    requires w.Valid() && !w.chunked && w.chunk == []
    modifies w
    ensures w.Valid() && !w.chunked && w.chunk == []
    ensures ok == (|old(w.b)| + |Le16(h) + x| <= w.mtu)
    ensures w.b == if ok then old(w.b) + (Le16(h) + x) else old(w.b)
  {
    w.Chunk();
    ok := w.WriteUint16Fit(h);
    ok := w.WriteFit(x);
    assert w.chunk == Le16(h) + x;
    ok := w.Commit();
  }

  /** A service's handle range as a chunk of the response. */
  method WriteRange(w: L2capWriter, h: nat, endh: nat) returns (ok: bool)
    requires w.Valid() && !w.chunked && w.chunk == []
    modifies w
    ensures w.Valid() && !w.chunked && w.chunk == []
    ensures ok == (|old(w.b)| + |Le16(h) + Le16(endh)| <= w.mtu)
    ensures w.b == if ok then old(w.b) + (Le16(h) + Le16(endh)) else old(w.b)
  {
    w.Chunk();
    ok := w.WriteUint16Fit(h);
    ok := w.WriteUint16Fit(endh);
    assert w.chunk == Le16(h) + Le16(endh);
    ok := w.Commit();
  }

  /** A service's handle range and a value as a chunk of the response. */
  method WriteRangeAnd(w: L2capWriter, h: nat, endh: nat, x: bytes) returns (ok: bool)
    requires w.Valid() && !w.chunked && w.chunk == []
    modifies w
    ensures w.Valid() && !w.chunked && w.chunk == []
    ensures ok == (|old(w.b)| + |Le16(h) + Le16(endh) + x| <= w.mtu)
    ensures w.b == if ok then old(w.b) + (Le16(h) + Le16(endh) + x) else old(w.b)
  {
    w.Chunk();
    ok := w.WriteUint16Fit(h);
    ok := w.WriteUint16Fit(endh);
    ok := w.WriteFit(x);
    assert w.chunk == Le16(h) + Le16(endh) + x;
    ok := w.Commit();
  }

  /** The loop of `HandleFindInfo` over the attributes in range. */
  method FindInfoIn(aa: seq<Attr>, start: nat, mtu: nat) returns (resp: bytes)
    requires mtu >= DEFAULT_MTU
    ensures resp == ListReply(Info, aa, start, mtu)
  {
    hide ListReply, NoneBefore, Fill, Entry, Le16, Low, High;
    ghost var n: nat := 0;
    var w := new L2capWriter(mtu);
    var ok := w.WriteByteFit(FIND_INFO_RESP);
    var uuidLen := -1;
    var i := 0;
    NoneYet(Info, aa);
    while i < |aa|
      invariant 0 <= i <= |aa| && w.Valid() && w.mtu == mtu && !w.chunked && w.chunk == []
      invariant uuidLen == -1 ==> i == 0 && n == 0 && w.b == [FIND_INFO_RESP]
      invariant uuidLen != -1 ==> uuidLen >= 0 && n == uuidLen + 2
      invariant n > 0 ==> ListReply(Info, aa, start, mtu) == Fill(Info, aa, i, n, w.b, mtu)
    {
      var a := aa[i];
      InfoEntry(a);
      if uuidLen == -1 {
        uuidLen := |a.typ|;
        ok := w.WriteByteFit(if uuidLen == 2 then 0x01 else 0x02);
        n := uuidLen + 2;
        ListStart(Info, aa, 0, start, mtu, n, w.b);
      }
      FillStep(Info, aa, i, n, w.b, mtu);
      if |a.typ| != uuidLen { break; }
      ok := WriteHandleAnd(w, a.h, a.typ);
      if !ok { break; }
      i := i + 1;
    }
    FillEnd(Info, aa, n, w.b, mtu);
    if uuidLen == -1 {
      ListEmpty(Info, aa, i, start, mtu);
      return ErrorResp(FIND_INFO_REQ, start, ATTR_NOT_FOUND);
    }
    resp := w.Bytes();
  }

  /** The loop of `HandleFindByTypeValue` over the attributes in range. */
  method FindServicesIn(aa: seq<Attr>, u: bytes, start: nat, mtu: nat) returns (resp: bytes)
    requires mtu >= DEFAULT_MTU && Typed(aa)
    ensures resp == ListReply(ServicesWith(u), aa, start, mtu)
  {
    ghost var q := ServicesWith(u);
    var w := new L2capWriter(mtu);
    var ok := w.WriteByteFit(FIND_BY_TYPE_VALUE_RESP);
    var wrote := false;
    var i := 0;
    assert w.b == [FIND_BY_TYPE_VALUE_RESP];
    ServiceSearch(u, aa, start, mtu);
    while i < |aa|
      invariant 0 <= i <= |aa| && w.Valid() && w.mtu == mtu && !w.chunked && w.chunk == []
      invariant wrote == (|w.b| > 1) && w.b != [] && w.b[0] == FIND_BY_TYPE_VALUE_RESP
      invariant Fill(q, aa, i, 4, w.b, mtu) == Fill(q, aa, 0, 4, [FIND_BY_TYPE_VALUE_RESP], mtu)
    {
      var a := aa[i];
      i := i + 1;
      if a.typ != PRIMARY_SERVICE { continue; }
      if a.value != Some(u) { continue; }
      assert TypedAttr(a);
      ok := WriteRange(w, a.pvt.sh, a.pvt.endh);
      if !ok { break; }
      wrote := true;
    }
    if !wrote {
      return ErrorResp(FIND_BY_TYPE_VALUE_REQ, start, ATTR_NOT_FOUND);
    }
    resp := w.Bytes();
  }

  lemma ServiceSearch(u: bytes, aa: seq<Attr>, start: nat, mtu: nat)
    requires mtu >= DEFAULT_MTU && Typed(aa)
    ensures var q := ServicesWith(u);
      var b := Fill(q, aa, 0, 4, [FIND_BY_TYPE_VALUE_RESP], mtu);
      && |b| >= 1
      && ListReply(q, aa, start, mtu) ==
         if |b| > 1 then b else ErrorResp(FIND_BY_TYPE_VALUE_REQ, start, ATTR_NOT_FOUND)
  {
    var q := ServicesWith(u);
    var es := Select(q, aa);
    assert aa[0..] == aa;
    FillIsFit(q, aa, 0, 4, [FIND_BY_TYPE_VALUE_RESP], mtu);
    if es != [] {
      SelectSizes(q, aa);
      assert EntrySizeOk(q, |es[0]|);
    }
  }

  /** The loop of `HandleReadByGroup` over the attributes in range. */
  method GroupsIn(aa: seq<Attr>, start: nat, mtu: nat) returns (resp: bytes)
    requires mtu >= DEFAULT_MTU && Typed(aa)
    ensures resp == ListReply(Groups, aa, start, mtu)
  {
    hide ListReply, NoneBefore, Fill, Entry, Le16, Low, High;
    ghost var n: nat := 0;
    var w := new L2capWriter(mtu);
    var ok := w.WriteByteFit(READ_BY_GROUP_RESP);
    var uuidLen := -1;
    var i := 0;
    NoneYet(Groups, aa);
    while i < |aa|
      invariant 0 <= i <= |aa| && w.Valid() && w.mtu == mtu && !w.chunked && w.chunk == []
      invariant uuidLen == -1 ==> n == 0 && w.b == [READ_BY_GROUP_RESP] && NoneBefore(Groups, aa, i)
      invariant uuidLen != -1 ==> uuidLen >= 0 && n == uuidLen + 4
      invariant n > 0 ==> ListReply(Groups, aa, start, mtu) == Fill(Groups, aa, i, n, w.b, mtu)
    {
      var a := aa[i];
      if a.typ != PRIMARY_SERVICE {
        if n == 0 {
          SelectSkip(Groups, aa, i);
        }
        FillStep(Groups, aa, i, n, w.b, mtu);
        i := i + 1;
        continue;
      }
      assert TypedAttr(a);
      ServiceEntry(a);
      if uuidLen == -1 {
        uuidLen := |a.value.value|;
        ok := w.WriteByteFit(Low(uuidLen + 4));
        n := uuidLen + 4;
        ListStart(Groups, aa, i, start, mtu, n, w.b);
      }
      FillStep(Groups, aa, i, n, w.b, mtu);
      if uuidLen != |a.value.value| { break; }
      ok := WriteRangeAnd(w, a.pvt.sh, a.pvt.endh, a.value.value);
      if !ok { break; }
      i := i + 1;
    }
    FillEnd(Groups, aa, n, w.b, mtu);
    if uuidLen == -1 {
      ListEmpty(Groups, aa, i, start, mtu);
      return ErrorResp(READ_BY_GROUP_REQ, start, ATTR_NOT_FOUND);
    }
    resp := w.Bytes();
  }

  /** A static value, or what the read handler writes. */
  method ReadValue(a: Attr, cap: nat, offset: nat, env: Env) returns (v: bytes)
    requires Readable(a)
    ensures v == ValueOf(a, cap, offset, env)
  {
    if a.value.Some? {
      return a.value.value;
    }
    var w := new ResponseWriter(cap);
    w.Serve(env.read(a.h, cap, offset));
    v := w.buf;
  }

  /** Every attribute whose value the loop asks for, before the reply is full or an entry of
      another size ends it, has a value or a handler; `n` is the size of the entries, 0 before
      the first, and `used` the length of the reply, which the size is added to. */
  predicate Installed(q: Query, aa: seq<Attr>, i: nat, n: nat, used: nat, mtu: nat)
    requires i <= |aa|
    decreases |aa| - i
  {
    if i == |aa| then true
    else if !Wanted(q, aa[i]) then Installed(q, aa, i + 1, n, used, mtu)
    else
      var l := |Entry(q, aa[i])|;
      var more := used + l + if n == 0 then 1 else 0;
      Readable(aa[i]) && ((n == 0 || l == n) && more <= mtu ==> Installed(q, aa, i + 1, l, more, mtu))
  }

  /** It is enough that all attributes of the type in range are readable. */
  lemma {:induction false} AllInstalled(q: Query, aa: seq<Attr>, i: nat, n: nat, used: nat, mtu: nat)
    requires i <= |aa| && forall a :: a in aa && Wanted(q, a) ==> Readable(a)
    ensures Installed(q, aa, i, n, used, mtu)
    decreases |aa| - i
  {
    if i < |aa| {
      var l := |Entry(q, aa[i])|;
      AllInstalled(q, aa, i + 1, n, used, mtu);
      AllInstalled(q, aa, i + 1, l, used + l + if n == 0 then 1 else 0, mtu);
    }
  }

  /** A request on which the server does not panic: a Read By Type needs values or handlers
      only as far as its loop goes. */
  ghost predicate Handleable(aa: seq<Attr>, mtu: nat, env: Env, req: bytes): (r: bool)
    ensures r ==> LongEnough(req)
  {
    && LongEnough(req)
    && var b := req[1..];
    if req[0] != READ_BY_TYPE_REQ then Answerable(aa, req)
    else
      && mtu >= DEFAULT_MTU && !Backwards(aa, Word(b), Word(b[2..]))
      && Installed(Types(b[4..], mtu - 1, env), Scan(aa, Word(b), Word(b[2..])), 0, 0, 1, mtu)
  }

  lemma AnswerableIsHandleable(aa: seq<Attr>, mtu: nat, env: Env, req: bytes)
    requires mtu >= DEFAULT_MTU && Answerable(aa, req)
    ensures Handleable(aa, mtu, env, req)
  {
    if req[0] == READ_BY_TYPE_REQ {
      var b := req[1..];
      ScanKeeps(aa, Word(b), Word(b[2..]));
      AllInstalled(Types(b[4..], mtu - 1, env), Scan(aa, Word(b), Word(b[2..])), 0, 0, 1, mtu);
    }
  }

  /** What one attribute asks for. */
  lemma InstalledStep(q: Query, aa: seq<Attr>, i: nat, n: nat, used: nat, mtu: nat)
    requires i < |aa| && q.Types? && Installed(q, aa, i, n, used, mtu)
    ensures if !Wanted(q, aa[i]) then Installed(q, aa, i + 1, n, used, mtu)
            else
              var l := 2 + |ValueOf(aa[i], q.cap, 0, q.env)|;
              var more := used + l + if n == 0 then 1 else 0;
              Readable(aa[i]) && ((n == 0 || l == n) && more <= mtu ==> Installed(q, aa, i + 1, l, more, mtu))
  {}

  /** One value into the response, the first one after the size of all entries: written
      exactly when it has that size and fits. */
  method PutValue(w: L2capWriter, h: nat, v: bytes, uuidLen: int) returns (size: int, ok: bool)
    requires w.Valid() && !w.chunked && w.chunk == [] && (uuidLen == -1 ==> |w.b| < w.mtu)
    modifies w
    ensures w.Valid() && !w.chunked && w.chunk == [] && size == if uuidLen == -1 then |v| else uuidLen
    ensures var b := if uuidLen == -1 then old(w.b) + [Low(|v| + 2)] else old(w.b);
      && ok == (|v| == size && |b| + 2 + |v| <= w.mtu)
      && w.b == if ok then b + (Le16(h) + v) else b
  {
    size := uuidLen;
    if size == -1 {
      size := |v|;
      LowAdd(size, 2);
      ok := w.WriteByteFit((Low(size) + 2) % 0x100);
    }
    ok := |v| == size;
    if !ok {
      return;
    }
    ok := WriteHandleAnd(w, h, v);
  }

  /** The loop of `HandleReadByType` over the attributes in range. */
  method TypesIn(aa: seq<Attr>, t: bytes, start: nat, mtu: nat, env: Env) returns (resp: bytes)
    requires mtu >= DEFAULT_MTU
    requires Installed(Types(t, mtu - 1, env), aa, 0, 0, 1, mtu)
    ensures resp == ListReply(Types(t, mtu - 1, env), aa, start, mtu)
  {
    hide ListReply, NoneBefore, ValueOf, Fill, Entry, Installed, Le16, Low, High;
    ghost var q, n: nat := Types(t, mtu - 1, env), 0;
    var w := new L2capWriter(mtu);
    var ok := w.WriteByteFit(READ_BY_TYPE_RESP);
    var uuidLen := -1;
    var i := 0;
    NoneYet(q, aa);
    while i < |aa|
      invariant 0 <= i <= |aa| && w.Valid() && w.mtu == mtu && !w.chunked && w.chunk == []
      invariant uuidLen == -1 ==> n == 0 && w.b == [READ_BY_TYPE_RESP] && NoneBefore(q, aa, i)
      invariant uuidLen != -1 ==> uuidLen >= 0 && n == uuidLen + 2
      invariant n > 0 ==> ListReply(q, aa, start, mtu) == Fill(q, aa, i, n, w.b, mtu)
      invariant Installed(q, aa, i, n, |w.b|, mtu)
    {
      var a := aa[i];
      InstalledStep(q, aa, i, n, |w.b|, mtu);
      if a.typ != t {
        if n == 0 {
          SelectSkip(q, aa, i);
        }
        FillStep(q, aa, i, n, w.b, mtu);
        i := i + 1;
        continue;
      }
      var v := ReadValue(a, mtu - 1, 0, env);
      ValueEntry(q, a);
      ghost var b := w.b;
      if uuidLen == -1 {
        n, b := |v| + 2, [RespFor(ListOp(q)), Low(|v| + 2)];
        ListStart(q, aa, i, start, mtu, n, b);
      }
      FillStep(q, aa, i, n, b, mtu);
      uuidLen, ok := PutValue(w, a.h, v, uuidLen);
      if !ok { break; }
      i := i + 1;
    }
    FillEnd(q, aa, n, w.b, mtu);
    if uuidLen == -1 {
      ListEmpty(q, aa, i, start, mtu);
      return ErrorResp(READ_BY_TYPE_REQ, start, ATTR_NOT_FOUND);
    }
    resp := w.Bytes();
  }

  /** The end of `HandleRead`: as much of the value as fits. */
  method ReadResponse(v: bytes, mtu: nat) returns (resp: bytes)
    requires mtu >= DEFAULT_MTU
    ensures resp == [READ_RESP] + v[..Min(|v|, mtu - 1)]
  {
    var w := new L2capWriter(mtu);
    var ok := w.WriteByteFit(READ_RESP);
    assert w.b == [READ_RESP];
    w.Chunk();
    ok := w.WriteFit(v);
    assert w.chunk == v;
    w.CommitFit();
    resp := w.Bytes();
  }

  /** The end of `HandleReadBlob`: as much as fits from `offset` on. */
  method BlobResponse(v: bytes, h: nat, offset: nat, mtu: nat) returns (resp: bytes)
    requires mtu >= DEFAULT_MTU
    ensures resp ==
      if |v| < offset then ErrorResp(READ_BLOB_REQ, h, INVALID_OFFSET)
      else [READ_BLOB_RESP] + v[offset..][..Min(|v| - offset, mtu - 1)]
  {
    var w := new L2capWriter(mtu);
    var ok := w.WriteByteFit(READ_BLOB_RESP);
    assert w.b == [READ_BLOB_RESP];
    w.Chunk();
    ok := w.WriteFit(v);
    assert w.chunk == v;
    ok := w.ChunkSeek(offset);
    if !ok {
      return ErrorResp(READ_BLOB_REQ, h, INVALID_OFFSET);
    }
    w.CommitFit();
    resp := w.Bytes();
  }

  lemma ScanTyped(aa: seq<Attr>, start: nat, end: nat)
    requires Typed(aa)
    ensures Typed(Scan(aa, start, end))
  {
    ScanKeeps(aa, start, end);
    var s := Scan(aa, start, end);
    forall i | 0 <= i < |s| ensures TypedAttr(s[i]) {
      assert s[i] in aa;
    }
  }

  class Central {
    const attrs: AttrRange
    var mtu: nat
    var notifiers: map<nat, Notifier>
    var sent: seq<bytes>      // what was written to the L2CAP connection
    var open: bool

    /** Live subscriptions are registered under the handle of their CCC descriptor. */
    ghost predicate Valid()
      reads this, notifiers.Values
    {
      && Indexed(attrs.aa, attrs.base) && Typed(attrs.aa)
      && DEFAULT_MTU <= mtu <= MAX_MTU
      && (forall h :: h in notifiers ==> notifiers[h].h == h && (open ==> !notifiers[h].done))
    }

    constructor (attrs: AttrRange)
      requires Indexed(attrs.aa, attrs.base) && Typed(attrs.aa)
      ensures Valid() && this.attrs == attrs && mtu == DEFAULT_MTU
      ensures notifiers == map[] && sent == [] && open
    {
      this.attrs, mtu, notifiers, sent, open := attrs, DEFAULT_MTU, map[], [], true;
    }

    /** The server's MTU stays within 23..256. */
    method HandleMtu(b: bytes) returns (resp: bytes)
      requires Valid() && |b| >= 2
      modifies this`mtu
      ensures Valid() && mtu == Clamp(Word(b)) && resp == [MTU_RESP] + Le16(mtu)
      ensures mtu == if Word(b) < 23 then 23 else if Word(b) > 256 then 256 else Word(b)
    {
      mtu := Word(b);
      if mtu < 23 {
        mtu := 23;
      }
      if mtu >= 256 {
        mtu := 256;
      }
      return [MTU_RESP, Low(mtu), High(mtu)];
    }

    /** The attributes a range request walks: the slice does not panic and is a scan. */
    method Range(start: nat, end: nat) returns (aa: seq<Attr>)
      requires Valid() && !Backwards(attrs.aa, start, end)
      ensures aa == Scan(attrs.aa, start, end) && Typed(aa)
    {
      SubrangeIsScan(attrs, start, end);
      ScanTyped(attrs.aa, start, end);
      aa := attrs.Subrange(start, end).value;
    }

    method HandleFindInfo(b: bytes) returns (resp: bytes)
      requires Valid() && |b| >= 4 && !Backwards(attrs.aa, Word(b), Word(b[2..]))
      ensures resp == ListReply(Info, Scan(attrs.aa, Word(b), Word(b[2..])), Word(b), mtu)
    {
      var aa := Range(Word(b), Word(b[2..]));
      resp := FindInfoIn(aa, Word(b), mtu);
    }

    method HandleFindByTypeValue(b: bytes) returns (resp: bytes)
      requires Valid() && |b| >= 6
      requires b[4..6] == PRIMARY_SERVICE ==> !Backwards(attrs.aa, Word(b), Word(b[2..]))
      ensures resp ==
        if b[4..6] != PRIMARY_SERVICE then ErrorResp(FIND_BY_TYPE_VALUE_REQ, Word(b), ATTR_NOT_FOUND)
        else ListReply(ServicesWith(b[6..]), Scan(attrs.aa, Word(b), Word(b[2..])), Word(b), mtu)
    {
      if b[4..6] != PRIMARY_SERVICE {
        return ErrorResp(FIND_BY_TYPE_VALUE_REQ, Word(b), ATTR_NOT_FOUND);
      }
      var aa := Range(Word(b), Word(b[2..]));
      resp := FindServicesIn(aa, b[6..], Word(b), mtu);
    }

    method HandleReadByType(b: bytes, env: Env) returns (resp: bytes)
      requires Valid() && |b| >= 4 && !Backwards(attrs.aa, Word(b), Word(b[2..]))
      requires Installed(Types(b[4..], mtu - 1, env), Scan(attrs.aa, Word(b), Word(b[2..])), 0, 0, 1, mtu)
      ensures resp == ListReply(Types(b[4..], mtu - 1, env), Scan(attrs.aa, Word(b), Word(b[2..])), Word(b), mtu)
    {
      var aa := Range(Word(b), Word(b[2..]));
      resp := TypesIn(aa, b[4..], Word(b), mtu, env);
    }

    method HandleReadByGroup(b: bytes) returns (resp: bytes)
      requires Valid() && |b| >= 4
      requires b[4..] == PRIMARY_SERVICE ==> !Backwards(attrs.aa, Word(b), Word(b[2..]))
      ensures resp ==
        if b[4..] != PRIMARY_SERVICE then ErrorResp(READ_BY_GROUP_REQ, Word(b), UNSUPP_GRP_TYPE)
        else ListReply(Groups, Scan(attrs.aa, Word(b), Word(b[2..])), Word(b), mtu)
    {
      if b[4..] != PRIMARY_SERVICE {
        return ErrorResp(READ_BY_GROUP_REQ, Word(b), UNSUPP_GRP_TYPE);
      }
      var aa := Range(Word(b), Word(b[2..]));
      resp := GroupsIn(aa, Word(b), mtu);
    }

    method At(h: nat) returns (a: Option<Attr>)
      requires Valid()
      ensures a == Find(attrs.aa, h)
      ensures a.Some? ==> a.value in attrs.aa && a.value.h == h && TypedAttr(a.value)
    {
      FindIsAt(attrs.aa, attrs.base, h);
      a := attrs.At(h);
    }

    method HandleRead(b: bytes, env: Env) returns (resp: bytes)
      requires Valid() && |b| >= 2
      requires forall a :: a in attrs.aa && a.h == Word(b) && Has(a.props, CHAR_READ) ==> Readable(a)
      ensures resp == ReadReply(Find(attrs.aa, Word(b)), Word(b), mtu, env)
    {
      var h := Word(b);
      var a := At(h);
      if a.None? {
        return ErrorResp(READ_REQ, h, INVALID_HANDLE);
      }
      if !Has(a.value.props, CHAR_READ) {
        return ErrorResp(READ_REQ, h, READ_NOT_PERM);
      }
      var v := ReadValue(a.value, mtu - 1, 0, env);
      resp := ReadResponse(v, mtu);
    }

    method HandleReadBlob(b: bytes, env: Env) returns (resp: bytes)
      requires Valid() && |b| >= 4
      requires forall a :: a in attrs.aa && a.h == Word(b) && Has(a.props, CHAR_READ) ==> Readable(a)
      ensures resp == ReadBlobReply(Find(attrs.aa, Word(b)), Word(b), Word(b[2..]), mtu, env)
    {
      var h, offset := Word(b), Word(b[2..]);
      var a := At(h);
      if a.None? {
        return ErrorResp(READ_BLOB_REQ, h, INVALID_HANDLE);
      }
      if !Has(a.value.props, CHAR_READ) {
        return ErrorResp(READ_BLOB_REQ, h, READ_NOT_PERM);
      }
      var v := ReadValue(a.value, mtu - 1, offset, env);
      if a.value.value.None? {
        offset := 0;
      }
      resp := BlobResponse(v, h, offset, mtu);
    }

    // ------------------------------------------------ writes, subscriptions

    /** What change `c` did to the subscriptions: a repeated start keeps the notifier
        already there, a stop ends and removes it, and no other notifier is touched. */
    twostate predicate Changed(c: Change, was: map<nat, Notifier>)
      reads this, was.Values, notifiers.Values
    {
      && (match c
          case NoChange => notifiers == was
          case Start(h, cvh) =>
            && h in notifiers && notifiers == was[h := notifiers[h]]
            && (h in was ==> notifiers[h] == was[h])
            && (h !in was ==>
                  && notifiers[h].h == h && notifiers[h].vh == cvh && notifiers[h].maxLen == old(mtu) - 3
                  && !notifiers[h].done)
          case Stop(h) => notifiers == was - {h} && (h in was ==> was[h].done))
      && (forall k :: k in was && c != Stop(k) ==> was[k].done == old(was[k].done))
    }

    method StartNotify(a: Attr, maxLen: int)
      requires Valid() && a.pvt.OfDesc? && maxLen == mtu - 3
      modifies this`notifiers
      ensures Valid() && Changed(Start(a.h, a.pvt.cvh), old(notifiers))
      ensures fresh(notifiers.Values - old(notifiers.Values))
    {
      if a.h in notifiers {
        return;
      }
      var n := new Notifier(a.h, a.pvt.cvh, maxLen);
      notifiers := notifiers[a.h := n];
    }

    method StopNotify(a: Attr)
      requires Valid()
      modifies this`notifiers, notifiers.Values
      ensures Valid() && Changed(Stop(a.h), old(notifiers))
    {
      if a.h in notifiers {
        notifiers[a.h].Stop();
        notifiers := notifiers - {a.h};
      }
    }

    method HandleWrite(op: byte, b: bytes, env: Env) returns (resp: Option<bytes>)
      requires Valid() && |b| >= 2
      requires forall a :: a in attrs.aa && a.h == Word(b) && ReachesWriteHandler(op, a) ==> a.hasWrite
      modifies this`notifiers, notifiers.Values
      ensures Valid() && Changed(WriteChange(op, Find(attrs.aa, Word(b)), b[2..]), old(notifiers))
      ensures fresh(notifiers.Values - old(notifiers.Values))
      ensures resp == WriteReply(op, Find(attrs.aa, Word(b)), Word(b), b[2..], env)
    {
      var h, value := Word(b), b[2..];
      var a := At(h);
      if a.None? {
        return Some(ErrorResp(op, h, INVALID_HANDLE));
      }
      var noResp := op == WRITE_CMD;
      if !Has(a.value.props, if noResp then CHAR_WRITE_NR else CHAR_WRITE) {
        return Some(ErrorResp(op, h, WRITE_NOT_PERM));
      }
      if a.value.typ != CLIENT_CONFIG {
        var result: byte := 0;
        if a.value.pvt.OfChar? {
          assert a.value.hasWrite;
          result := env.write(a.value.pvt.ch, value);
        }
        if noResp {
          return None;
        }
        if result == 0 {
          return Some([WRITE_RESP]);
        }
        return Some(ErrorResp(op, h, result));
      }
      if |value| != 2 {
        return Some(ErrorResp(op, h, INVAL_ATTR_VALUE_LEN));
      }
      var ccc := Word(value);
      if ccc % 4 != 0 {
        StartNotify(a.value, mtu - 3);
      } else {
        StopNotify(a.value);
      }
      return if noResp then None else Some([WRITE_RESP]);
    }

    method HandleReq(b: bytes, env: Env) returns (resp: Option<bytes>)
      requires Valid() && Handleable(attrs.aa, mtu, env, b)
      modifies this`mtu, this`notifiers, notifiers.Values
      ensures Valid() && mtu == NextMtu(old(mtu), b) && Changed(ChangeOf(attrs.aa, b), old(notifiers))
      ensures fresh(notifiers.Values - old(notifiers.Values))
      ensures resp == Reply(attrs.aa, old(mtu), env, b)
    {
      hide ListReply, ReadReply, ReadBlobReply, WriteReply, WriteChange, Backwards, Clamp;
      var op, req := b[0], b[1..];
      var r: bytes;
      if op == MTU_REQ {
        r := HandleMtu(req);
      } else if op == FIND_INFO_REQ {
        r := HandleFindInfo(req);
      } else if op == FIND_BY_TYPE_VALUE_REQ {
        r := HandleFindByTypeValue(req);
      } else if op == READ_BY_TYPE_REQ {
        hide Installed;
        r := HandleReadByType(req, env);
      } else if op == READ_REQ {
        r := HandleRead(req, env);
      } else if op == READ_BLOB_REQ {
        r := HandleReadBlob(req, env);
      } else if op == READ_BY_GROUP_REQ {
        r := HandleReadByGroup(req);
      } else if op == WRITE_REQ || op == WRITE_CMD {
        resp := HandleWrite(op, req, env);
        assert b[1..][2..] == b[3..];
        return;
      } else {
        r := ErrorResp(op, 0, REQ_NOT_SUPP);
      }
      return Some(r);
    }

    // ------------------------------------------------------- notifications

    method SendNotification(vh: nat, data: bytes) returns (n: int)
      requires Valid()
      modifies this`sent
      ensures sent == old(sent) + [Notification(vh, data, mtu)] && ReadsAs(sent[|old(sent)|], vh, data, mtu)
      ensures n == Min(|data|, mtu - 3)
    {
      var w := new L2capWriter(mtu);
      var added := 0;
      var ok := w.WriteByteFit(HANDLE_NOTIFY);
      if ok {
        added := added + 1;
      }
      ok := w.WriteUint16Fit(vh);
      if ok {
        added := added + 2;
      }
      assert Le16(vh)[..2] == Le16(vh);
      assert w.b == [HANDLE_NOTIFY] + Le16(vh);
      ok := w.WriteFit(data);
      var pdu := w.Bytes();
      sent := sent + [pdu];
      n := |pdu| - added;
    }

    /** A handler's write: `None` is the error of a stopped subscription. */
    method Notify(n: Notifier, data: bytes) returns (written: Option<int>)
      requires Valid()
      modifies this`sent
      ensures n.done ==> written == None && sent == old(sent)
      ensures !n.done ==> written == Some(Min(|data|, mtu - 3))
      ensures !n.done ==>
        sent == old(sent) + [Notification(n.vh, data, mtu)] && ReadsAs(sent[|old(sent)|], n.vh, data, mtu)
    {
      if n.done {
        return None;
      }
      var k := SendNotification(n.vh, data);
      return Some(k);
    }

    method Close()
      requires Valid()
      modifies this`open, notifiers.Values
      ensures Valid() && !open
      ensures forall h :: h in notifiers ==> notifiers[h].done
    {
      open := false;
      var keys := notifiers.Keys;
      while keys != {}
        invariant keys <= notifiers.Keys && !open
        invariant forall h :: h in notifiers && h !in keys ==> notifiers[h].done
        decreases keys
      {
        var h :| h in keys;
        notifiers[h].Stop();
        keys := keys - {h};
      }
    }

    /** One request, and its reply if there is one. */
    method ServeOne(pkt: bytes, env: Env)
      requires Valid() && Handleable(attrs.aa, mtu, env, pkt)
      modifies this`mtu, this`notifiers, this`sent, notifiers.Values
      ensures Valid() && fresh(notifiers.Values - old(notifiers.Values)) && mtu == NextMtu(old(mtu), pkt)
      ensures var r := Reply(attrs.aa, old(mtu), env, pkt);
        sent == old(sent) + if r.Some? then [r.value] else []
    {
      hide Handleable, Reply, NextMtu, ChangeOf, Changed;
      var resp := HandleReq(pkt, env);
      if resp.Some? {
        sent := sent + [resp.value];
      }
    }

    /** The first `k` packets are requests and have been served. */
    ghost predicate Ran(mtu0: nat, sent0: seq<bytes>, pkts: seq<bytes>, envs: seq<Env>, k: nat)
      requires k <= |pkts| == |envs| && DEFAULT_MTU <= mtu0 <= MAX_MTU
      reads this
    {
      && (forall i :: 0 <= i < k ==> !EndsLoop(pkts[i]) && LongEnough(pkts[i]))
      && (k < |pkts| ==> EndsLoop(pkts[k]))
      && mtu == MtuAfter(mtu0, pkts, k) && sent == sent0 + Replied(attrs.aa, mtu0, envs, pkts, k)
    }

    /** The serving loop over what the connection delivers; a read that is empty or does not
        fit the buffer ends it. */
    method Loop(pkts: seq<bytes>, envs: seq<Env>)
      requires Valid() && |envs| == |pkts|
      requires forall i :: 0 <= i < |pkts| ==>
        EndsLoop(pkts[i]) || Handleable(attrs.aa, MtuAfter(mtu, pkts, i), envs[i], pkts[i])
      modifies this`mtu, this`notifiers, this`sent, this`open, notifiers.Values
      ensures Valid()
      ensures exists k :: 0 <= k <= |pkts| && Ran(old(mtu), old(sent), pkts, envs, k)
      ensures (exists i :: 0 <= i < |pkts| && EndsLoop(pkts[i])) ==>
        !open && forall h :: h in notifiers ==> notifiers[h].done
    {
      hide Handleable, Reply, NextMtu, LongEnough;
      var k := 0;
      while k < |pkts|
        invariant 0 <= k <= |pkts| && (forall i :: 0 <= i < k ==> !EndsLoop(pkts[i]))
        invariant Valid() && fresh(notifiers.Values - old(notifiers.Values))
        invariant mtu == MtuAfter(old(mtu), pkts, k)
        invariant sent == old(sent) + Replied(attrs.aa, old(mtu), envs, pkts, k)
      {
        if EndsLoop(pkts[k]) {
          Close();
          break;
        }
        ServeOne(pkts[k], envs[k]);
        k := k + 1;
      }
      assert Ran(old(mtu), old(sent), pkts, envs, k);
    }
  }

  const READ_BUFFER: nat := 672

  predicate EndsLoop(pkt: bytes) { pkt == [] || |pkt| > READ_BUFFER }

  /** What a client makes of notification `r`: the handle, low octet first, then the data. */
  predicate ReadsAs(r: bytes, vh: nat, data: bytes, mtu: nat)
    requires mtu >= DEFAULT_MTU
  {
    && |r| >= 3 && r[0] == 0x1B && r[1] == vh % 0x100 && r[2] == vh / 0x100 % 0x100
    && r[3..] == data[..Min(|data|, mtu - 3)] && (vh <= 0xFFFF ==> Word(r[1..3]) == vh)
  }

  /** A notification PDU, cut to the MTU. */
  function Notification(vh: nat, data: bytes, mtu: nat): (r: bytes)
    requires mtu >= DEFAULT_MTU
    ensures 3 <= |r| <= mtu && r[0] == HANDLE_NOTIFY
    ensures ReadsAs(r, vh, data, mtu)
  {
    [HANDLE_NOTIFY] + Le16(vh) + data[..Min(|data|, mtu - 3)]
  }

  /** The MTU after the first `k` requests. */
  function MtuAfter(mtu: nat, reqs: seq<bytes>, k: nat): (m: nat)
    requires k <= |reqs|
    ensures DEFAULT_MTU <= mtu <= MAX_MTU ==> DEFAULT_MTU <= m <= MAX_MTU
  {
    if k == 0 then mtu else NextMtu(MtuAfter(mtu, reqs, k - 1), reqs[k - 1])
  }

  /** The replies written for the first `k` requests. */
  ghost function Replied(aa: seq<Attr>, mtu: nat, envs: seq<Env>, reqs: seq<bytes>, k: nat): seq<bytes>
    requires DEFAULT_MTU <= mtu <= MAX_MTU && k <= |reqs| == |envs|
    requires forall i :: 0 <= i < k ==> LongEnough(reqs[i])
  {
    if k == 0 then []
    else
      var r := Reply(aa, MtuAfter(mtu, reqs, k - 1), envs[k - 1], reqs[k - 1]);
      Replied(aa, mtu, envs, reqs, k - 1) + (if r.Some? then [r.value] else [])
  }

  /** Which of the first `k` requests get a reply. */
  function Awaiting(aa: seq<Attr>, reqs: seq<bytes>, k: nat): seq<nat>
    requires k <= |reqs| && forall i :: 0 <= i < k ==> reqs[i] != []
  {
    if k == 0 then []
    else Awaiting(aa, reqs, k - 1) +
         (if reqs[k - 1][0] == WRITE_CMD && Silent(aa, reqs[k - 1]) then [] else [k - 1])
  }

  /** In every run the replies are, in order, one for each request that awaits one; each is
      accepted by the client's matcher for its request and fits the MTU then in force. */
  lemma {:induction false} EveryRun(aa: seq<Attr>, mtu: nat, envs: seq<Env>, reqs: seq<bytes>, k: nat)
    requires DEFAULT_MTU <= mtu <= MAX_MTU && k <= |reqs| == |envs|
    requires forall i :: 0 <= i < k ==> LongEnough(reqs[i])
    ensures var out, js := Replied(aa, mtu, envs, reqs, k), Awaiting(aa, reqs, k);
      && |out| == |js|
      && forall i {:trigger out[i]} {:trigger js[i]} :: 0 <= i < |out| ==>
           0 <= js[i] < k && Answers(reqs[js[i]][0], out[i]) && |out[i]| <= MtuAfter(mtu, reqs, js[i] + 1)
  {
    hide Reply, NextMtu, Silent, RespFor;
    if k > 0 {
      EveryRun(aa, mtu, envs, reqs, k - 1);
      var m, req := MtuAfter(mtu, reqs, k - 1), reqs[k - 1];
      ReplyFits(aa, m, envs[k - 1], req);
      if req[0] == WRITE_CMD {
        CommandReply(aa, m, envs[k - 1], req);
      } else {
        EveryRequestIsAnswered(aa, m, envs[k - 1], req);
      }
    }
  }
}
