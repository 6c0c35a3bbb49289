/** The GATT client: the discovery loops, reads and the MTU exchange, run against
    the replies of a server. */
module Peripheral {
  import opened Bytes
  import opened Att
  import opened AttributeTable
  import opened Replies
  import opened Discovery
  import opened ClientRounds

  class Client {
    var services: seq<FoundService>
    var mtu: nat
    var peer: Peer
    ghost var asked: seq<bytes>

    /** The client never believes in a larger MTU than the server uses. */
    ghost predicate Valid()
      reads this`mtu, this`peer
    {
      mtu <= peer.mtu
    }

    /** A new connection: nothing is known and no MTU has been agreed on. */
    constructor (peer: Peer)
      ensures Valid() && this.peer == peer && mtu == 0 && services == [] && asked == []
    {
      this.peer, mtu, services, asked := peer, 0, [], [];
    }

    /** One request and its reply; the exchange itself is modelled in `Exchange`. */
    method SendReq(b: bytes) returns (r: bytes)
      requires peer.answer(peer.mtu, b).Some?
      modifies this`peer, this`asked
      ensures old(peer).answer(old(peer).mtu, b) == Some(r)
      ensures peer == old(peer).(mtu := NextMtu(old(peer).mtu, b))
      ensures asked == old(asked) + [b]
    {
      r := peer.answer(peer.mtu, b).value;
      peer := peer.(mtu := NextMtu(peer.mtu, b));
      asked := asked + [b];
    }

    // -------------------------------------------------- service discovery

    /** The inner loop of `DiscoverServices`: one reply, entries of `l` bytes. */
    method AddServices(reply: bytes, l: nat, ghost ss: seq<Service>) returns (start: nat, done: bool)
      requires ss != [] && (forall i :: 0 <= i < |ss| ==> Listed(ss[i], l)) && reply == GroupBytes(ss)
      modifies this`services
      ensures services == WithServices(old(services), ss)
      ensures done == (ss[|ss| - 1].endh == 0xFFFF) && start == (ss[|ss| - 1].endh + 1) % 0x10000
    {
      var b := reply;
      ghost var todo := ss;
      start, done := 0, false;
      while b != []
        invariant (forall i :: 0 <= i < |todo| ==> Listed(todo[i], l)) && b == GroupBytes(todo)
        invariant WithServices(services, todo) == WithServices(old(services), ss)
        invariant todo != [] ==> todo[|todo| - 1] == ss[|ss| - 1]
        invariant todo == [] ==>
          done == (ss[|ss| - 1].endh == 0xFFFF) && start == (ss[|ss| - 1].endh + 1) % 0x10000
        decreases |todo|
      {
        ServiceStep(todo, l);
        var endh: nat := Word(b[2..4]);
        services := services + [FoundService(b[4..l], Word(b[..2]), endh, [])];
        b := b[l..];
        done := endh == 0xFFFF;
        start := (endh + 1) % 0x10000;
        todo := todo[1..];
      }
    }

    /** One round of `DiscoverServices`: a request and what its reply lists. */
    method AskServices(start: nat, ghost ss: seq<Service>, ghost n: nat)
        returns (ok: bool, next: nat, done: bool, err: byte)
      requires ServicesAt(peer, start, ss, n)
      modifies this`services, this`peer, this`asked
      ensures ok && err == 0 && peer == old(peer) && services == WithServices(old(services), ss)
      ensures asked == old(asked) + [RangeReq(READ_BY_GROUP_REQ, start, 0xFFFF, PRIMARY_SERVICE)]
      ensures if ss == [] then done
              else done == (ss[|ss| - 1].endh == 0xFFFF) && next == (ss[|ss| - 1].endh + 1) % 0x10000
    {
      hide WithServices, GroupBytes, Listed, ServicesAt, RangeReq, Finish, NextMtu;
      NothingLeft(services);
      ghost var reply := ServicesParts(peer, start, ss, n);
      var op := READ_BY_GROUP_REQ;
      next := start;
      var b := SendReq(RangeReq(op, start, 0xFFFF, PRIMARY_SERVICE));
      var fin := Finish(op, start, b);
      done, err := fin.0, fin.1;
      ok := true;
      if done { return; }
      var l := b[1] as int;
      b := b[2..];
      if !(l == 6 && |b| % 6 == 0) && !(l == 20 && |b| % 20 == 0) {
        ok := false;
        return;
      }
      next, done := AddServices(b, l, ss);
    }

    method DiscoverServices(ghost p: seq<Service>, ghost env: Env)
        returns (ok: bool, err: byte, ghost reqs: seq<bytes>)
      requires Valid() && Served(p) && Serves(peer, TableAttrs(p, |p|), env)
      modifies this`services, this`peer, this`asked
      ensures Valid() && ok && err == 0 && services == WithServices(old(services), p)
      ensures peer == old(peer) && asked == old(asked) + reqs && Ascending(reqs, 0x10000)
    {
      hide Left, Served, ServicesAt, Serves, Ascending, RangeReq, WithServices;
      var done, start: nat := false, 1;
      ghost var todo := p;
      DiscoveryStart(p);
      ok, err, reqs := true, 0, [];
      while !done
        invariant WithServices(services, todo) == WithServices(old(services), p)
        invariant peer == old(peer) && asked == old(asked) + reqs && ok && err == 0
        invariant if done then todo == [] && Ascending(reqs, 0x10000)
                  else Left(p, todo, start) && 0 < start <= 0xFFFF && Ascending(reqs, start)
        decreases if done then 0 else 0x10000 - start
      {
        ghost var ss, rest, n, bound := ServicesReply(p, todo, start, peer, env);
        WithServicesConcat(services, ss, rest);
        AscendingNext(reqs, READ_BY_GROUP_REQ, start, 0xFFFF, PRIMARY_SERVICE, bound);
        Assoc(old(asked), reqs, [RangeReq(READ_BY_GROUP_REQ, start, 0xFFFF, PRIMARY_SERVICE)]);
        reqs := reqs + [RangeReq(READ_BY_GROUP_REQ, start, 0xFFFF, PRIMARY_SERVICE)];
        ok, start, done, err := AskServices(start, ss, n);
        if !ok { return; }
        todo := rest;
      }
      NothingLeft(services);
    }

    // -------------------------------------------- characteristic discovery

    /** The first known service whose range holds a declaration and its value. */
    method SearchService(start: nat, end: nat) returns (r: Option<nat>)
      ensures r.Some? ==> Holds(services, start, end, r.value)
      ensures r.None? ==> forall i :: 0 <= i < |services| ==> !(services[i].h < start && services[i].endh >= end)
    {
      var i := 0;
      while i < |services|
        invariant 0 <= i <= |services|
        invariant forall j :: 0 <= j < i ==> !(services[j].h < start && services[j].endh >= end)
      {
        if services[i].h < start && services[i].endh >= end {
          return Some(i);
        }
        i := i + 1;
      }
      return None;
    }

    /** The inner loop of `DiscoverCharacteristics` for service `k`, of which `base` was
        known before and `cur` has been listed since. */
    method AddChars(reply: bytes, l: nat, prev0: int, ghost k: nat, ghost base: seq<FoundChar>,
                    ghost cur: seq<FoundChar>, ghost cs: seq<Characteristic>)
        returns (ok: bool, start: nat, done: bool, prev: int)
      requires cs != [] && (forall i :: 0 <= i < |cs| ==> CharListed(cs[i], l)) && reply == CharBytes(cs)
      requires forall i :: 0 <= i < |cs| ==> Holds(services, cs[i].h, cs[i].vh, k)
      requires k < |services| && services[k].chars == base + cur && prev0 == PrevOf(base, cur)
      modifies this`services
      ensures ok && services == InService(old(services), k, base + WithChars(cur, cs))
      ensures done == (cs[|cs| - 1].vh == services[k].endh) && start == (cs[|cs| - 1].vh + 1) % 0x10000
      ensures prev == PrevOf(base, WithChars(cur, cs))
    {
      hide InService, AppendChar, CloseChar, TakeChar, Holds, SameRanges, CharBytes, CharListed, PrevOf;
      ok, start, done, prev := true, 0, false, prev0;
      var b := reply;
      ghost var todo, now := cs, cur;
      InServiceSelf(services, k);
      while b != []
        invariant (forall i :: 0 <= i < |todo| ==> CharListed(todo[i], l)) && b == CharBytes(todo)
        invariant forall i :: 0 <= i < |todo| ==> Holds(old(services), todo[i].h, todo[i].vh, k)
        invariant |services| == |old(services)| && SameRanges(services, old(services))
        invariant services == InService(old(services), k, base + now)
        invariant WithChars(now, todo) == WithChars(cur, cs)
        invariant todo != [] ==> todo[|todo| - 1] == cs[|cs| - 1]
        invariant todo == [] ==>
          done == (cs[|cs| - 1].vh == services[k].endh) && start == (cs[|cs| - 1].vh + 1) % 0x10000
        invariant ok && prev == PrevOf(base, now) && services[k].endh == old(services)[k].endh
        decreases |todo|
      {
        CharsEnd(todo);
        CharStep(todo, l);
        var h: nat, vh: nat := Word(b[..2]), Word(b[3..5]);
        var found := SearchService(h, vh);
        FirstHolder(old(services), services, h, vh, k, found);
        if found.None? {
          return false, start, done, prev;
        }
        var i := found.value;
        TakeStep(old(services), services, i, base, now, todo[0]);
        services := AppendChar(services, i, FoundChar(b[5..l], b[2], h, vh, 0, [], None));
        b := b[l..];
        done := vh == services[i].endh;
        start := (vh + 1) % 0x10000;
        if prev >= 0 {
          services := CloseChar(services, i, prev, Before(h));
        }
        prev := |services[i].chars| - 1;
        now := TakeChar(now, todo[0]);
        todo := todo[1..];
      }
      CharsEnd(todo);
    }

    /** One round of `DiscoverCharacteristics`. */
    method AskChars(i: nat, start: nat, prev0: int, ghost k: nat, ghost end: nat, ghost base: seq<FoundChar>,
                    ghost cur: seq<FoundChar>, ghost cs: seq<Characteristic>, ghost n: nat)
        returns (ok: bool, next: nat, done: bool, prev: int)
      requires k < |services| && i < |services| && end == services[k].endh == services[i].endh
      requires CharsAt(peer, start, end, cs, n)
      requires forall i :: 0 <= i < |cs| ==> Holds(services, cs[i].h, cs[i].vh, k)
      requires services[k].chars == base + cur && prev0 == PrevOf(base, cur)
      modifies this`services, this`peer, this`asked
      ensures ok && peer == old(peer) && prev == PrevOf(base, WithChars(cur, cs))
      ensures services == InService(old(services), k, base + WithChars(cur, cs))
      ensures asked == old(asked) + [RangeReq(READ_BY_TYPE_REQ, start, end, CHARACTERISTIC)]
      ensures if cs == [] then done
              else done == (cs[|cs| - 1].vh == end) && next == (cs[|cs| - 1].vh + 1) % 0x10000
    {
      hide WithChars, CharListed, CharBytes, Holds, PrevOf, CharsAt, RangeReq, NextMtu;
      NoMoreChars(cur);
      ghost var reply := CharsParts(peer, start, end, cs, n);
      var b := SendReq(RangeReq(READ_BY_TYPE_REQ, start, services[i].endh, CHARACTERISTIC));
      ok, next, prev := true, start, prev0;
      InServiceSelf(services, k);
      done := b[0] != READ_BY_TYPE_RESP;
      if done { return; }
      var l := b[1] as int;
      b := b[2..];
      if !(l == 7 && |b| % 7 == 0) && !(l == 21 && |b| % 21 == 0) {
        ok := false;
        return;
      }
      ok, next, done, prev := AddChars(b, l, prev, k, base, cur, cs);
    }

    /** Asks for the characteristics of entry `i`, a service of which entry `k` is the first. */
    method DiscoverCharacteristics(i: nat, ghost k: nat, ghost p: seq<Service>, ghost env: Env)
        returns (ok: bool, ghost reqs: seq<bytes>)
      requires Valid() && Served(p) && Serves(peer, TableAttrs(p, |p|), env)
      requires Matches(services, p) && k < |p| && Names(services, i, p[k])
      modifies this`services, this`peer, this`asked
      ensures Valid() && ok && services == AskedFor(old(services), i, k, p[k])
      ensures peer == old(peer) && asked == old(asked) + reqs && Ascending(reqs, 0x10000)
    {
      hide InService, Served, Serves, Matches, Ascending, RangeReq, CharsAt, CharsLeft, WithChars, CloseChar, Holds,
        PrevOf, AskedFor;
      CharsStart(services, p, i, k);
      NothingBefore(services[k].chars);
      var done, start, prev: int := false, services[i].h, -1;
      ghost var todo, base, cur := p[k].chars, services[k].chars, [];
      ok, reqs := true, [];
      while !done
        invariant |services| == |old(services)| && Matches(services, p) && Names(services, i, p[k])
        invariant services[k].endh == services[i].endh == p[k].endh
        invariant services == InService(old(services), k, base + cur) && services[k].chars == base + cur
        invariant WithChars(cur, todo) == WithChars([], p[k].chars)
        invariant peer == old(peer) && asked == old(asked) + reqs && ok && prev == PrevOf(base, cur)
        invariant if done then todo == [] && Ascending(reqs, 0x10000)
                  else CharsLeft(p[k], todo, start) && 0 < start <= 0xFFFF && Ascending(reqs, start)
        decreases if done then 0 else 0x10000 - start
      {
        ghost var cs, rest, n, bound := CharsRound(p, k, todo, start, peer, env);
        CharsHeld(services, p, k, cs);
        WithCharsConcat(cur, cs, rest);
        AscendingNext(reqs, READ_BY_TYPE_REQ, start, services[i].endh, CHARACTERISTIC, bound);
        Assoc(old(asked), reqs, [RangeReq(READ_BY_TYPE_REQ, start, services[i].endh, CHARACTERISTIC)]);
        reqs := reqs + [RangeReq(READ_BY_TYPE_REQ, start, services[i].endh, CHARACTERISTIC)];
        ghost var was := services;
        ok, start, done, prev := AskChars(i, start, prev, k, services[i].endh, base, cur, cs, n);
        AscendingUp(reqs, bound);
        cur := WithChars(cur, cs);
        InServiceTwice(old(services), was, services, i, k, p, base + cur);
        CharsOf(was, k, base + cur);
        todo := rest;
      }
      CharsDone(old(services), services, i, k, p[k], cur);
      if |services[i].chars| > 1 {
        services := CloseChar(services, i, |services[i].chars| - 1, services[i].endh);
      }
    }

    // ------------------------------------------------ descriptor discovery

    /** The inner loop of `DiscoverDescriptors` for characteristic `j` of service `k`. */
    method AddDescs(reply: bytes, l: nat, k: nat, j: nat, ghost ds: seq<Descriptor>) returns (start: nat, done: bool)
      requires ds != [] && (forall i :: 0 <= i < |ds| ==> DescListed(ds[i], l)) && reply == DescBytes(ds)
      requires k < |services| && j < |services[k].chars|
      modifies this`services
      ensures services == InChar(old(services), k, j, WithDescs(old(services)[k].chars[j], ds))
      ensures done == (ds[|ds| - 1].h == old(services)[k].chars[j].endh)
      ensures start == (ds[|ds| - 1].h + 1) % 0x10000
    {
      hide InChar, TakeDesc, DescBytes, DescListed;
      start, done := 0, false;
      var b := reply;
      ghost var todo := ds;
      InCharSelf(services, k, j);
      while b != []
        invariant (forall i :: 0 <= i < |todo| ==> DescListed(todo[i], l)) && b == DescBytes(todo)
        invariant |services| == |old(services)| && |services[k].chars| == |old(services)[k].chars|
        invariant services == InChar(old(services), k, j, services[k].chars[j])
        invariant WithDescs(services[k].chars[j], todo) == WithDescs(old(services)[k].chars[j], ds)
        invariant todo != [] ==> todo[|todo| - 1] == ds[|ds| - 1]
        invariant todo == [] ==>
          done == (ds[|ds| - 1].h == services[k].chars[j].endh) && start == (ds[|ds| - 1].h + 1) % 0x10000
        invariant services[k].chars[j].endh == old(services)[k].chars[j].endh
        decreases |todo|
      {
        DescsEnd(todo);
        DescStep(old(services), services, k, j, todo, l);
        var h: nat := Word(b[..2]);
        var u := b[2..l];
        var d := FoundDesc(u, h);
        var c := services[k].chars[j];
        c := c.(descs := c.descs + [d]);
        if u == CLIENT_CONFIG {
          c := c.(cccd := Some(d));
        }
        services := InChar(services, k, j, c);
        b := b[l..];
        done := h == c.endh;
        start := (h + 1) % 0x10000;
        todo := todo[1..];
      }
      DescsEnd(todo);
    }

    /** One round of `DiscoverDescriptors`. */
    method AskDescs(k: nat, j: nat, start: nat, ghost ds: seq<Descriptor>, ghost n: nat)
        returns (ok: bool, next: nat, done: bool, err: byte)
      requires k < |services| && j < |services[k].chars|
      requires DescsAt(peer, start, services[k].chars[j].endh, ds, n)
      modifies this`services, this`peer, this`asked
      ensures ok && err == 0 && peer == old(peer)
      ensures services == InChar(old(services), k, j, WithDescs(old(services)[k].chars[j], ds))
      ensures asked == old(asked) + [RangeReq(FIND_INFO_REQ, start, old(services)[k].chars[j].endh, [])]
      ensures if ds == [] then done
              else done == (ds[|ds| - 1].h == old(services)[k].chars[j].endh) && next == (ds[|ds| - 1].h + 1) % 0x10000
    {
      hide InChar, WithDescs, DescListed, DescBytes, DescsAt, RangeReq, Finish, NextMtu;
      ghost var reply := DescsParts(peer, start, services[k].chars[j].endh, ds, n);
      var op := FIND_INFO_REQ;
      ok, next := true, start;
      InCharSelf(services, k, j);
      DescsDone(services[k].chars[j]);
      var b := SendReq(RangeReq(op, start, services[k].chars[j].endh, []));
      var fin := Finish(op, start, b);
      done, err := fin.0, fin.1;
      if done { return; }
      var f := b[1] as int;
      b := b[2..];
      var l := 0;
      if f == 1 && |b| % 4 == 0 {
        l := 4;
      } else if f == 2 && |b| % 18 == 0 {
        l := 18;
      } else {
        ok := false;
        return;
      }
      next, done := AddDescs(b, l, k, j, ds);
    }

    method DiscoverDescriptors(k: nat, j: nat, ghost p: seq<Service>, ghost env: Env)
        returns (ok: bool, err: byte, ghost reqs: seq<bytes>)
      requires Valid() && Served(p) && Serves(peer, TableAttrs(p, |p|), env)
      requires k < |services| == |p| && ServiceServed(p[k]) && j < |services[k].chars| == |p[k].chars|
      requires services[k].chars[j].vh == p[k].chars[j].vh && EndKnown(services[k], j, CharEnd(p[k], j))
      modifies this`services, this`peer, this`asked
      ensures Valid() && ok && err == 0
      ensures peer == old(peer) && asked == old(asked) + reqs && Ascending(reqs, 0x10000)
      ensures services == InChar(old(services), k, j,
                                 WithDescs(old(services)[k].chars[j].(endh := CharEnd(p[k], j)), p[k].chars[j].descs))
    {
      hide InChar, Served, Serves, Ascending, RangeReq, DescsAt, DescsLeft, WithDescs, ServiceServed, CharEnd;
      var done, start := false, services[k].chars[j].vh + 1;
      ghost var end, ds0 := CharEnd(p[k], j), p[k].chars[j].descs;
      ghost var todo, c1 := ds0, services[k].chars[j].(endh := end);
      DescsStart(services, k, j, p[k]);
      ok, err, reqs := true, 0, [];
      while !done
        invariant |services| == |old(services)| && |services[k].chars| == |old(services)[k].chars|
        invariant services == InChar(old(services), k, j, services[k].chars[j])
        invariant EndKnown(services[k], j, end) && (done ==> services[k].chars[j].endh == end)
        invariant WithDescs(services[k].chars[j].(endh := end), todo) == WithDescs(c1, ds0)
        invariant peer == old(peer) && asked == old(asked) + reqs && ok && err == 0
        invariant if done then todo == [] && Ascending(reqs, 0x10000)
                  else DescsLeft(p[k].chars[j], todo, start) && 0 < start <= 0xFFFF && Ascending(reqs, start)
        decreases if done then 0 else 0x10000 - start
      {
        if services[k].chars[j].endh == 0 {
          InCharTwice(old(services), k, j, services[k].chars[j], services[k].chars[j].(endh := services[k].endh));
          services := InChar(services, k, j, services[k].chars[j].(endh := services[k].endh));
        }
        ghost var c := services[k].chars[j];
        ghost var ds, rest, n, bound := DescsRound(p, k, j, todo, start, peer, env);
        WithDescsConcat(c, ds, rest);
        AscendingNext(reqs, FIND_INFO_REQ, start, end, [], bound);
        Assoc(old(asked), reqs, [RangeReq(FIND_INFO_REQ, start, end, [])]);
        reqs := reqs + [RangeReq(FIND_INFO_REQ, start, end, [])];
        AscendingUp(reqs, bound);
        InCharTwice(old(services), k, j, c, WithDescs(c, ds));
        WithDescsEnd(c, ds);
        ok, start, done, err := AskDescs(k, j, start, ds, n);
        todo := rest;
      }
      DescsDone(services[k].chars[j]);
    }

    // ------------------------------------------------ reads and the MTU

    /** The value read, or the error of the reply. */
    method ReadCharacteristic(vh: nat, ghost v: bytes, ghost code: byte) returns (b: bytes, err: byte)
      requires Reads(peer, vh, v) || Refuses(peer, vh, code)
      modifies this`peer, this`asked
      ensures peer == old(peer)
      ensures Reads(peer, vh, v) ==> err == 0 && b == v[..Min(|v|, peer.mtu - 1)]
      ensures Refuses(peer, vh, code) ==> err == code
    {
      var op := READ_REQ;
      b := SendReq([op] + Le16(vh));
      var fin := Finish(op, vh, b);
      err := fin.1;
      b := b[1..];
    }

    /** Reads until a reply is shorter than the client's MTU allows. All of `v` arrives. Told a
        larger MTU than the peer uses, which a server of this library never does, a client
        would stop after the first reply unless that holds `v`. */
    method ReadLongCharacteristic(vh: nat, ghost v: bytes, ghost code: byte) returns (buf: bytes, err: byte)
      requires Reads(peer, vh, v) || Refuses(peer, vh, code)
      modifies this`peer, this`asked
      ensures peer == old(peer)
      ensures Refuses(peer, vh, code) ==> err == code && buf == []
      ensures Reads(peer, vh, v) ==> err == 0 && (Valid() ==> buf == v)
      ensures Reads(peer, vh, v) && !Valid() ==> buf == v[..Min(|v|, peer.mtu - 1)]
    {
      hide Reads, Refuses, Finish, NextMtu, Le16;
      ReadsOrRefuses(peer, vh, v, code);
      buf, err := ReadCharacteristic(vh, v, code);
      if err != 0 {
        return [], err;
      }
      if |buf| < mtu - 1 {
        return;
      }
      var off := |buf|;
      var done := false;
      while true
        invariant peer == old(peer) && err == 0 && Valid()
        invariant off == |buf| <= |v| && buf == v[..off]
        decreases |v| - off
      {
        var op := READ_BLOB_REQ;
        ghost var w := BlobStep(peer, vh, v, off);
        var b := SendReq([op] + Le16(vh) + Le16(off));
        var fin := Finish(op, vh, b);
        done, err := fin.0, fin.1;
        if done { break; }
        b := b[1..];
        if |b| == 0 { break; }
        buf := buf + b;
        off := (off + |b|) % 0x10000;
        if |b| < mtu - 1 { break; }
      }
      assert v[..|v|] == v;
    }

    /** The client takes the smaller of its wish and the server's answer. */
    method SetMTU(wish: uint16, ghost aa: seq<Attr>, ghost env: Env) returns (err: byte)
      requires Valid() && Serves(peer, aa, env)
      modifies this`mtu, this`peer, this`asked
      ensures Valid() && err == 0 && peer == old(peer).(mtu := Clamp(wish))
      ensures mtu == Min(wish, Clamp(wish)) && Serves(peer, aa, env)
      ensures 23 <= wish <= 256 ==> mtu == wish == peer.mtu
      ensures wish < 23 ==> mtu == wish && peer.mtu == 23
      ensures wish > 256 ==> mtu == peer.mtu == 256
    {
      var op, m := MTU_REQ, wish;
      MtuRequest(wish, peer, aa, env);
      var b := SendReq([op] + Le16(wish));
      var fin := Finish(op, wish, b);
      err := fin.1;
      if !fin.0 {
        var serverMtu := Word(b[1..3]);
        if serverMtu < m {
          m := serverMtu;
        }
        mtu := m;
      }
    }
  }

  // -------------------------------------------------------- the whole table

  /** The characteristics of service `k`, then the descriptors of each. */
  method DiscoverService(c: Client, k: nat, ghost p: seq<Service>, ghost env: Env) returns (ok: bool)
    requires c.Valid() && Served(p) && Serves(c.peer, TableAttrs(p, |p|), env)
    requires Matches(c.services, p) && k < |p| == |c.services| && c.services[k].chars == []
    modifies c`services, c`peer, c`asked
    ensures c.Valid() && ok && c.peer == old(c.peer) && Matches(c.services, p)
    ensures c.services == old(c.services)[k := c.services[k]] && Rebuilt(c.services[k], p[k])
  {
    hide Served, Serves, Matches, TableAttrs, InService, AskedFor, InChar, EndKnown, Described, FoundChars, WithDescs;
    ghost var reqs;
    Itself(c.services, k, p);
    ok, reqs := c.DiscoverCharacteristics(k, k, p, env);
    if !ok { return; }
    ListedChars(old(c.services), c.services, k, p);
    var err, j := 0, 0;
    while j < |c.services[k].chars|
      invariant |c.services| == |p| && |c.services[k].chars| == |p[k].chars| && j <= |p[k].chars|
      invariant c.services == InService(old(c.services), k, c.services[k].chars)
      invariant forall i :: 0 <= i < j ==> c.services[k].chars[i] == Described(p[k], i)
      invariant forall i :: j <= i < |p[k].chars| ==> c.services[k].chars[i] == FoundChars(p[k])[i]
      invariant Matches(c.services, p) && c.peer == old(c.peer) && c.Valid() && ok
    {
      CharReady(c.services, k, j, p);
      ghost var was := c.services;
      ok, err, reqs := c.DiscoverDescriptors(k, j, p, env);
      DescribeOne(old(c.services), was, c.services, k, j, p);
      j := j + 1;
    }
    ServiceDone(old(c.services), c.services, k, p);
  }

  /** What the client of a new connection discovers of everything a publishable database
      serves. */
  method Discover(peer: Peer, ghost db: seq<Service>, ghost env: Env) returns (c: Client, ok: bool)
    requires Publishable(db) && Serves(peer, TableAttrs(Place(db, 1), |db|), env)
    ensures fresh(c) && c.Valid() && c.peer == peer && ok && |c.services| == |db|
    ensures forall k :: 0 <= k < |db| ==> Rebuilt(c.services[k], Place(db, 1)[k])
    ensures forall k :: 0 <= k < |db| ==> PublishedService(c.services[k], db, k)
  {
    hide Served, Serves, Matches, TableAttrs, Place, Rebuilt, BareService, WithServices, PublishedService, Publishable;
    ghost var p := Place(db, 1);
    PlacedIsServed(db);
    c := new Client(peer);
    var err;
    ghost var reqs;
    ok, err, reqs := c.DiscoverServices(p, env);
    AllListed(c.services, p);
    var k := 0;
    while k < |c.services|
      invariant 0 <= k <= |c.services| == |p| && Matches(c.services, p) && c.peer == peer && c.Valid() && ok
      invariant forall i :: 0 <= i < k ==> Rebuilt(c.services[i], p[i])
      invariant forall i :: k <= i < |p| ==> c.services[i].chars == []
    {
      ok := DiscoverService(c, k, p, env);
      k := k + 1;
    }
    forall k | 0 <= k < |db| ensures PublishedService(c.services[k], db, k) {
      DiscoveredIsPublished(c.services[k], db, k);
    }
  }
}
