/** Flow control towards the controller (Bluetooth Core Specification, Vol 4 Part E,
    sections 4.1.1 and 7.7.19): writers take tokens, completion events give them back. */
module AclCredits {
  import opened Bytes

  const CAPACITY: nat := 14

  // ----------------------------------------------------- completion events

  datatype Completed = Completed(handle: nat, count: nat)

  /** A 16-bit field; a short buffer is used up and reads as 0. */
  function Field(b: bytes): (nat, bytes)
  {
    if |b| >= 2 then (Word(b), b[2..]) else (0, [])
  }

  /** `n` entries, handle then count; handles have 12 bits. */
  function Entries(b: bytes, n: nat): (es: seq<Completed>)
    ensures |es| == n
    decreases n
  {
    if n == 0 then []
    else
      var h := Field(b);
      var c := Field(h.1);
      [Completed(h.0 % 0x1000, c.0)] + Entries(c.1, n - 1)
  }

  function Encode(es: seq<Completed>): bytes
  {
    if es == [] then [] else Le16(es[0].handle) + Le16(es[0].count) + Encode(es[1..])
  }

  /** Decoding inverts the wire layout. */
  lemma {:induction false} EntriesOfEncode(es: seq<Completed>)
    requires forall i :: 0 <= i < |es| ==> es[i].handle < 0x1000 && es[i].count <= 0xFFFF
    ensures Entries(Encode(es), |es|) == es
  {
    if es != [] {
      var more := Encode(es[1..]);
      var b := Encode(es);
      WordOfLe16(es[0].handle);
      WordOfLe16(es[0].count);
      assert b[2..] == Le16(es[0].count) + more && b[2..][2..] == more;
      EntriesOfEncode(es[1..]);
    }
  }

  /** Octet by octet: handle, of which four bits do not count, then the number of packets,
      both low octet first. */
  lemma EntryOctets(a: byte, b: byte, c: byte, d: byte, more: bytes, n: nat)
    ensures Entries([a, b, c, d] + more, n + 1) ==
            [Completed(a as int + 0x100 * (b as int % 0x10), c as int + 0x100 * d as int)] + Entries(more, n)
  {
    var x := [a, b, c, d] + more;
    assert x[2..] == [c, d] + more && x[2..][2..] == more;
    HandleOctets(a, b);
  }

  lemma HandleOctets(a: byte, b: byte)
    ensures (a as int + 0x100 * b as int) % 0x1000 == a as int + 0x100 * (b as int % 0x10)
  {
    var q, r := b / 0x10, b % 0x10;
    assert a as int + 0x100 * b as int == 0x1000 * q + (a as int + 0x100 * r);
  }

  /** What is missing at the end reads as zero. */
  lemma MissingOctets(a: byte, b: byte, c: byte)
    ensures Entries([a, b, c], 1) == Entries([a, b], 1) == [Completed(a as int + 0x100 * (b as int % 0x10), 0)]
    ensures Entries([a], 1) == Entries([], 1) == [Completed(0, 0)]
  {
    assert [a, b, c][2..] == [c] && [a, b][2..] == [];
    HandleOctets(a, b);
  }

  function Total(es: seq<Completed>): nat
  {
    if es == [] then 0 else es[0].count + Total(es[1..])
  }

  class Credits {
    var bufCnt: nat

    ghost predicate Valid()
      reads this
    {
      bufCnt <= CAPACITY
    }

    constructor ()
      ensures Valid() && bufCnt == 0
    {
      bufCnt := 0;
    }

    method Unmarshal(b: bytes) returns (packets: seq<Completed>)
      requires b != []
      ensures packets == Entries(b[1..], b[0])
    {
      var n := b[0] as int;
      var buf := b[1..];
      packets := [];
      var i := 0;
      while i < n
        invariant 0 <= i <= n
        invariant packets + Entries(buf, n - i) == Entries(b[1..], n)
      {
        var h := Field(buf);
        var c := Field(h.1);
        Assoc(packets, [Completed(h.0 % 0x1000, c.0)], Entries(c.1, n - i - 1));
        buf := c.1;
        packets := packets + [Completed(h.0 % 0x1000, c.0)];
        i := i + 1;
      }
    }

    /** Gives back every token reported; it would block on a missing one. */
    method HandleNumberOfCompletedPkts(b: bytes)
      requires Valid() && b != [] && Total(Entries(b[1..], b[0])) <= bufCnt
      modifies this
      ensures Valid() && bufCnt == old(bufCnt) - Total(Entries(b[1..], b[0]))
    {
      var packets := Unmarshal(b);
      var i := 0;
      assert packets[0..] == packets;
      while i < |packets|
        invariant 0 <= i <= |packets| && Valid()
        invariant bufCnt - Total(packets[i..]) == old(bufCnt) - Total(packets)
        invariant Total(packets[i..]) <= bufCnt
      {
        assert packets[i..][0] == packets[i] && packets[i..][1..] == packets[i + 1..];
        var j := 0;
        ghost var before := bufCnt;
        while j < packets[i].count
          invariant 0 <= j <= packets[i].count && bufCnt == before - j
        {
          bufCnt := bufCnt - 1;
          j := j + 1;
        }
        i := i + 1;
      }
    }
  }

  // -------------------------------------------- writers and the controller

  /** Connections are named by their handles: `known` were made at some time, `live` are
      those the controller still has. Writers that hold a token but have not written yet are
      in `taking`, or in `late` when their connection has ended, which a writer never checks.
      `held` has each packet in the controller; `owed` tokens are reported but not given back
      yet; `lost` tokens belong to packets the controller dropped because their connection
      had ended. */
  datatype State = State(tokens: nat, known: set<nat>, live: set<nat>, taking: multiset<nat>, late: multiset<nat>,
                         held: multiset<nat>, owed: nat, lost: nat)

  const START := State(0, {}, {}, multiset{}, multiset{}, multiset{}, 0, 0)

  datatype Event =
    | Connect(h: nat)               // a connection is made, maybe with the handle of an ended one
    | Take(h: nat)                  // a writer gets a token
    | Put(h: nat)                   // and writes its packet
    | Report(es: seq<Completed>)    // the controller completes packets it holds
    | Pop                           // a completion handler gives one token back
    | Disconnect(h: nat)            // the controller forgets a connection

  function Bag(es: seq<Completed>): (m: multiset<nat>)
    ensures |m| == Total(es)
  {
    if es == [] then multiset{}
    else multiset{}[es[0].handle := es[0].count] + Bag(es[1..])
  }

  /** The state after `e`, or `None` when `e` cannot happen: the channel is full or empty,
      or the controller does not hold what it would report. */
  function Next(s: State, e: Event): Option<State>
  {
    match e
    case Connect(h) =>
      if h in s.live then None
      else Some(s.(known := s.known + {h}, live := s.live + {h},
                   taking := s.taking[h := s.late[h]], late := s.late[h := 0]))
    case Take(h) =>
      if h !in s.known || s.tokens == CAPACITY then None
      else if h in s.live then Some(s.(tokens := s.tokens + 1, taking := s.taking + multiset{h}))
      else Some(s.(tokens := s.tokens + 1, late := s.late + multiset{h}))
    case Put(h) =>
      if h in s.taking then Some(s.(taking := s.taking - multiset{h}, held := s.held + multiset{h}))
      else if h in s.late then Some(s.(late := s.late - multiset{h}, lost := s.lost + 1))
      else None
    case Report(es) =>
      if Bag(es) <= s.held then Some(s.(held := s.held - Bag(es), owed := s.owed + Total(es))) else None
    case Pop =>
      if s.owed > 0 && s.tokens > 0 then Some(s.(owed := s.owed - 1, tokens := s.tokens - 1)) else None
    case Disconnect(h) =>
      if h !in s.live then None
      else Some(s.(live := s.live - {h}, taking := s.taking[h := 0], late := s.late[h := s.taking[h]],
                   held := s.held[h := 0], lost := s.lost + s.held[h]))
  }

  function Run(s: State, es: seq<Event>): Option<State>
    decreases |es|
  {
    if es == [] then Some(s)
    else
      var t := Next(s, es[0]);
      if t.None? then None else Run(t.value, es[1..])
  }

  /** Every token is accounted for, and the controller holds packets of live connections only. */
  ghost predicate Conserved(s: State)
  {
    && s.tokens == |s.taking| + |s.late| + |s.held| + s.owed + s.lost <= CAPACITY
    && s.live <= s.known
    && (forall h :: h in s.taking || h in s.held ==> h in s.live)
    && (forall h :: h in s.late ==> h in s.known && h !in s.live)
  }

  /** No connection has ended. */
  predicate AllLive(s: State) { s.live == s.known }

  /** What one step keeps. */
  ghost predicate Kept(s: State, t: State, e: Event)
  {
    && Conserved(t) && t.lost >= s.lost && s.known <= t.known
    && (!e.Disconnect? && AllLive(s) ==> AllLive(t) && t.lost == s.lost)
    && (!e.Connect? ==> t.lost + |t.late| >= s.lost + |s.late|)
    && (Onward(s, e) ==> Rank(t) < Rank(s) && t.lost + |t.late| <= s.lost + |s.late|)
    && (Onward(s, e) && !(e.Put? && e.h in s.late) ==> t.lost == s.lost)
  }

  /** A step that brings a token closer to coming back. */
  predicate Onward(s: State, e: Event)
  {
    match e
    case Connect(h) => h in s.late
    case Report(es) => Total(es) > 0
    case Put(_) => true
    case Pop => true
    case _ => false
  }

  function Rank(s: State): nat { 4 * |s.late| + 3 * |s.taking| + 2 * |s.held| + s.owed }

  lemma NextConserves(s: State, e: Event)
    requires Conserved(s) && Next(s, e).Some?
    ensures Kept(s, Next(s, e).value, e)
  {
    hide Conserved, Kept;
    match e
    case Connect(h) => ConnectKeeps(s, h);
    case Take(h) => TakeKeeps(s, h);
    case Put(h) => PutKeeps(s, h);
    case Report(es) => ReportKeeps(s, es);
    case Pop => PopKeeps(s);
    case Disconnect(h) => DisconnectKeeps(s, h);
  }

  lemma TakeKeeps(s: State, h: nat)
    requires Conserved(s) && Next(s, Take(h)).Some?
    ensures Kept(s, Next(s, Take(h)).value, Take(h))
  {}

  lemma PopKeeps(s: State)
    requires Conserved(s) && Next(s, Pop).Some?
    ensures Kept(s, Next(s, Pop).value, Pop)
  {}

  lemma ConnectKeeps(s: State, h: nat)
    requires Conserved(s) && h !in s.live
    ensures Kept(s, Next(s, Connect(h)).value, Connect(h))
  {
    Moved(s.taking, s.late, h);
  }

  lemma DisconnectKeeps(s: State, h: nat)
    requires Conserved(s) && h in s.live
    ensures Kept(s, Next(s, Disconnect(h)).value, Disconnect(h))
  {
    Moved(s.late, s.taking, h);
    assert |s.held[h := 0]| == |s.held| - s.held[h];
  }

  lemma PutKeeps(s: State, h: nat)
    requires Conserved(s) && Next(s, Put(h)).Some?
    ensures Kept(s, Next(s, Put(h)).value, Put(h))
  {
    if h in s.taking {
      assert |s.taking - multiset{h}| == |s.taking| - 1 && |s.held + multiset{h}| == |s.held| + 1;
    } else {
      assert |s.late - multiset{h}| == |s.late| - 1;
    }
  }

  lemma ReportKeeps(s: State, es: seq<Completed>)
    requires Conserved(s) && Bag(es) <= s.held
    ensures Kept(s, Next(s, Report(es)).value, Report(es))
  {
    assert |s.held - Bag(es)| == |s.held| - |Bag(es)|;
    assert forall h :: h in s.held - Bag(es) ==> h in s.held;
  }

  /** Writers of `h` change sides. */
  lemma Moved(to: multiset<nat>, from: multiset<nat>, h: nat)
    requires h !in to
    ensures |to[h := from[h]]| == |to| + from[h] && |from[h := 0]| == |from| - from[h]
    ensures forall g :: g != h ==> to[h := from[h]][g] == to[g] && from[h := 0][g] == from[g]
  {}

  /** Over every interleaving: tokens are conserved, the controller never holds more than 14
      packets, a completion handler always finds the token it takes, and no token is lost
      before a connection ends. */
  lemma {:induction false} CreditsAreConserved(s: State, es: seq<Event>)
    requires Conserved(s) && Run(s, es).Some?
    ensures var t := Run(s, es).value;
      && Conserved(t) && |t.held| <= 14 && t.lost >= s.lost && s.known <= t.known
      && (t.owed > 0 ==> Next(t, Pop).Some?)
      && (AllLive(s) && (forall i :: 0 <= i < |es| ==> !es[i].Disconnect?) ==> AllLive(t) && t.lost == s.lost)
      && ((forall i :: 0 <= i < |es| ==> !es[i].Connect?) ==> t.lost + |t.late| >= s.lost + |s.late|)
    decreases |es|
  {
    if es != [] {
      hide Next;
      NextConserves(s, es[0]);
      CreditsAreConserved(Next(s, es[0]).value, es[1..]);
    } else if s.owed > 0 {
      PopEnabled(s);
    }
  }

  lemma PopEnabled(s: State)
    requires Conserved(s) && s.owed > 0
    ensures Next(s, Pop).Some?
  {}

  lemma {:induction false} RunConcat(s: State, a: seq<Event>, b: seq<Event>)
    requires Run(s, a).Some?
    ensures Run(s, a + b) == Run(Run(s, a).value, b)
    decreases |a|
  {
    if a == [] {
      assert a + b == b;
    } else {
      assert (a + b)[0] == a[0] && (a + b)[1..] == a[1..] + b;
      RunConcat(Next(s, a[0]).value, a[1..], b);
    }
  }

  // ------------------------------------------------------------ the leak

  /** What lets another writer through, sooner or later: writers go on, reconnecting first
      when they are late and `reconnect` allows it, the controller completes, handlers run. */
  lemma Progress(s: State, reconnect: bool) returns (e: Event)
    requires Conserved(s) && s.tokens == CAPACITY
    requires s.lost + (if reconnect then 0 else |s.late|) < CAPACITY
    ensures Next(s, e).Some? && Onward(s, e)
    ensures if reconnect then !(e.Put? && e.h in s.late) else !e.Connect?
  {
    if |s.taking| > 0 {
      var h :| h in s.taking;
      e := Put(h);
    } else if |s.late| > 0 {
      var h :| h in s.late;
      e := if reconnect then Connect(h) else Put(h);
    } else if |s.held| > 0 {
      var h :| h in s.held;
      e := Report([Completed(h, 1)]);
      OneEntry(h);
    } else {
      e := Pop;
    }
  }

  /** While a token can still come back, every writer can be let through, with or without
      new connections. */
  lemma {:induction false} SomeWriterCanGoOn(s: State, h: nat, reconnect: bool) returns (es: seq<Event>)
    requires Conserved(s) && h in s.known
    requires s.lost + (if reconnect then 0 else |s.late|) < CAPACITY
    ensures Run(s, es).Some? && Next(Run(s, es).value, Take(h)).Some?
    ensures reconnect || NoConnect(es)
    decreases Rank(s)
  {
    if s.tokens < CAPACITY {
      return [];
    }
    hide Next, Onward, Rank;
    var e := Progress(s, reconnect);
    NextConserves(s, e);
    var more := SomeWriterCanGoOn(Next(s, e).value, h, reconnect);
    es := [e] + more;
    assert es[1..] == more;
  }

  predicate NoConnect(es: seq<Event>) { forall i :: 0 <= i < |es| ==> !es[i].Connect? }

  lemma OneEntry(h: nat)
    ensures Bag([Completed(h, 1)]) == multiset{h} && Total([Completed(h, 1)]) == 1
  {
    var es := [Completed(h, 1)];
    assert es[1..] == [];
    assert multiset{}[h := 1] + multiset{} == multiset{h};
  }

  /** Writers are blocked for ever exactly when all 14 tokens are lost: to packets in flight
      when their connection ended, or written after it had. */
  lemma BlockedIffAllLost(s: State, h: nat)
    requires Conserved(s) && h in s.known
    ensures (forall es :: Run(s, es).Some? ==> Next(Run(s, es).value, Take(h)).None?) <==> s.lost == 14
  {
    if s.lost == CAPACITY {
      forall es | Run(s, es).Some? ensures Next(Run(s, es).value, Take(h)).None? {
        CreditsAreConserved(s, es);
      }
    } else {
      var es := SomeWriterCanGoOn(s, h, true);
      assert Run(s, es).Some? && Next(Run(s, es).value, Take(h)).Some?;
    }
  }

  /** When no connection is made any more, the tokens of writers whose connection has ended
      are as good as lost. */
  lemma BlockedWithoutConnectionsIff(s: State, h: nat)
    requires Conserved(s) && h in s.known
    ensures (forall es :: NoConnect(es) && Run(s, es).Some? ==> Next(Run(s, es).value, Take(h)).None?)
            <==> s.lost + |s.late| == 14
  {
    if s.lost + |s.late| == CAPACITY {
      forall es | NoConnect(es) && Run(s, es).Some? ensures Next(Run(s, es).value, Take(h)).None? {
        CreditsAreConserved(s, es);
      }
    } else {
      var es := SomeWriterCanGoOn(s, h, false);
      assert NoConnect(es) && Run(s, es).Some? && Next(Run(s, es).value, Take(h)).Some?;
    }
  }

  function Writes(n: nat): seq<Event>
  {
    if n == 0 then [] else Writes(n - 1) + [Take(1), Put(1)]
  }

  /** One connection, there or ended, after `n` writes on it. */
  function Written(live: bool, n: nat): State
  {
    if live then State(n, {1}, {1}, multiset{}, multiset{}, multiset{}[1 := n], 0, 0)
    else State(n, {1}, {}, multiset{}, multiset{}, multiset{}, 0, n)
  }

  lemma {:induction false} WritesRun(live: bool, n: nat)
    requires n <= CAPACITY
    ensures Run(Written(live, 0), Writes(n)) == Some(Written(live, n))
  {
    if n > 0 {
      hide Next, Run;
      var s := Written(live, 0);
      WritesRun(live, n - 1);
      RunConcat(s, Writes(n - 1), [Take(1), Put(1)]);
      TwoMore(Written(live, n - 1));
      assert multiset{}[1 := n - 1] + multiset{1} == multiset{}[1 := n];
    }
  }

  lemma TwoMore(s: State)
    requires s.tokens < CAPACITY && 1 in s.known && s.taking == s.late == multiset{}
    ensures Run(s, [Take(1), Put(1)]) ==
      if 1 in s.live then Some(s.(tokens := s.tokens + 1, held := s.held + multiset{1}))
      else Some(s.(tokens := s.tokens + 1, lost := s.lost + 1))
  {
    var none: multiset<nat> := multiset{};
    assert none + multiset{1} == multiset{1} && multiset{1} - multiset{1} == none;
    var t := if 1 in s.live then s.(tokens := s.tokens + 1, taking := multiset{1})
             else s.(tokens := s.tokens + 1, late := multiset{1});
    assert Next(s, Take(1)) == Some(t);
    RunTwo(s, Take(1), Put(1));
  }

  lemma RunOne(s: State, e: Event)
    ensures Run(s, [e]) == Next(s, e)
  {
    assert [e][1..] == [];
  }

  lemma RunTwo(s: State, e: Event, f: Event)
    requires Next(s, e).Some?
    ensures Run(s, [e, f]) == Next(Next(s, e).value, f)
  {
    hide Next;
    var t := Next(s, e).value;
    assert [e, f][1..] == [f];
    RunOne(t, f);
  }

  /** It does happen: a connection that ends with 14 packets unreported, or one on which 14
      packets are written after it has ended, none of which the controller ever held. */
  lemma TokensCanAllBeLost() returns (flying: seq<Event>, after: seq<Event>)
    ensures Run(START, flying).Some? && Run(START, flying).value.lost == 14
    ensures Run(START, after).Some? && Run(START, after).value.lost == 14
    ensures after == [Connect(1), Disconnect(1)] + Writes(CAPACITY)
  {
    WritesRun(true, CAPACITY);
    WritesRun(false, CAPACITY);
    var up, down: seq<Event> := [Connect(1)], [Disconnect(1)];
    var n := CAPACITY;
    Opened(0);
    Opened(n);
    flying := up + (Writes(n) + down);
    after := (up + down) + Writes(n);
    RunConcat(START, up, Writes(n) + down);
    RunConcat(Written(true, 0), Writes(n), down);
    RunConcat(START, up, down);
    RunConcat(START, up + down, Writes(n));
    assert up + down == [Connect(1), Disconnect(1)];
  }

  lemma Opened(n: nat)
    ensures Run(START, [Connect(1)]) == Some(Written(true, 0))
    ensures Run(Written(true, n), [Disconnect(1)]) == Some(Written(false, n))
  {
    var none: multiset<nat> := multiset{};
    assert none[1 := 0] == none && none[1 := n][1 := 0] == none && none[1 := n][1] == n;
    assert {} + {1} == {1} && {1} - {1} == {};
    RunOne(START, Connect(1));
    RunOne(Written(true, n), Disconnect(1));
  }
}
