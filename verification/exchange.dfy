/** The request/response exchange of one client and one server as steps: the client's
    writer and reader, both link queues, the server loop and its notifications. */
module Exchange {
  import opened Bytes
  import opened Att
  import opened AttributeTable
  import opened Replies
  import opened Server
  import ClientRounds

  datatype Writer = Idle | Awaiting(req: bytes)

  /** A request the server has handled, and the handlers it then had. */
  datatype Call = Call(req: bytes, env: Env)

  /** `held` is the reply the client's reader is handing over; `done` has each request with
      the reply its caller got; `calls` records the requests the server has handled. The server
      is no longer `open` once a packet did not fit its read buffer. */
  datatype State = State(writer: Writer, held: Option<bytes>, toServer: seq<bytes>, toClient: seq<bytes>,
                         open: bool, mtu: nat, calls: seq<Call>, done: seq<(bytes, bytes)>, notified: seq<bytes>)

  const START := State(Idle, None, [], [], true, DEFAULT_MTU, [], [], [])

  datatype Event =
    | Send(req: bytes)             // the writer takes a caller's request
    | Command(req: bytes)          // or a Write Command, which has no reply
    | Serve(env: Env)              // the server handles the oldest packet
    | Notify(vh: nat, data: bytes) // a server handler sends a notification
    | Fetch                        // the client's reader takes the oldest packet
    | Match                        // the writer takes the reply held by the reader

  /** Packets to the server that a caller waits for, as opposed to Write Commands and the
      error replies a client sends for replies it did not expect. */
  predicate IsRequest(x: bytes) { x != [] && x[0] != WRITE_CMD && x[0] != ERROR }

  ghost predicate Enabled(aa: seq<Attr>, s: State, e: Event)
  {
    match e
    case Send(req) => s.writer.Idle? && Answerable(aa, req) && IsRequest(req)
    case Command(req) => s.writer.Idle? && Answerable(aa, req) && req[0] == WRITE_CMD
    case Serve(_) => s.open && s.toServer != [] && s.mtu >= DEFAULT_MTU && Answerable(aa, s.toServer[0])
    case Notify(_, _) => s.mtu >= DEFAULT_MTU
    case Fetch => s.toClient != [] && s.toClient[0] != [] && s.held.None?
    case Match => s.writer.Awaiting? && s.held.Some? && s.writer.req != [] && s.held.value != []
  }

  predicate IsPush(r: bytes) { r != [] && (r[0] == HANDLE_NOTIFY || r[0] == HANDLE_IND) }

  ghost function Next(aa: seq<Attr>, s: State, e: Event): State
    requires Enabled(aa, s, e)
  {
    match e
    case Send(req) => s.(writer := Awaiting(req), toServer := s.toServer + [req])
    case Command(req) => s.(toServer := s.toServer + [req])
    case Serve(env) =>
      var req := s.toServer[0];
      var r := Reply(aa, s.mtu, env, req);
      if EndsLoop(req) then s.(open := false)
      else s.(toServer := s.toServer[1..], mtu := NextMtu(s.mtu, req),
              calls := if IsRequest(req) then s.calls + [Call(req, env)] else s.calls,
              toClient := if r.Some? then s.toClient + [r.value] else s.toClient)
    case Notify(vh, data) => s.(toClient := s.toClient + [Notification(vh, data, s.mtu)])
    case Fetch =>
      var r := s.toClient[0];
      var t := s.(toClient := s.toClient[1..]);
      if !IsPush(r) then t.(held := Some(r))
      else if r[0] == HANDLE_IND then t.(notified := s.notified + [r], toServer := s.toServer + [[HANDLE_CNF]])
      else t.(notified := s.notified + [r])
    case Match =>
      var req, r := s.writer.req, s.held.value;
      if Answers(req[0], r) then s.(writer := Idle, held := None, done := s.done + [(req, r)])
      else s.(held := None, toServer := s.toServer + [ErrorResp(r[0], 0, REQ_NOT_SUPP)])
  }

  ghost predicate Possible(aa: seq<Attr>, s: State, es: seq<Event>)
    decreases |es|
  {
    es == [] || (Enabled(aa, s, es[0]) && Possible(aa, Next(aa, s, es[0]), es[1..]))
  }

  ghost function Run(aa: seq<Attr>, s: State, es: seq<Event>): State
    requires Possible(aa, s, es)
    decreases |es|
  {
    if es == [] then s else Run(aa, Next(aa, s, es[0]), es[1..])
  }

  // --------------------------------------- the calls, made one at a time

  /** The MTU in force once `calls` have been handled. */
  function MtuOf(calls: seq<Call>): (m: nat)
    ensures DEFAULT_MTU <= m <= MAX_MTU
  {
    if calls == [] then DEFAULT_MTU
    else NextMtu(MtuOf(calls[..|calls| - 1]), calls[|calls| - 1].req)
  }

  ghost predicate Calls(aa: seq<Attr>, calls: seq<Call>)
  {
    forall i :: 0 <= i < |calls| ==> Answerable(aa, calls[i].req) && IsRequest(calls[i].req)
  }

  /** What a server asked these requests one at a time answers: each with its reply, under
      the MTU the ones before have agreed on. */
  ghost function Answered(aa: seq<Attr>, calls: seq<Call>): seq<(bytes, bytes)>
    requires Calls(aa, calls)
  {
    if calls == [] then []
    else
      var init, c := calls[..|calls| - 1], calls[|calls| - 1];
      EveryRequestIsAnswered(aa, MtuOf(init), c.env, c.req);
      Answered(aa, init) + [(c.req, Reply(aa, MtuOf(init), c.env, c.req).value)]
  }

  /** Call by call: the reply is the server's, under the MTU after all earlier calls. */
  lemma {:induction false} AnsweredAt(aa: seq<Attr>, calls: seq<Call>, i: nat)
    requires Calls(aa, calls) && i < |calls|
    ensures |Answered(aa, calls)| == |calls| && Answered(aa, calls)[i].0 == calls[i].req
    ensures Reply(aa, MtuOf(calls[..i]), calls[i].env, calls[i].req) == Some(Answered(aa, calls)[i].1)
    ensures Answers(calls[i].req[0], Answered(aa, calls)[i].1)
    decreases |calls|
  {
    hide Reply, Answerable;
    var last := |calls| - 1;
    EveryRequestIsAnswered(aa, MtuOf(calls[..last]), calls[last].env, calls[last].req);
    if i < last {
      AnsweredAt(aa, calls[..last], i);
      assert calls[..last][..i] == calls[..i];
    } else if last > 0 {
      AnsweredAt(aa, calls[..last], 0);
    }
  }

  // -------------------------------------------------------- the invariant

  /** The packets with a property, in order. */
  function Keep(q: seq<bytes>, p: bytes -> bool): seq<bytes>
  {
    if q == [] then [] else if p(q[0]) then [q[0]] + Keep(q[1..], p) else Keep(q[1..], p)
  }

  lemma {:induction false} KeepSnoc(q: seq<bytes>, p: bytes -> bool, x: bytes)
    ensures Keep(q + [x], p) == if p(x) then Keep(q, p) + [x] else Keep(q, p)
  {
    if q == [] {
      assert [x][1..] == [];
    } else {
      assert (q + [x])[0] == q[0] && (q + [x])[1..] == q[1..] + [x];
      KeepSnoc(q[1..], p, x);
    }
  }

  function Requests(q: seq<bytes>): seq<bytes> { Keep(q, IsRequest) }

  /** Error replies to a Write Command, or to an error reply: nobody waits for them. */
  predicate IsStray(r: bytes) { |r| >= 2 && r[0] == ERROR && (r[1] == WRITE_CMD || r[1] == ERROR) }

  predicate IsResponse(r: bytes) { !IsPush(r) && !IsStray(r) }

  function Responses(q: seq<bytes>): seq<bytes> { Keep(q, IsResponse) }

  /** The responses on their way, the one being handed over last. */
  function Arriving(s: State): seq<bytes>
  {
    if s.held.Some? && IsResponse(s.held.value) then Responses(s.toClient) + [s.held.value]
    else Responses(s.toClient)
  }

  /** At most one request is outstanding; it is on its way to the server, or has been handled
      and exactly its reply is on its way back. All calls before have been answered. */
  ghost predicate Sequential(aa: seq<Attr>, s: State)
  {
    && s.mtu == MtuOf(s.calls) && Calls(aa, s.calls) && [] !in s.toClient && s.held != Some([])
    && (forall i :: 0 <= i < |s.toServer| ==> Answerable(aa, s.toServer[i]))
    && (s.held.Some? ==> !IsPush(s.held.value))
    && match s.writer
       case Idle => Requests(s.toServer) == [] && Arriving(s) == [] && s.done == Answered(aa, s.calls)
       case Awaiting(req) =>
         IsRequest(req) && if Requests(s.toServer) == [] then Returning(aa, s, req)
         else Requests(s.toServer) == [req] && Arriving(s) == [] && s.done == Answered(aa, s.calls)
  }

  /** The server has handled `req`, and its reply is all that is on the way back. */
  ghost predicate Returning(aa: seq<Attr>, s: State, req: bytes)
    requires Calls(aa, s.calls)
  {
    |Arriving(s)| == 1 && s.done + [(req, Arriving(s)[0])] == Answered(aa, s.calls)
  }

  /** Each kind of packet: a request is answered, a Write Command that does not fail is not,
      and anything else causes a reply that nobody waits for. */
  lemma ServedPacket(aa: seq<Attr>, mtu: nat, env: Env, x: bytes)
    requires DEFAULT_MTU <= mtu <= MAX_MTU && Answerable(aa, x)
    ensures var r := Reply(aa, mtu, env, x);
      && (r.None? <==> x[0] == WRITE_CMD && Silent(aa, x))
      && (r.Some? ==> r.value != [] && !IsPush(r.value) && (IsRequest(x) <==> !IsStray(r.value)))
    ensures x != [] && (!IsRequest(x) ==> NextMtu(mtu, x) == mtu)
  {
    if x[0] == WRITE_CMD {
      CommandReply(aa, mtu, env, x);
    } else {
      EveryRequestIsAnswered(aa, mtu, env, x);
    }
  }

  lemma OnlyOne(x: bytes, rest: seq<bytes>, y: bytes)
    requires [x] + rest == [y]
    ensures x == y && rest == []
  {
    assert |rest| == 0 && ([x] + rest)[0] == x;
  }

  lemma ServeKeeps(aa: seq<Attr>, s: State, env: Env)
    requires Sequential(aa, s) && Enabled(aa, s, Serve(env))
    ensures Sequential(aa, Next(aa, s, Serve(env)))
  {
    var x := s.toServer[0];
    if IsRequest(x) && !EndsLoop(x) {
      ServeRequest(aa, s, env);
    } else if !EndsLoop(x) {
      ServeOther(aa, s, env);
    }
  }

  /** One more call. */
  lemma AnsweredSnoc(aa: seq<Attr>, calls: seq<Call>, c: Call)
    requires Calls(aa, calls) && Answerable(aa, c.req) && IsRequest(c.req)
    ensures var r := Reply(aa, MtuOf(calls), c.env, c.req);
      && Calls(aa, calls + [c]) && MtuOf(calls + [c]) == NextMtu(MtuOf(calls), c.req)
      && r.Some? && Answered(aa, calls + [c]) == Answered(aa, calls) + [(c.req, r.value)]
  {
    hide Reply, Answerable, NextMtu;
    EveryRequestIsAnswered(aa, MtuOf(calls), c.env, c.req);
    var all := calls + [c];
    assert all[..|all| - 1] == calls;
  }

  lemma KeepHead(q: seq<bytes>, p: bytes -> bool)
    requires q != []
    ensures Keep(q, p) == if p(q[0]) then [q[0]] + Keep(q[1..], p) else Keep(q[1..], p)
  {}

  /** The outstanding request: its reply is now all that is on its way back. */
  lemma ServeRequest(aa: seq<Attr>, s: State, env: Env)
    requires Sequential(aa, s) && Enabled(aa, s, Serve(env)) && IsRequest(s.toServer[0]) && !EndsLoop(s.toServer[0])
    ensures Sequential(aa, Next(aa, s, Serve(env)))
  {
    hide Reply, Answerable, NextMtu, Silent, IsStray, IsPush, Answered, MtuOf, Keep, EndsLoop, LongEnough;
    var x := s.toServer[0];
    ServedPacket(aa, s.mtu, env, x);
    AnsweredSnoc(aa, s.calls, Call(x, env));
    var r := Reply(aa, s.mtu, env, x).value;
    KeepSnoc(s.toClient, IsResponse, r);
    KeepHead(s.toServer, IsRequest);
    OnlyOne(x, Requests(s.toServer[1..]), s.writer.req);
    assert [] + [r] == [r];
  }

  /** A Write Command, or a stray sent back. */
  lemma ServeOther(aa: seq<Attr>, s: State, env: Env)
    requires Sequential(aa, s) && Enabled(aa, s, Serve(env)) && !IsRequest(s.toServer[0]) && !EndsLoop(s.toServer[0])
    ensures Sequential(aa, Next(aa, s, Serve(env)))
  {
    var x := s.toServer[0];
    ServedPacket(aa, s.mtu, env, x);
    hide Reply, Answerable, NextMtu, Silent, IsStray, IsPush, Answered, MtuOf;
    var r := Reply(aa, s.mtu, env, x);
    if r.Some? {
      KeepSnoc(s.toClient, IsResponse, r.value);
    }
  }

  lemma SendKeeps(aa: seq<Attr>, s: State, req: bytes)
    requires Sequential(aa, s) && Enabled(aa, s, Send(req))
    ensures Sequential(aa, Next(aa, s, Send(req)))
  {
    hide Answerable;
    KeepSnoc(s.toServer, IsRequest, req);
  }

  lemma CommandKeeps(aa: seq<Attr>, s: State, req: bytes)
    requires Sequential(aa, s) && Enabled(aa, s, Command(req))
    ensures Sequential(aa, Next(aa, s, Command(req)))
  {
    hide Answerable;
    KeepSnoc(s.toServer, IsRequest, req);
  }

  lemma NotifyKeeps(aa: seq<Attr>, s: State, vh: nat, data: bytes)
    requires Sequential(aa, s) && Enabled(aa, s, Notify(vh, data))
    ensures Sequential(aa, Next(aa, s, Notify(vh, data)))
  {
    hide Answerable;
    KeepSnoc(s.toClient, IsResponse, Notification(vh, data, s.mtu));
  }

  lemma FetchKeeps(aa: seq<Attr>, s: State)
    requires Sequential(aa, s) && Enabled(aa, s, Fetch) && NoIndications(s)
    ensures Sequential(aa, Next(aa, s, Fetch))
  {
    hide Answerable, IsStray, Answered, MtuOf, Calls, IsRequest;
    var r := s.toClient[0];
    assert Requests(s.toServer) == Requests(Next(aa, s, Fetch).toServer);
    if IsResponse(r) {
      OnlyOne(r, Responses(s.toClient[1..]), Arriving(s)[0]);
      assert [] + [r] == [r];
    }
  }

  /** The server never sends indications. */
  predicate NoIndications(s: State)
  {
    forall i :: 0 <= i < |s.toClient| ==> s.toClient[i] != [] && s.toClient[i][0] != HANDLE_IND
  }

  /** What the writer accepts is the server's reply to the request it has sent, under the MTU
      in force; everything else it takes is a stray, which it sends back. */
  lemma MatchKeeps(aa: seq<Attr>, s: State)
    requires Sequential(aa, s) && Enabled(aa, s, Match)
    ensures var t, req, r := Next(aa, s, Match), s.writer.req, s.held.value;
      && Sequential(aa, t) && (Answers(req[0], r) <==> !IsStray(r))
      && (if IsStray(r) then t.writer == s.writer && t.done == s.done
          else t.writer.Idle? && t.done == s.done + [(req, r)] == Answered(aa, s.calls))
  {
    if IsStray(s.held.value) {
      MatchStray(aa, s);
    } else {
      MatchReply(aa, s);
    }
  }

  lemma MatchStray(aa: seq<Attr>, s: State)
    requires Sequential(aa, s) && Enabled(aa, s, Match) && IsStray(s.held.value)
    ensures !Answers(s.writer.req[0], s.held.value) && Sequential(aa, Next(aa, s, Match))
  {
    hide Reply, Answered, MtuOf;
    var e := ErrorResp(s.held.value[0], 0, REQ_NOT_SUPP);
    KeepSnoc(s.toServer, IsRequest, e);
    assert Answerable(aa, e);
  }

  lemma MatchReply(aa: seq<Attr>, s: State)
    requires Sequential(aa, s) && Enabled(aa, s, Match) && !IsStray(s.held.value)
    ensures var t, req, r := Next(aa, s, Match), s.writer.req, s.held.value;
      && Sequential(aa, t) && Answers(req[0], r)
      && t.writer.Idle? && t.done == s.done + [(req, r)] == Answered(aa, s.calls)
  {
    hide Reply, Answerable, Answers, MtuOf;
    var req, r := s.writer.req, s.held.value;
    assert Arriving(s) == [r] by { assert |Responses(s.toClient)| == 0; }
    var n := |s.done|;
    assert (s.done + [(req, r)])[n] == (req, r);
    CallsAnswered(aa, s.calls, n);
  }

  lemma CallsAnswered(aa: seq<Attr>, calls: seq<Call>, i: nat)
    requires Calls(aa, calls) && i < |Answered(aa, calls)|
    ensures var a := Answered(aa, calls)[i];
      a.0 != [] && Answers(a.0[0], a.1)
  {
    if calls != [] {
      AnsweredAt(aa, calls, 0);
      AnsweredAt(aa, calls, i);
    }
  }

  ghost predicate Good(aa: seq<Attr>, s: State)
  {
    && Sequential(aa, s) && NoIndications(s)
    && forall i :: 0 <= i < |s.notified| ==> s.notified[i] != [] && s.notified[i][0] == HANDLE_NOTIFY
  }

  lemma NextKeeps(aa: seq<Attr>, s: State, e: Event)
    requires Good(aa, s) && Enabled(aa, s, e)
    ensures Good(aa, Next(aa, s, e))
  {
    hide Sequential, Reply, Answerable;
    match e
    case Send(req) => SendKeeps(aa, s, req);
    case Command(req) => CommandKeeps(aa, s, req);
    case Serve(env) =>
      ServeKeeps(aa, s, env);
      ServeSendsNoIndication(aa, s, env);
    case Notify(vh, data) => NotifyKeeps(aa, s, vh, data);
    case Fetch => FetchKeeps(aa, s);
    case Match => MatchKeeps(aa, s);
  }

  lemma ServeSendsNoIndication(aa: seq<Attr>, s: State, env: Env)
    requires Good(aa, s) && Enabled(aa, s, Serve(env))
    ensures NoIndications(Next(aa, s, Serve(env)))
  {
    ServedPacket(aa, s.mtu, env, s.toServer[0]);
  }

  /** In every interleaving, failing Write Commands included, the exchange is sequential: the
      callers have the replies a server asked one request at a time gives, except for the one
      still waiting, and only notifications reach the subscribers. */
  lemma {:induction false} ExchangeIsSequential(aa: seq<Attr>, s: State, es: seq<Event>)
    requires Good(aa, s) && Possible(aa, s, es)
    ensures Good(aa, Run(aa, s, es))
    decreases |es|
  {
    if es != [] {
      NextKeeps(aa, s, es[0]);
      ExchangeIsSequential(aa, Next(aa, s, es[0]), es[1..]);
    }
  }

  lemma StartIsGood(aa: seq<Attr>)
    ensures Good(aa, START)
  {}

  /** From the start: the i-th caller served has the server's reply to its own request, under
      the MTU all earlier calls have agreed on. */
  lemma CallersGetTheirReplies(aa: seq<Attr>, es: seq<Event>, i: nat)
    requires Possible(aa, START, es) && i < |Run(aa, START, es).done|
    ensures var s := Run(aa, START, es);
      && |s.done| <= |s.calls| <= |s.done| + 1 && Answerable(aa, s.done[i].0) && s.calls[i].req == s.done[i].0
      && Reply(aa, MtuOf(s.calls[..i]), s.calls[i].env, s.done[i].0) == Some(s.done[i].1)
  {
    hide Reply, Answerable;
    StartIsGood(aa);
    ExchangeIsSequential(aa, START, es);
    var s := Run(aa, START, es);
    var all := Answered(aa, s.calls);
    assert s.done == all[..|s.done|] && |s.done| <= |all| <= |s.done| + 1;
    if s.calls != [] {
      AnsweredAt(aa, s.calls, 0);
      AnsweredAt(aa, s.calls, i);
    }
  }

  /** While the server's handlers stay as they are, the exchange gives each caller what asking
      the peer directly gives, with the peer's MTU carried from call to call. */
  lemma ExchangeIsAnswer(aa: seq<Attr>, es: seq<Event>, env: Env, peer: ClientRounds.Peer, i: nat)
    requires Possible(aa, START, es) && i < |Run(aa, START, es).done| && ClientRounds.Serves(peer, aa, env)
    requires forall e :: e in es && e.Serve? ==> e.env == env
    ensures var s := Run(aa, START, es);
      && |s.done| <= |s.calls|
      && peer.answer(MtuOf(s.calls[..i]), s.done[i].0) == Some(s.done[i].1)
      && MtuOf(s.calls[..i + 1]) == NextMtu(MtuOf(s.calls[..i]), s.done[i].0)
  {
    hide Reply, Answerable;
    CallersGetTheirReplies(aa, es, i);
    SameEnv(aa, START, es, env);
    var calls := Run(aa, START, es).calls;
    assert calls[..i + 1][..i] == calls[..i];
  }

  lemma {:induction false} SameEnv(aa: seq<Attr>, s: State, es: seq<Event>, env: Env)
    requires Possible(aa, s, es) && forall e :: e in es && e.Serve? ==> e.env == env
    requires forall i :: 0 <= i < |s.calls| ==> s.calls[i].env == env
    ensures forall i :: 0 <= i < |Run(aa, s, es).calls| ==> Run(aa, s, es).calls[i].env == env
    decreases |es|
  {
    if es != [] {
      hide Reply, Answerable;
      assert es[0] in es;
      SameEnv(aa, Next(aa, s, es[0]), es[1..], env);
    }
  }

  // -------------------------------------------------- a caller is answered

  /** Some request is on its way, and everything on its way to an open server fits its buffer. */
  ghost predicate Hopeful(aa: seq<Attr>, s: State)
  {
    Good(aa, s) && s.writer.Awaiting? && s.open && forall i :: 0 <= i < |s.toServer| ==> !EndsLoop(s.toServer[i])
  }

  /** How far the outstanding request, or its reply, has to go. */
  function Distance(s: State): nat
  {
    if Requests(s.toServer) != [] then |s.toServer| else 2 * |s.toClient| + if s.held.Some? then 1 else 0
  }

  /** The step that brings it on: the server handles a packet, the reader takes one, or the
      writer takes what the reader holds. */
  function Onward(s: State, env: Env): Event
  {
    if Requests(s.toServer) != [] then Serve(env) else if s.held.Some? then Match else Fetch
  }

  lemma {:induction false} OnwardStep(aa: seq<Attr>, s: State, env: Env)
    requires Hopeful(aa, s)
    ensures Enabled(aa, s, Onward(s, env))
    ensures var t := Next(aa, s, Onward(s, env));
      if t.writer.Idle? then |t.done| == |s.done| + 1 && t.done[|s.done|].0 == s.writer.req
      else
        && Hopeful(aa, t) && t.writer == s.writer && t.done == s.done
        && |Requests(t.toServer)| <= |Requests(s.toServer)|
        && (|Requests(t.toServer)| == |Requests(s.toServer)| ==> Distance(t) < Distance(s))
  {
    hide Reply, Answerable, Answered, MtuOf, Calls, Silent;
    OnwardEnabled(aa, s, env);
    NextKeeps(aa, s, Onward(s, env));
    if Requests(s.toServer) == [] && s.held.Some? {
      MatchKeeps(aa, s);
      KeepSnoc(s.toServer, IsRequest, ErrorResp(s.held.value[0], 0, REQ_NOT_SUPP));
    }
  }

  lemma {:induction false} OnwardEnabled(aa: seq<Attr>, s: State, env: Env)
    requires Hopeful(aa, s)
    ensures Enabled(aa, s, Onward(s, env))
  {
    hide Reply, Answerable, Answered, Calls, Silent;
    if Requests(s.toServer) == [] && s.held.None? {
      assert |Responses(s.toClient)| == 1;
    }
  }

  /** From any reachable state with an open server, whatever strays and notifications are under
      way, the caller that waits can be given its reply. */
  lemma {:induction false} CallerCanBeAnswered(aa: seq<Attr>, s: State, env: Env) returns (es: seq<Event>)
    requires Hopeful(aa, s)
    ensures Possible(aa, s, es)
    ensures var t := Run(aa, s, es);
      t.writer.Idle? && |t.done| == |s.done| + 1 && t.done[|s.done|].0 == s.writer.req
    decreases |Requests(s.toServer)|, Distance(s)
  {
    hide Hopeful, Distance, Enabled, Next, Onward, Requests;
    var e := Onward(s, env);
    OnwardStep(aa, s, env);
    var t := Next(aa, s, e);
    if t.writer.Idle? {
      es := [e];
      assert [e][1..] == [];
    } else {
      var more := CallerCanBeAnswered(aa, t, env);
      es := [e] + more;
      assert es[1..] == more;
    }
  }

  /** A request of up to 672 octets, sent to an open server, is such a state. */
  lemma SentIsHopeful(aa: seq<Attr>, s: State, req: bytes)
    requires Good(aa, s) && s.open && Enabled(aa, s, Send(req)) && |req| <= 672
    requires forall i :: 0 <= i < |s.toServer| ==> |s.toServer[i]| <= 672
    ensures Hopeful(aa, Next(aa, s, Send(req)))
  {
    NextKeeps(aa, s, Send(req));
  }

  // --------------------------------------------------------- long requests

  /** A request that does not fit the server's read buffer is still on its way. */
  ghost predicate Stuck(aa: seq<Attr>, s: State, req: bytes)
  {
    Good(aa, s) && s.writer == Awaiting(req) && Requests(s.toServer) == [req] && EndsLoop(req)
  }

  lemma StuckNext(aa: seq<Attr>, s: State, req: bytes, e: Event)
    requires Stuck(aa, s, req) && Enabled(aa, s, e)
    ensures Stuck(aa, Next(aa, s, e), req) && Next(aa, s, e).done == s.done
  {
    NextKeeps(aa, s, e);
    hide Reply, Answerable, Answered, MtuOf, Calls;
    match e
    case Command(c) => KeepSnoc(s.toServer, IsRequest, c);
    case Serve(env) =>
      var x := s.toServer[0];
      if IsRequest(x) {
        OnlyOne(x, Requests(s.toServer[1..]), req);
      }
    case Match =>
      MatchKeeps(aa, s);
      assert Arriving(s) == [] && IsStray(s.held.value);
      KeepSnoc(s.toServer, IsRequest, ErrorResp(s.held.value[0], 0, REQ_NOT_SUPP));
    case _ =>
  }

  /** Such a request is never answered: its caller waits for ever, and nobody else is served. */
  lemma {:induction false} LongRequestHangs(aa: seq<Attr>, s: State, req: bytes, es: seq<Event>)
    requires Stuck(aa, s, req) && Possible(aa, s, es)
    ensures Stuck(aa, Run(aa, s, es), req) && Run(aa, s, es).done == s.done
    decreases |es|
  {
    if es != [] {
      hide Stuck, Enabled, Next;
      StuckNext(aa, s, req, es[0]);
      LongRequestHangs(aa, Next(aa, s, es[0]), req, es[1..]);
    }
  }

  /** Sending one is enough. */
  lemma LongRequestIsStuck(aa: seq<Attr>, s: State, req: bytes)
    requires Good(aa, s) && Enabled(aa, s, Send(req)) && |req| > 672
    ensures Stuck(aa, Next(aa, s, Send(req)), req)
  {
    NextKeeps(aa, s, Send(req));
    KeepSnoc(s.toServer, IsRequest, req);
  }

  // --------------------------------------------------------- notifications

  /** The notifications delivered so far, and those still on their way. */
  function Pushed(s: State): seq<bytes> { s.notified + Keep(s.toClient, IsPush) }

  /** The notifications sent in a run, under the MTU then in force. */
  ghost function Notices(aa: seq<Attr>, s: State, es: seq<Event>): seq<bytes>
    requires Possible(aa, s, es)
    decreases |es|
  {
    if es == [] then []
    else NoticesOf(s, es[0]) + Notices(aa, Next(aa, s, es[0]), es[1..])
  }

  function NoticesOf(s: State, e: Event): seq<bytes>
  {
    if e.Notify? && s.mtu >= DEFAULT_MTU then [Notification(e.vh, e.data, s.mtu)] else []
  }

  lemma PushedNext(aa: seq<Attr>, s: State, e: Event)
    requires Good(aa, s) && Enabled(aa, s, e)
    ensures Pushed(Next(aa, s, e)) == Pushed(s) + NoticesOf(s, e)
  {
    hide Reply, Answerable, Answered, MtuOf, Calls;
    match e
    case Notify(vh, data) =>
      KeepSnoc(s.toClient, IsPush, Notification(vh, data, s.mtu));
      Assoc(s.notified, Keep(s.toClient, IsPush), [Notification(vh, data, s.mtu)]);
    case Serve(env) =>
      ServedPacket(aa, s.mtu, env, s.toServer[0]);
      var r := Reply(aa, s.mtu, env, s.toServer[0]);
      if r.Some? {
        KeepSnoc(s.toClient, IsPush, r.value);
      }
    case Fetch =>
      var r := s.toClient[0];
      Assoc(s.notified, [r], Keep(s.toClient[1..], IsPush));
    case _ =>
  }

  /** Nothing is lost, repeated or reordered: what the subscribers have got and what is still on
      its way are, in order, exactly the notifications sent. */
  lemma {:induction false} NotificationsArrive(aa: seq<Attr>, s: State, es: seq<Event>)
    requires Good(aa, s) && Possible(aa, s, es)
    ensures Pushed(Run(aa, s, es)) == Pushed(s) + Notices(aa, s, es)
    decreases |es|
  {
    if es != [] {
      hide Good, Enabled, Next, Pushed, NoticesOf;
      NextKeeps(aa, s, es[0]);
      PushedNext(aa, s, es[0]);
      var t := Next(aa, s, es[0]);
      NotificationsArrive(aa, t, es[1..]);
      Assoc(Pushed(s), NoticesOf(s, es[0]), Notices(aa, t, es[1..]));
    }
  }

  // ---------------------------------------------------------------- strays

  /** Packets the server answers although nobody will wait for the answer. */
  predicate Fails(aa: seq<Attr>, x: bytes) { x != [] && (x[0] == ERROR || (x[0] == WRITE_CMD && !Silent(aa, x))) }

  function FailsFor(aa: seq<Attr>): bytes -> bool { x => Fails(aa, x) }

  function Failing(aa: seq<Attr>, q: seq<bytes>): seq<bytes> { Keep(q, FailsFor(aa)) }

  function Stray(q: seq<bytes>): seq<bytes> { Keep(q, IsStray) }

  /** The packets going round because of failed Write Commands. */
  function Strays(aa: seq<Attr>, s: State): nat
  {
    |Failing(aa, s.toServer)| + |Stray(s.toClient)| + if s.held.Some? && IsStray(s.held.value) then 1 else 0
  }

  /** How many Write Commands that fail were sent. */
  function FailedIn(aa: seq<Attr>, es: seq<Event>): nat
  {
    if es == [] then 0 else FailedIn(aa, es[1..]) + if es[0].Command? && Fails(aa, es[0].req) then 1 else 0
  }

  lemma FailingSnoc(aa: seq<Attr>, q: seq<bytes>, x: bytes)
    ensures |Failing(aa, q + [x])| == |Failing(aa, q)| + if Fails(aa, x) then 1 else 0
  {
    KeepSnoc(q, FailsFor(aa), x);
  }

  lemma FailingHead(aa: seq<Attr>, q: seq<bytes>)
    requires q != []
    ensures |Failing(aa, q)| == |Failing(aa, q[1..])| + if Fails(aa, q[0]) then 1 else 0
  {}

  /** One step: a failing Write Command adds one, and no step takes one away. */
  lemma StraysNext(aa: seq<Attr>, s: State, e: Event)
    requires Good(aa, s) && Enabled(aa, s, e)
    ensures Strays(aa, Next(aa, s, e)) == Strays(aa, s) + if e.Command? && Fails(aa, e.req) then 1 else 0
  {
    hide Reply, Answerable, Silent, Failing, Answered, MtuOf;
    match e
    case Send(req) => FailingSnoc(aa, s.toServer, req);
    case Command(req) => FailingSnoc(aa, s.toServer, req);
    case Serve(env) => StraysServed(aa, s, env);
    case Notify(vh, data) => KeepSnoc(s.toClient, IsStray, Notification(vh, data, s.mtu));
    case Fetch =>
      var r := s.toClient[0];
      assert Stray(s.toClient) == if IsStray(r) then [r] + Stray(s.toClient[1..]) else Stray(s.toClient[1..]);
    case Match => StraysMatched(aa, s);
  }

  lemma StraysServed(aa: seq<Attr>, s: State, env: Env)
    requires Good(aa, s) && Enabled(aa, s, Serve(env))
    ensures Strays(aa, Next(aa, s, Serve(env))) == Strays(aa, s)
  {
    hide Reply, Answerable, Silent, Failing, Answered, MtuOf;
    if !EndsLoop(s.toServer[0]) {
      FailingHead(aa, s.toServer);
      ServedPacket(aa, s.mtu, env, s.toServer[0]);
      var r := Reply(aa, s.mtu, env, s.toServer[0]);
      if r.Some? {
        KeepSnoc(s.toClient, IsStray, r.value);
      }
    }
  }

  lemma StraysMatched(aa: seq<Attr>, s: State)
    requires Good(aa, s) && Enabled(aa, s, Match)
    ensures Strays(aa, Next(aa, s, Match)) == Strays(aa, s)
  {
    hide Reply, Answerable, Silent, Failing, Answered, MtuOf;
    MatchKeeps(aa, s);
    FailingSnoc(aa, s.toServer, ErrorResp(s.held.value[0], 0, REQ_NOT_SUPP));
  }

  /** The reply to a failed Write Command is never consumed: in every interleaving there are
      as many strays going round as Write Commands have failed. */
  lemma {:induction false} StraysAreConserved(aa: seq<Attr>, s: State, es: seq<Event>)
    requires Good(aa, s) && Possible(aa, s, es)
    ensures Strays(aa, Run(aa, s, es)) == Strays(aa, s) + FailedIn(aa, es)
    decreases |es|
  {
    if es != [] {
      hide Good, Strays, Enabled, Next, Fails;
      NextKeeps(aa, s, es[0]);
      StraysNext(aa, s, es[0]);
      StraysAreConserved(aa, Next(aa, s, es[0]), es[1..]);
    }
  }

  /** While nobody sends a request, a stray keeps the reader: nothing more is fetched, and
      no notification reaches a subscriber. */
  lemma StrayBlocksReader(aa: seq<Attr>, s: State, e: Event)
    requires Good(aa, s) && Enabled(aa, s, e) && s.writer.Idle? && s.held.Some? && !e.Send?
    ensures IsStray(s.held.value)
    ensures var t := Next(aa, s, e);
      t.writer.Idle? && t.held == s.held && t.notified == s.notified && s.toClient <= t.toClient
  {
    hide Reply, Answerable;
    assert |Arriving(s)| == 0;
  }

  /** Without failing Write Commands there are no strays: everything on its way back is a
      notification, or the reply to the one outstanding request. */
  lemma NoFailuresNoStrays(aa: seq<Attr>, es: seq<Event>)
    requires Possible(aa, START, es) && FailedIn(aa, es) == 0
    ensures var s := Run(aa, START, es);
      Strays(aa, s) == 0 && (s.held.Some? ==> s.writer.Awaiting? && IsResponse(s.held.value))
  {
    StartIsGood(aa);
    ExchangeIsSequential(aa, START, es);
    StraysAreConserved(aa, START, es);
    var s := Run(aa, START, es);
    assert s.held.Some? && IsResponse(s.held.value) ==> |Arriving(s)| >= 1;
  }

  /** A Write Command sent on a quiet connection leaves a reply that nobody waits for
      exactly when it fails, and fits the server's read buffer. */
  lemma StrayReplyIffCommandFails(aa: seq<Attr>, s: State, req: bytes, env: Env)
    requires Good(aa, s) && s.open && s.toServer == [] && Stray(s.toClient) == [] && Enabled(aa, s, Command(req))
    ensures var c := Next(aa, s, Command(req));
      && Enabled(aa, c, Serve(env))
      && var t := Next(aa, c, Serve(env));
         t.writer.Idle? && (Stray(t.toClient) == [] <==> Silent(aa, req) || EndsLoop(req))
  {
    var c := Next(aa, s, Command(req));
    assert c.toServer[0] == req;
    ServedPacket(aa, s.mtu, env, req);
    var r := Reply(aa, s.mtu, env, req);
    if r.Some? {
      KeepSnoc(s.toClient, IsStray, r.value);
    }
  }
}
