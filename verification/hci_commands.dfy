/** HCI commands and the events that answer them (Bluetooth Core Specification, Vol 4
    Part E, section 4.4): an event resolves the oldest command with its opcode. */
module HciCommands {
  import opened Bytes

  /** What a command's sender receives: nothing from a status, parameters when complete. */
  datatype Outcome = Waiting | ByStatus | Complete(params: bytes)

  class CmdPkt {
    ghost const id: nat       // how many commands were sent before
    const op: nat
    var outcome: Outcome

    constructor (ghost id: nat, op: nat)
      ensures this.id == id && this.op == op && outcome == Waiting
    {
      this.id, this.op, outcome := id, op, Waiting;
    }
  }

  /** Opcodes are compared on 16 bits. */
  predicate Carries(op: nat, opcode: uint16) { op % 0x10000 == opcode }

  class Cmd {
    var sent: seq<CmdPkt>
    ghost var count: nat

    /** Each pending command is listed once and has not been resolved. */
    ghost predicate Valid()
      reads this, sent
    {
      && (forall i, j :: 0 <= i < j < |sent| ==> sent[i] != sent[j])
      && (forall i :: 0 <= i < |sent| ==> sent[i].outcome == Waiting)
    }

    /** The pending commands as a value. */
    ghost function Pending(log: seq<Handled>): State
      reads this
    {
      State(count, View(sent), log)
    }

    constructor ()
      ensures Valid() && Pending([]) == After([])
    {
      sent, count := [], 0;
    }

    method Send(op: nat, ghost log: seq<Handled>) returns (p: CmdPkt)
      requires Valid()
      modifies this
      ensures Valid() && fresh(p) && p.op == op && sent == old(sent) + [p]
      ensures Pending(log) == Next(old(Pending(log)), Step.Send(op))
    {
      p := new CmdPkt(count, op);
      sent := sent + [p];
      count := count + 1;
      assert View(sent) == View(old(sent)) + [Sent(p.id, p.op)];
    }

    /** One event: resolves and removes the first pending command with its opcode,
        and touches no other; an event without one changes nothing. */
    method HandleEvent(opcode: uint16, outcome: Outcome, ghost log: seq<Handled>) returns (found: bool)
      requires Valid() && !outcome.Waiting?
      modifies this`sent, sent
      ensures Valid()
      ensures var was := old(Pending(log));
        var i := First(was.pending, opcode);
        && Pending(Next(was, Event(opcode)).log) == Next(was, Event(opcode))
        && found == (i < |old(sent)|)
        && (found ==> old(sent)[i].outcome == outcome)
    {
      hide First;
      found := false;
      var i := 0;
      while i < |sent|
        invariant 0 <= i <= |sent| && !found && sent == old(sent) && Valid()
        invariant forall j :: 0 <= j < i ==> !Carries(sent[j].op, opcode)
      {
        var p := sent[i];
        if Carries(p.op, opcode) {
          FirstIs(View(sent), opcode, i);
          assert View(sent[..i] + sent[i + 1..]) == View(sent)[..i] + View(sent)[i + 1..];
          found := true;
          sent := sent[..i] + sent[i + 1..];
          p.outcome := outcome;
          return;
        }
        i := i + 1;
      }
      FirstIs(View(sent), opcode, |sent|);
    }
  }

  ghost function View(ps: seq<CmdPkt>): seq<Sent> {
    seq(|ps|, i requires 0 <= i < |ps| => Sent(ps[i].id, ps[i].op))
  }

  // -------------------------------------------------------- whole histories

  /** Commands by the order in which they were sent. */
  datatype Sent = Sent(id: nat, op: nat)

  /** One event and the command it resolved, if any. */
  datatype Handled = Handled(opcode: uint16, id: Option<nat>)

  datatype State = State(count: nat, pending: seq<Sent>, log: seq<Handled>)

  datatype Step = Send(op: nat) | Event(opcode: uint16)

  function First(pending: seq<Sent>, opcode: uint16): (i: nat)
    ensures i <= |pending| && forall j :: 0 <= j < i ==> !Carries(pending[j].op, opcode)
    ensures i < |pending| ==> Carries(pending[i].op, opcode)
  {
    if pending == [] || Carries(pending[0].op, opcode) then 0 else 1 + First(pending[1..], opcode)
  }

  lemma FirstIs(pending: seq<Sent>, opcode: uint16, i: nat)
    requires i <= |pending| && forall j :: 0 <= j < i ==> !Carries(pending[j].op, opcode)
    requires i < |pending| ==> Carries(pending[i].op, opcode)
    ensures First(pending, opcode) == i
  {}

  function Next(s: State, e: Step): State
  {
    match e
    case Send(op) => State(s.count + 1, s.pending + [Sent(s.count, op)], s.log)
    case Event(opcode) =>
      var i := First(s.pending, opcode);
      if i == |s.pending| then s.(log := s.log + [Handled(opcode, None)])
      else s.(pending := s.pending[..i] + s.pending[i + 1..], log := s.log + [Handled(opcode, Some(s.pending[i].id))])
  }

  function After(steps: seq<Step>): State
  {
    if steps == [] then State(0, [], []) else Next(After(steps[..|steps| - 1]), steps[|steps| - 1])
  }

  /** The commands sent with an opcode, by id, in order. */
  function SentWith(steps: seq<Step>, opcode: uint16): seq<nat>
  {
    if steps == [] then []
    else
      var init, e := steps[..|steps| - 1], steps[|steps| - 1];
      if e.Send? && Carries(e.op, opcode) then SentWith(init, opcode) + [After(init).count] else SentWith(init, opcode)
  }

  function PendingWith(p: seq<Sent>, opcode: uint16): seq<nat>
  {
    if p == [] then []
    else if Carries(p[0].op, opcode) then [p[0].id] + PendingWith(p[1..], opcode)
    else PendingWith(p[1..], opcode)
  }

  /** The events with an opcode: what each resolved. */
  function EventsWith(log: seq<Handled>, opcode: uint16): seq<Option<nat>>
  {
    if log == [] then []
    else
      var init, e := log[..|log| - 1], log[|log| - 1];
      if e.opcode == opcode then EventsWith(init, opcode) + [e.id] else EventsWith(init, opcode)
  }

  function Somes(es: seq<Option<nat>>): seq<nat>
  {
    if es == [] then []
    else
      var init, e := es[..|es| - 1], es[|es| - 1];
      if e.Some? then Somes(init) + [e.value] else Somes(init)
  }

  lemma {:induction false} PendingConcat(a: seq<Sent>, b: seq<Sent>, opcode: uint16)
    ensures PendingWith(a + b, opcode) == PendingWith(a, opcode) + PendingWith(b, opcode)
  {
    if a == [] {
      assert a + b == b;
    } else {
      assert (a + b)[0] == a[0] && (a + b)[1..] == a[1..] + b;
      PendingConcat(a[1..], b, opcode);
    }
  }

  lemma {:induction false} NonePending(p: seq<Sent>, opcode: uint16)
    requires forall j :: 0 <= j < |p| ==> !Carries(p[j].op, opcode)
    ensures PendingWith(p, opcode) == []
  {
    if p != [] {
      NonePending(p[1..], opcode);
    }
  }

  /** Taking the first command with `opcode` away. */
  lemma {:induction false} TakenAway(p: seq<Sent>, opcode: uint16, other: uint16)
    requires First(p, opcode) < |p|
    ensures var i := First(p, opcode);
      var rest := PendingWith(p[..i] + p[i + 1..], other);
      PendingWith(p, other) == if other == opcode then [p[i].id] + rest else rest
  {
    var i := First(p, opcode);
    var q := p[..i] + p[i + 1..];
    if i == 0 {
      assert q == p[1..];
    } else {
      TakenAway(p[1..], opcode, other);
      assert q[0] == p[0] && q[1..] == p[1..][..i - 1] + p[1..][i..];
    }
  }

  /** Per opcode, the commands resolved so far and those still pending are together
      exactly those sent, in the order sent. */
  lemma {:induction false} FirstInFirstOut(steps: seq<Step>, opcode: uint16)
    ensures var s := After(steps);
      Somes(EventsWith(s.log, opcode)) + PendingWith(s.pending, opcode) == SentWith(steps, opcode)
    decreases |steps|
  {
    if steps != [] {
      var init, e := steps[..|steps| - 1], steps[|steps| - 1];
      FirstInFirstOut(init, opcode);
      var s := After(init);
      match e
      case Send(op) =>
        PendingConcat(s.pending, [Sent(s.count, op)], opcode);
        assert [Sent(s.count, op)][1..] == [];
        Assoc(Somes(EventsWith(s.log, opcode)), PendingWith(s.pending, opcode),
              PendingWith([Sent(s.count, op)], opcode));
      case Event(o) =>
        EventStep(s, o, opcode);
    }
  }

  lemma EventStep(s: State, o: uint16, opcode: uint16)
    ensures var t := Next(s, Event(o));
      Somes(EventsWith(t.log, opcode)) + PendingWith(t.pending, opcode)
      == Somes(EventsWith(s.log, opcode)) + PendingWith(s.pending, opcode)
  {
    var t := Next(s, Event(o));
    var last := t.log[|s.log|];
    assert t.log[..|s.log|] == s.log && t.log == s.log + [last];
    var es, i := EventsWith(s.log, opcode), First(s.pending, o);
    if i < |s.pending| {
      TakenAway(s.pending, o, opcode);
    }
    if o == opcode {
      assert EventsWith(t.log, opcode) == es + [last.id];
      assert (es + [last.id])[..|es|] == es;
      if i < |s.pending| {
        assert Somes(es + [last.id]) == Somes(es) + [s.pending[i].id];
        Assoc(Somes(es), [s.pending[i].id], PendingWith(t.pending, opcode));
      } else {
        assert Somes(es + [last.id]) == Somes(es);
      }
    } else {
      assert EventsWith(t.log, opcode) == es;
      assert PendingWith(t.pending, opcode) == PendingWith(s.pending, opcode);
    }
  }

  /** An event resolves a command exactly when it carries that command's 16-bit opcode. */
  lemma OnlyItsOpcode(op: uint16, opcode: uint16)
    ensures After([Step.Send(op), Event(opcode)]).log == [Handled(opcode, if op == opcode then Some(0) else None)]
    ensures After([Step.Send(op), Event(opcode)]).pending == if op == opcode then [] else [Sent(0, op)]
  {
    var one, two := [Step.Send(op)], [Step.Send(op), Event(opcode)];
    assert one[..0] == [] && two[..1] == one;
    assert After(one) == Next(After([]), Step.Send(op)) == State(1, [Sent(0, op)], []);
    assert After(two) == Next(After(one), Event(opcode));
  }

  // ------------------------------------------------ all opcodes together

  /** Every command sent, in order; commands are numbered from 0. */
  function AllSent(steps: seq<Step>): (r: seq<Sent>)
    ensures |r| == After(steps).count && forall i :: 0 <= i < |r| ==> r[i].id == i
  {
    if steps == [] then []
    else
      var init, e := steps[..|steps| - 1], steps[|steps| - 1];
      if e.Send? then AllSent(init) + [Sent(After(init).count, e.op)] else AllSent(init)
  }

  /** Those of `all` that no event in the log has resolved. */
  function Unresolved(all: seq<Sent>, log: seq<Handled>): seq<Sent>
  {
    if log == [] then all
    else
      var rest, e := Unresolved(all, log[..|log| - 1]), log[|log| - 1];
      if e.id.Some? then Without(rest, e.id.value) else rest
  }

  function Without(q: seq<Sent>, id: nat): seq<Sent>
  {
    if q == [] then [] else if q[0].id == id then Without(q[1..], id) else [q[0]] + Without(q[1..], id)
  }

  predicate Increasing(q: seq<Sent>) { forall i, j :: 0 <= i < j < |q| ==> q[i].id < q[j].id }

  lemma {:induction false} WithoutNone(q: seq<Sent>, id: nat)
    requires forall i :: 0 <= i < |q| ==> q[i].id != id
    ensures Without(q, id) == q
  {
    if q != [] {
      WithoutNone(q[1..], id);
    }
  }

  lemma WithoutHead(q: seq<Sent>, id: nat)
    requires q != []
    ensures Without(q, id) == if q[0].id == id then Without(q[1..], id) else [q[0]] + Without(q[1..], id)
  {}

  lemma {:induction false} WithoutOne(q: seq<Sent>, i: nat)
    requires Increasing(q) && i < |q|
    ensures Without(q, q[i].id) == q[..i] + q[i + 1..]
  {
    hide Without;
    WithoutHead(q, q[i].id);
    if i == 0 {
      WithoutNone(q[1..], q[0].id);
    } else {
      var rest, r := q[1..], q[..i] + q[i + 1..];
      assert rest[i - 1] == q[i];
      WithoutOne(rest, i - 1);
      assert r[0] == q[0] && r[1..] == rest[..i - 1] + rest[i..];
    }
  }

  lemma {:induction false} WithoutSnoc(q: seq<Sent>, x: Sent, id: nat)
    requires x.id != id
    ensures Without(q + [x], id) == Without(q, id) + [x]
  {
    if q == [] {
      assert [x][1..] == [];
    } else {
      assert (q + [x])[0] == q[0] && (q + [x])[1..] == q[1..] + [x];
      WithoutSnoc(q[1..], x, id);
    }
  }

  /** A command sent after the log was written is unresolved. */
  lemma {:induction false} UnresolvedSnoc(all: seq<Sent>, log: seq<Handled>, x: Sent)
    requires forall k :: 0 <= k < |log| ==> log[k].id != Some(x.id)
    ensures Unresolved(all + [x], log) == Unresolved(all, log) + [x]
    decreases |log|
  {
    if log != [] {
      var init, e := log[..|log| - 1], log[|log| - 1];
      UnresolvedSnoc(all, init, x);
      if e.id.Some? {
        WithoutSnoc(Unresolved(all, init), x, e.id.value);
      }
    }
  }

  /** Ids in use are below the count, and pending ones increase. */
  predicate Numbered(s: State)
  {
    && Increasing(s.pending) && (forall i :: 0 <= i < |s.pending| ==> s.pending[i].id < s.count)
    && forall k :: 0 <= k < |s.log| && s.log[k].id.Some? ==> s.log[k].id.value < s.count
  }

  lemma NumberedNext(s: State, e: Step)
    requires Numbered(s)
    ensures Numbered(Next(s, e))
  {
    hide First;
  }

  lemma {:induction false} IdsBelow(steps: seq<Step>)
    ensures Numbered(After(steps))
    decreases |steps|
  {
    if steps != [] {
      hide Next, Numbered;
      IdsBelow(steps[..|steps| - 1]);
      NumberedNext(After(steps[..|steps| - 1]), steps[|steps| - 1]);
    } else {
      hide Next;
    }
  }

  lemma UnresolvedNext(all: seq<Sent>, s: State, e: Step)
    requires Numbered(s) && s.pending == Unresolved(all, s.log)
    ensures var t := Next(s, e);
      t.pending == Unresolved(if e.Send? then all + [Sent(s.count, e.op)] else all, t.log)
  {
    hide Without, First;
    match e
    case Send(op) => UnresolvedSnoc(all, s.log, Sent(s.count, op));
    case Event(o) =>
      assert Next(s, e).log[..|s.log|] == s.log;
      var i := First(s.pending, o);
      if i < |s.pending| {
        WithoutOne(s.pending, i);
      }
  }

  /** Over all opcodes: what is pending is exactly the commands not yet resolved, in the
      order sent. */
  lemma {:induction false} PendingIsUnresolved(steps: seq<Step>)
    ensures var s := After(steps);
      s.pending == Unresolved(AllSent(steps), s.log) && Increasing(s.pending)
    decreases |steps|
  {
    IdsBelow(steps);
    if steps != [] {
      var init, e := steps[..|steps| - 1], steps[|steps| - 1];
      PendingIsUnresolved(init);
      IdsBelow(init);
      UnresolvedNext(AllSent(init), After(init), e);
      hide Next, Unresolved, Numbered;
    }
  }

  lemma {:induction false} SentInOrder(steps: seq<Step>, opcode: uint16, k: nat)
    requires k < |SentWith(steps, opcode)|
    ensures SentWith(steps, opcode)[k] < After(steps).count
    ensures forall j {:trigger SentWith(steps, opcode)[j]} :: 0 <= j < k ==>
      SentWith(steps, opcode)[j] < SentWith(steps, opcode)[k]
    decreases |steps|
  {
    hide First, Carries;
    var init, e := steps[..|steps| - 1], steps[|steps| - 1];
    var ids := SentWith(init, opcode);
    if k < |ids| {
      SentInOrder(init, opcode, k);
    }
    if |ids| > 0 {
      SentInOrder(init, opcode, |ids| - 1);
    }
  }

  lemma {:induction false} SomesPrefix(es: seq<Option<nat>>, k: nat)
    requires k < |es| && es[k].Some?
    ensures |Somes(es[..k])| <= k && |Somes(es[..k])| < |Somes(es)|
    ensures Somes(es)[|Somes(es[..k])|] == es[k].value
    ensures |Somes(es[..k])| == k <==> forall j :: 0 <= j < k ==> es[j].Some?
    decreases |es|
  {
    var last := |es| - 1;
    SomesCount(es[..k]);
    if k < last {
      assert es[..last][..k] == es[..k];
      SomesPrefix(es[..last], k);
    }
  }

  lemma {:induction false} SomesCount(es: seq<Option<nat>>)
    ensures |Somes(es)| <= |es|
    ensures |Somes(es)| == |es| <==> forall j :: 0 <= j < |es| ==> es[j].Some?
  {
    if es != [] {
      SomesCount(es[..|es| - 1]);
    }
  }

  /** How many events carried an opcode. */
  function EventCount(steps: seq<Step>, opcode: uint16): nat
  {
    if steps == [] then 0
    else EventCount(steps[..|steps| - 1], opcode) + if steps[|steps| - 1] == Event(opcode) then 1 else 0
  }

  /** Up to its event `k`, an opcode never has more events than commands sent. */
  predicate InStep(steps: seq<Step>, opcode: uint16, k: nat)
  {
    forall n :: 0 <= n <= |steps| ==> NotAhead(steps[..n], opcode, k)
  }

  predicate NotAhead(steps: seq<Step>, opcode: uint16, k: nat)
  {
    EventCount(steps, opcode) <= k + 1 ==> EventCount(steps, opcode) <= |SentWith(steps, opcode)|
  }

  lemma InStepInit(steps: seq<Step>, opcode: uint16, k: nat)
    requires steps != []
    ensures InStep(steps, opcode, k) <==>
      InStep(steps[..|steps| - 1], opcode, k) && NotAhead(steps, opcode, k)
  {
    hide NotAhead;
    var init := steps[..|steps| - 1];
    assert steps[..|steps|] == steps;
    forall n | 0 <= n <= |init| ensures init[..n] == steps[..n] {}
  }

  /** Every event is logged. */
  lemma {:induction false} EventsCounted(steps: seq<Step>, opcode: uint16)
    ensures |EventsWith(After(steps).log, opcode)| == EventCount(steps, opcode)
    decreases |steps|
  {
    if steps != [] {
      var init := steps[..|steps| - 1];
      EventsCounted(init, opcode);
      var s, t := After(init), After(steps);
      assert steps[|init|].Event? ==> t.log[..|s.log|] == s.log;
    }
  }

  /** Events up to the k-th all found a command exactly when no prefix of the run holds
      more of them than commands. */
  lemma {:induction false} FoundIffInStep(steps: seq<Step>, opcode: uint16, k: nat)
    ensures var es := EventsWith(After(steps).log, opcode);
      AllFound(es, k) <==> InStep(steps, opcode, k)
    decreases |steps|
  {
    hide First, Carries, PendingWith;
    if steps != [] {
      var init, e := steps[..|steps| - 1], steps[|steps| - 1];
      FoundIffInStep(init, opcode, k);
      InStepInit(steps, opcode, k);
      EventsCounted(init, opcode);
      assert init[..|init|] == init;
      if e == Event(opcode) {
        LastEvent(init, opcode);
        AllFoundInit(EventsWith(After(steps).log, opcode), k);
        assert EventCount(steps, opcode) == |EventsWith(After(init).log, opcode)| + 1;
      } else if e.Event? {
        var s, t := After(init), After(steps);
        assert t.log[..|s.log|] == s.log;
      }
    }
  }

  /** The first k+1 events all found a command. */
  predicate AllFound(es: seq<Option<nat>>, k: nat) { forall j :: 0 <= j <= k && j < |es| ==> es[j].Some? }

  lemma AllFoundInit(es: seq<Option<nat>>, k: nat)
    requires es != []
    ensures var n := |es| - 1;
      AllFound(es, k) <==> AllFound(es[..n], k) && (n <= k ==> es[n].Some?)
  {
    var n := |es| - 1;
    assert forall j :: 0 <= j < n ==> es[..n][j] == es[j];
  }

  /** An event after events that all found a command finds one itself exactly when there
      are still fewer events than commands. */
  lemma LastEvent(init: seq<Step>, opcode: uint16)
    ensures var s := After(init);
      var es := EventsWith(s.log, opcode);
      var next := EventsWith(Next(s, Event(opcode)).log, opcode);
      && |next| == |es| + 1 && next[..|es|] == es
      && ((forall j :: 0 <= j < |es| ==> es[j].Some?) ==>
        (next[|es|].Some? <==> |es| < |SentWith(init, opcode)|))
  {
    var s := After(init);
    var es := EventsWith(s.log, opcode);
    var t := Next(s, Event(opcode));
    assert t.log[..|s.log|] == s.log;
    FirstInFirstOut(init, opcode);
    SomesCount(es);
    if First(s.pending, opcode) == |s.pending| {
      NonePending(s.pending, opcode);
    } else {
      TakenAway(s.pending, opcode, opcode);
    }
  }

  /** The k-th event with an opcode resolves the k-th command sent with it exactly when
      no event up to it came before its command. */
  lemma KthEventResolvesKthSend(steps: seq<Step>, opcode: uint16, k: nat)
    requires k < EventCount(steps, opcode)
    ensures var es, ids := EventsWith(After(steps).log, opcode), SentWith(steps, opcode);
      && |es| == EventCount(steps, opcode)
      && ((k < |ids| && es[k] == Some(ids[k])) <==> InStep(steps, opcode, k))
  {
    var es, ids := EventsWith(After(steps).log, opcode), SentWith(steps, opcode);
    EventsCounted(steps, opcode);
    FoundIffInStep(steps, opcode, k);
    FirstInFirstOut(steps, opcode);
    if es[k].Some? {
      SomesPrefix(es, k);
      assert AllFound(es, k) <==> forall j :: 0 <= j < k ==> es[j].Some?;
      var j := |Somes(es[..k])|;
      assert ids[j] == Somes(es)[j] == es[k].value;
      if k < |ids| {
        SentInOrder(steps, opcode, k);
      }
    }
  }

  /** After an event nobody waited for, the second event answers the first command. */
  lemma EarlyEventShifts(opcode: uint16)
    ensures var steps := [Event(opcode), Step.Send(opcode), Event(opcode)];
      && SentWith(steps, opcode) == [0]
      && EventsWith(After(steps).log, opcode) == [None, Some(0)]
      && !InStep(steps, opcode, 0) && !InStep(steps, opcode, 1)
  {
    hide After, SentWith, EventsWith, Carries;
    EarlyRun(opcode);
    EarlyLog(opcode);
    assert EventCount([], opcode) == 0;
    var steps := [Event(opcode), Step.Send(opcode), Event(opcode)];
    assert EventCount(steps[..1], opcode) == 1;
  }

  lemma EarlyLog(opcode: uint16)
    ensures EventsWith([Handled(opcode, None), Handled(opcode, Some(0))], opcode) == [None, Some(0)]
  {
    var log := [Handled(opcode, None)];
    assert log[..0] == [] && (log + [Handled(opcode, Some(0))])[..1] == log;
    assert EventsWith(log, opcode) == [None];
  }

  lemma EarlyRun(opcode: uint16)
    ensures var steps := [Event(opcode), Step.Send(opcode), Event(opcode)];
      && After(steps).log == [Handled(opcode, None), Handled(opcode, Some(0))]
      && steps[..1][..0] == [] && SentWith(steps[..1], opcode) == [] && SentWith(steps, opcode) == [0]
  {
    hide EventsWith, EventCount, PendingWith, Somes;
    var a, b := [Event(opcode)], [Event(opcode), Step.Send(opcode)];
    var steps := b + [Event(opcode)];
    assert a[..0] == [] && b[..1] == a && steps[..1] == a && steps[..2] == b;
    var log := [Handled(opcode, None)];
    assert After(a) == State(0, [], log);
    assert After(b) == State(1, [Sent(0, opcode)], log);
    assert steps == [Event(opcode), Step.Send(opcode), Event(opcode)];
  }

  /** No command is resolved twice. */
  lemma ResolvedAtMostOnce(steps: seq<Step>, opcode: uint16, j: nat, k: nat)
    requires j < k < |EventsWith(After(steps).log, opcode)|
    requires var es := EventsWith(After(steps).log, opcode);
      es[j].Some? && es[k].Some?
    ensures var es := EventsWith(After(steps).log, opcode);
      es[j].value < es[k].value
  {
    var es, ids := EventsWith(After(steps).log, opcode), SentWith(steps, opcode);
    FirstInFirstOut(steps, opcode);
    SomesPrefix(es, j);
    SomesPrefix(es, k);
    SomesPrefix(es[..k], j);
    assert es[..k][..j] == es[..j];
    var x, y := |Somes(es[..j])|, |Somes(es[..k])|;
    assert ids[x] == Somes(es)[x] && ids[y] == Somes(es)[y];
    SentInOrder(steps, opcode, y);
  }
}
