/** Subscriptions under concurrency: handler goroutines send under a read lock, the server
    loop (or a user closing the connection) stops a notifier under its write lock. */
module Notifiers {

  /** A notifier, known by its index; it is created live and its handle never changes. */
  datatype Note = Note(handle: nat, done: bool)

  /** A handler goroutine inside `Write`: it holds the read lock of `n`, before or after it
      has seen that `n` is not done. */
  datatype Thread = Out | Reading(n: nat) | Sending(n: nat)

  /** Who holds the table's mutex: a stop waits for the write lock, takes it, sets the flag. */
  datatype Owner =
    | Free
    | Waiting(h: nat, n: nat, remove: bool)
    | Locked(h: nat, n: nat, remove: bool)
    | Marked(h: nat, n: nat, remove: bool)

  datatype State = State(notes: seq<Note>, table: map<nat, nat>, threads: seq<Thread>, owner: Owner, sent: seq<nat>)

  datatype Event =
    | Subscribe(h: nat)               // startNotify
    | Unsubscribe(h: nat)             // stopNotify begins
    | CloseOne(h: nat)                // Close stops one notifier and keeps it in the table
    | Lock                            // the write lock is granted
    | Mark                            // done := true
    | Finish                          // unlock, remove, return
    | Enter(t: nat, n: nat)           // a handler's Write takes the read lock
    | Check(t: nat)                   // and looks at done
    | Transmit(t: nat)                // sends, and releases

  predicate ReadLocked(s: State, n: nat)
  {
    Reading(n) in s.threads || Sending(n) in s.threads
  }

  predicate WriteLocked(s: State, n: nat)
  {
    (s.owner.Locked? || s.owner.Marked?) && s.owner.n == n
  }

  predicate Enabled(s: State, e: Event)
  {
    match e
    case Subscribe(h) => s.owner.Free?
    case Unsubscribe(h) => s.owner.Free? && h in s.table
    case CloseOne(h) => s.owner.Free? && h in s.table
    case Lock => s.owner.Waiting? && !ReadLocked(s, s.owner.n)
    case Mark => s.owner.Locked? && s.owner.n < |s.notes|
    case Finish => s.owner.Marked?
    case Enter(t, n) => t < |s.threads| && s.threads[t].Out? && n < |s.notes| && !WriteLocked(s, n)
    case Check(t) => t < |s.threads| && s.threads[t].Reading? && s.threads[t].n < |s.notes|
    case Transmit(t) => t < |s.threads| && s.threads[t].Sending?
  }

  function Next(s: State, e: Event): State
    requires Enabled(s, e)
  {
    match e
    case Subscribe(h) =>
      if h in s.table then s
      else s.(notes := s.notes + [Note(h, false)], table := s.table[h := |s.notes|])
    case Unsubscribe(h) => s.(owner := Waiting(h, s.table[h], true))
    case CloseOne(h) => s.(owner := Waiting(h, s.table[h], false))
    case Lock => s.(owner := Locked(s.owner.h, s.owner.n, s.owner.remove))
    case Mark =>
      s.(notes := s.notes[s.owner.n := s.notes[s.owner.n].(done := true)],
         owner := Marked(s.owner.h, s.owner.n, s.owner.remove))
    case Finish => s.(owner := Free, table := if s.owner.remove then s.table - {s.owner.h} else s.table)
    case Enter(t, n) => s.(threads := s.threads[t := Reading(n)])
    case Check(t) =>
      var n := s.threads[t].n;
      s.(threads := s.threads[t := if s.notes[n].done then Out else Sending(n)])
    case Transmit(t) => s.(threads := s.threads[t := Out], sent := s.sent + [s.threads[t].n])
  }

  predicate Possible(s: State, es: seq<Event>)
    decreases |es|
  {
    es == [] || (Enabled(s, es[0]) && Possible(Next(s, es[0]), es[1..]))
  }

  function Run(s: State, es: seq<Event>): State
    requires Possible(s, es)
    decreases |es|
  {
    if es == [] then s else Run(Next(s, es[0]), es[1..])
  }

  /** No subscriptions, and `k` goroutines that have not called `Write` yet. */
  function Start(k: nat): State
  {
    State([], map[], seq(k, i => Out), Free, [])
  }

  // --------------------------------------------------------- the invariant

  /** A live notifier is the one registered for its handle. */
  ghost predicate Registered(s: State)
  {
    && (forall h :: h in s.table ==> s.table[h] < |s.notes| && s.notes[s.table[h]].handle == h)
    && (forall n :: 0 <= n < |s.notes| && !s.notes[n].done ==>
          s.notes[n].handle in s.table && s.table[s.notes[n].handle] == n)
  }

  /** Nobody reads under a write lock, and nobody who has passed the check is overtaken. */
  ghost predicate Exclusive(s: State)
  {
    && (forall t :: 0 <= t < |s.threads| && !s.threads[t].Out? ==>
          s.threads[t].n < |s.notes| && !WriteLocked(s, s.threads[t].n))
    && (forall t :: 0 <= t < |s.threads| && s.threads[t].Sending? && s.threads[t].n < |s.notes| ==>
          !s.notes[s.threads[t].n].done)
  }

  ghost predicate Owned(s: State)
  {
    && (!s.owner.Free? ==> s.owner.h in s.table && s.table[s.owner.h] == s.owner.n)
    && (s.owner.Marked? ==> s.owner.n < |s.notes| && s.notes[s.owner.n].done)
  }

  ghost predicate Good(s: State)
  {
    Registered(s) && Exclusive(s) && Owned(s)
  }

  lemma StartIsGood(k: nat)
    ensures Good(Start(k))
  {}

  lemma LockExcludes(s: State)
    requires Good(s) && Enabled(s, Lock)
    ensures Good(Next(s, Lock))
  {
    forall t | 0 <= t < |s.threads| && !s.threads[t].Out? ensures s.threads[t].n != s.owner.n {
      assert s.threads[t] in s.threads;
    }
  }

  lemma NextKeeps(s: State, e: Event)
    requires Good(s) && Enabled(s, e)
    ensures Good(Next(s, e))
  {
    if e.Lock? {
      LockExcludes(s);
    } else {
      RegisteredNext(s, e);
      ExclusiveNext(s, e);
    }
  }

  lemma RegisteredNext(s: State, e: Event)
    requires Good(s) && Enabled(s, e)
    ensures Registered(Next(s, e)) && Owned(Next(s, e))
  {
    hide Exclusive, ReadLocked, WriteLocked;
  }

  lemma ExclusiveNext(s: State, e: Event)
    requires Good(s) && Enabled(s, e) && !e.Lock?
    ensures Exclusive(Next(s, e))
  {
    hide Registered, ReadLocked;
  }

  /** In every reachable state the invariant holds and no handle has two live notifiers. */
  lemma {:induction false} EveryRunIsGood(s: State, es: seq<Event>)
    requires Good(s) && Possible(s, es)
    ensures Good(Run(s, es))
    ensures var notes := Run(s, es).notes;
      forall m, n :: 0 <= m < n < |notes| && notes[m].handle == notes[n].handle ==> notes[m].done || notes[n].done
    decreases |es|
  {
    if es != [] {
      NextKeeps(s, es[0]);
      EveryRunIsGood(Next(s, es[0]), es[1..]);
    }
  }

  /** How many notifications of `n` have gone out. */
  function Count(sent: seq<nat>, n: nat): nat
  {
    multiset(sent)[n]
  }

  lemma DoneNextDone(s: State, e: Event, n: nat)
    requires Good(s) && Enabled(s, e) && n < |s.notes| && s.notes[n].done
    ensures var t := Next(s, e);
      n < |t.notes| && t.notes[n] == s.notes[n] && Count(t.sent, n) == Count(s.sent, n)
  {}

  /** A stopped notifier stays stopped and sends nothing more, whatever the handlers do. */
  lemma {:induction false} StoppedIsFinal(s: State, es: seq<Event>, n: nat)
    requires Good(s) && Possible(s, es) && n < |s.notes| && s.notes[n].done
    ensures var t := Run(s, es);
      n < |t.notes| && t.notes[n].done && Count(t.sent, n) == Count(s.sent, n)
    decreases |es|
  {
    if es != [] {
      DoneNextDone(s, es[0], n);
      NextKeeps(s, es[0]);
      StoppedIsFinal(Next(s, es[0]), es[1..], n);
    }
  }

  /** When `stopNotify` returns, and so before the response to the unsubscribing write, the
      notifier is out of the table and nothing it could send is still under way. */
  lemma UnsubscribeReturns(s: State)
    requires Good(s) && Enabled(s, Finish) && s.owner.remove
    ensures var n, t := s.owner.n, Next(s, Finish);
      && n < |t.notes| && t.notes[n].done && s.owner.h !in t.table && !ReadLocked(t, n)
      && forall es :: Possible(t, es) ==> Count(Run(t, es).sent, n) == Count(t.sent, n)
  {
    var n, t := s.owner.n, Next(s, Finish);
    NextKeeps(s, Finish);
    forall es | Possible(t, es) ensures Count(Run(t, es).sent, n) == Count(t.sent, n) {
      StoppedIsFinal(t, es, n);
    }
    forall i | 0 <= i < |t.threads| ensures t.threads[i] != Reading(n) && t.threads[i] != Sending(n) {
      assert t.threads[i].Out? || !WriteLocked(s, s.threads[i].n);
    }
  }

  lemma First(s: State, e: Event, es: seq<Event>)
    requires Enabled(s, e) && Possible(Next(s, e), es)
    ensures Possible(s, [e] + es) && Run(s, [e] + es) == Run(Next(s, e), es)
  {
    assert ([e] + es)[1..] == es;
  }

  /** A live notifier sends: a goroutine that is not sending yet can, unless a stop holds its
      lock, and one notification more is out. */
  lemma LiveNotifierSends(s: State, t: nat, n: nat)
    requires Good(s) && t < |s.threads| && s.threads[t].Out?
    requires n < |s.notes| && !s.notes[n].done && !WriteLocked(s, n)
    ensures var es := [Enter(t, n)] + ([Check(t)] + ([Transmit(t)] + []));
      Possible(s, es) && Run(s, es).sent == s.sent + [n]
  {
    var a := Next(s, Enter(t, n));
    var b := Next(a, Check(t));
    var none: seq<Event> := [];
    First(b, Transmit(t), none);
    First(a, Check(t), [Transmit(t)] + none);
    First(s, Enter(t, n), [Check(t)] + ([Transmit(t)] + none));
  }

  /** A stopped one does not, though its goroutine tries. */
  lemma StoppedNotifierDoesNotSend(s: State, t: nat, n: nat)
    requires Good(s) && t < |s.threads| && s.threads[t].Out?
    requires n < |s.notes| && s.notes[n].done && !WriteLocked(s, n)
    ensures var es := [Enter(t, n)] + ([Check(t)] + []);
      Possible(s, es) && Run(s, es).sent == s.sent && Run(s, es).threads == s.threads
  {
    var a := Next(s, Enter(t, n));
    var none: seq<Event> := [];
    First(a, Check(t), none);
    First(s, Enter(t, n), [Check(t)] + none);
  }
}
