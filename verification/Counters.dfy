/** The load test's counters (js-packages/scripts/transfer.nload.ts): every worker process counts
    in a table of its own and now and then sends the table to the master, which adds it up. */
module Counters {
  import opened Common

  type Counts = map<string, int>

  function Get(m: Counts, name: string): int {
    if name in m then m[name] else 0
  }

  function Increased(m: Counts, name: string, amount: int): Counts {
    m[name := Get(m, name) + amount]
  }

  function Merged(m: Counts, message: Counts): Counts {
    map name | name in m.Keys + message.Keys :: Get(m, name) + Get(message, name)
  }

  /** One process's module-level `counters`. */
  class CounterTable {
    var counts: Counts

    constructor ()
      ensures counts == map[]
    {
      counts := map[];
    }

    /** `increaseCounter`. */
    method Increase(name: string, amount: int)
      modifies this
      ensures counts == Increased(old(counts), name, amount)
    {
      if name !in counts || counts[name] == 0 {
        counts := counts[name := 0];
      }
      counts := counts[name := counts[name] + amount];
    }

    /** `flushCounterToMaster`: the message sent, if any. */
    method Flush() returns (message: Option<Counts>)
      modifies this
      ensures message == if old(counts) == map[] then None else Some(old(counts))
      ensures counts == map[]
    {
      if |counts.Keys| == 0 {
        return None;
      }
      message := Some(counts);
      counts := map[];
    }

    /** The master's message handler: one `increaseCounter` per key, in any key order. */
    method Receive(message: Counts)
      modifies this
      ensures counts == Merged(old(counts), message)
    {
      var todo := message.Keys;
      while todo != {}
        invariant todo <= message.Keys
        invariant counts.Keys == old(counts).Keys + (message.Keys - todo)
        invariant forall name :: Get(counts, name) ==
                    Get(old(counts), name) + (if name in message && name !in todo then message[name] else 0)
        decreases todo
      {
        var name :| name in todo;
        Increase(name, message[name]);
        todo := todo - {name};
      }
      SameCounts(counts, Merged(old(counts), message));
    }
  }

  lemma SameCounts(m: Counts, n: Counts)
    requires m.Keys == n.Keys && forall name :: Get(m, name) == Get(n, name)
    ensures m == n
  {
    forall name | name in m ensures m[name] == n[name] {
      assert Get(m, name) == Get(n, name);
    }
  }

  // ----- the protocol -----

  /** All processes at one moment. A worker is gone once it has exited; what it still held then
      is kept in `lost`. `channel` holds the messages sent and not yet handled. */
  datatype State = State(
    master: Counts, workers: seq<Option<Counts>>, channel: seq<Counts>, lost: seq<Counts>)

  datatype Event =
    | Increment(worker: nat, name: string, amount: int)
    | Send(worker: nat)
    | Deliver(position: nat)
    | Exit(worker: nat)

  predicate Alive(s: State, worker: nat) {
    worker < |s.workers| && s.workers[worker].Some?
  }

  /** An event of a worker that has exited, or a delivery of nothing, changes nothing. */
  function Step(s: State, e: Event): State {
    match e
    case Increment(w, name, amount) =>
      if !Alive(s, w) then s
      else s.(workers := s.workers[w := Some(Increased(s.workers[w].value, name, amount))])
    case Send(w) =>
      if !Alive(s, w) || s.workers[w].value == map[] then s
      else s.(workers := s.workers[w := Some(map[])], channel := s.channel + [s.workers[w].value])
    case Deliver(k) =>
      if |s.channel| <= k then s
      else s.(master := Merged(s.master, s.channel[k]), channel := s.channel[..k] + s.channel[k + 1..])
    case Exit(w) =>
      if !Alive(s, w) then s
      else s.(workers := s.workers[w := None], lost := s.lost + [s.workers[w].value])
  }

  function Run(s: State, events: seq<Event>): State
    decreases |events|
  {
    if events == [] then s else Run(Step(s, events[0]), events[1..])
  }

  function Held(w: Option<Counts>, name: string): int {
    if w.None? then 0 else Get(w.value, name)
  }

  function SumWorkers(ws: seq<Option<Counts>>, name: string): int {
    if ws == [] then 0 else Held(ws[0], name) + SumWorkers(ws[1..], name)
  }

  function SumCounts(ms: seq<Counts>, name: string): int {
    if ms == [] then 0 else Get(ms[0], name) + SumCounts(ms[1..], name)
  }

  /** Everything counted under `name`, wherever it is now. */
  function Total(s: State, name: string): int {
    Get(s.master, name) + SumWorkers(s.workers, name) + SumCounts(s.channel, name) + SumCounts(s.lost, name)
  }

  /** What the events add under `name`: the increments made by workers that had not exited. */
  function Made(s: State, events: seq<Event>, name: string): int
    decreases |events|
  {
    if events == [] then 0
    else
      var now := match events[0]
        case Increment(w, n, amount) => if Alive(s, w) && n == name then amount else 0
        case _ => 0;
      now + Made(Step(s, events[0]), events[1..], name)
  }

  lemma {:induction false} SumWorkersUpdated(ws: seq<Option<Counts>>, i: nat, w: Option<Counts>, name: string)
    requires i < |ws|
    ensures SumWorkers(ws[i := w], name) == SumWorkers(ws, name) - Held(ws[i], name) + Held(w, name)
    decreases i
  {
    if i == 0 {
      assert ws[i := w][1..] == ws[1..];
    } else {
      assert ws[i := w][1..] == ws[1..][i - 1 := w];
      SumWorkersUpdated(ws[1..], i - 1, w, name);
    }
  }

  lemma {:induction false} SumCountsAppend(p: seq<Counts>, q: seq<Counts>, name: string)
    ensures SumCounts(p + q, name) == SumCounts(p, name) + SumCounts(q, name)
    decreases |p|
  {
    if p == [] {
      assert p + q == q;
    } else {
      assert (p + q)[1..] == p[1..] + q;
      SumCountsAppend(p[1..], q, name);
    }
  }

  lemma SumCountsRemoved(ms: seq<Counts>, k: nat, name: string)
    requires k < |ms|
    ensures SumCounts(ms[..k] + ms[k + 1..], name) == SumCounts(ms, name) - Get(ms[k], name)
  {
    SumCountsAppend(ms[..k], ms[k + 1..], name);
    SumCountsAppend(ms[..k], ms[k..], name);
    assert ms == ms[..k] + ms[k..];
    assert ms[k..][1..] == ms[k + 1..];
  }

  lemma GetAfter(m: Counts, message: Counts, n: string, amount: int, name: string)
    ensures Get(Increased(m, n, amount), name) == Get(m, name) + (if n == name then amount else 0)
    ensures Get(Merged(m, message), name) == Get(m, name) + Get(message, name)
    ensures Get(map[], name) == 0
  {
  }

  lemma SumOne(m: Counts, name: string)
    ensures SumCounts([m], name) == Get(m, name)
  {
  }

  lemma StepConserves(s: State, e: Event, name: string)
    ensures Total(Step(s, e), name) == Total(s, name) + Made(s, [e], name)
  {
    hide Increased, Merged, Get, SumWorkers, SumCounts;
    assert Made(Step(s, e), [e][1..], name) == 0;
    match e
    case Increment(w, n, amount) =>
      if Alive(s, w) {
        GetAfter(s.workers[w].value, map[], n, amount, name);
        SumWorkersUpdated(s.workers, w, Some(Increased(s.workers[w].value, n, amount)), name);
      }
    case Send(w) =>
      if Alive(s, w) {
        GetAfter(map[], map[], name, 0, name);
        SumWorkersUpdated(s.workers, w, Some(map[]), name);
        SumCountsAppend(s.channel, [s.workers[w].value], name);
        SumOne(s.workers[w].value, name);
      }
    case Deliver(k) =>
      if k < |s.channel| {
        GetAfter(s.master, s.channel[k], name, 0, name);
        SumCountsRemoved(s.channel, k, name);
      }
    case Exit(w) =>
      if Alive(s, w) {
        SumWorkersUpdated(s.workers, w, None, name);
        SumCountsAppend(s.lost, [s.workers[w].value], name);
        SumOne(s.workers[w].value, name);
      }
  }

  /** Conservation: however increments, sends, deliveries and exits interleave, every increment is
      counted exactly once, at the master, in a message, at a worker, or lost with one. */
  lemma {:induction false} CountersConserved(s: State, events: seq<Event>, name: string)
    ensures Total(Run(s, events), name) == Total(s, name) + Made(s, events, name)
    decreases |events|
  {
    if events != [] {
      StepConserves(s, events[0], name);
      CountersConserved(Step(s, events[0]), events[1..], name);
    }
  }

  // ----- what an exit loses -----

  /** Two states that differ at most in what was lost. */
  predicate SameButLost(s: State, t: State) {
    s.master == t.master && s.workers == t.workers && s.channel == t.channel
  }

  lemma {:induction false} LostIsOutOfReach(s: State, t: State, events: seq<Event>)
    requires SameButLost(s, t)
    ensures SameButLost(Run(s, events), Run(t, events))
    decreases |events|
  {
    if events != [] {
      hide Increased, Merged;
      LostIsOutOfReach(Step(s, events[0]), Step(t, events[0]), events[1..]);
    }
  }

  /** What a worker holds when it exits never reaches the master: whatever happens afterwards, the
      master counts the same as if the worker had held something else. */
  lemma ExitLosesTheRest(s: State, w: nat, other: Counts, events: seq<Event>)
    requires Alive(s, w)
    ensures var t := s.(workers := s.workers[w := Some(other)]);
            Run(Step(s, Exit(w)), events).master == Run(Step(t, Exit(w)), events).master
  {
    var t := s.(workers := s.workers[w := Some(other)]);
    assert t.workers[w := None] == s.workers[w := None];
    LostIsOutOfReach(Step(s, Exit(w)), Step(t, Exit(w)), events);
  }

  // ----- draining -----

  function SendAll(n: nat): seq<Event> {
    if n == 0 then [] else SendAll(n - 1) + [Send(n - 1)]
  }

  function DeliverAll(n: nat): seq<Event> {
    if n == 0 then [] else [Deliver(0)] + DeliverAll(n - 1)
  }

  lemma {:induction false} RunAppend(s: State, p: seq<Event>, q: seq<Event>)
    ensures Run(s, p + q) == Run(Run(s, p), q)
    decreases |p|
  {
    if p == [] {
      assert p + q == q;
    } else {
      assert (p + q)[1..] == p[1..] + q;
      RunAppend(Step(s, p[0]), p[1..], q);
    }
  }

  lemma {:induction false} SendAllEmptiesWorkers(s: State, n: nat)
    requires n <= |s.workers|
    ensures var t := Run(s, SendAll(n));
            && |t.workers| == |s.workers| && t.lost == s.lost
            && forall i :: 0 <= i < n ==> t.workers[i].None? || t.workers[i].value == map[]
    decreases n
  {
    if n != 0 {
      SendAllEmptiesWorkers(s, n - 1);
      RunAppend(s, SendAll(n - 1), [Send(n - 1)]);
      assert Run(Run(s, SendAll(n - 1)), [Send(n - 1)]) == Step(Run(s, SendAll(n - 1)), Send(n - 1));
    }
  }

  lemma {:induction false} EmptyWorkersHoldNothing(ws: seq<Option<Counts>>, name: string)
    requires forall i :: 0 <= i < |ws| ==> ws[i].None? || ws[i].value == map[]
    ensures SumWorkers(ws, name) == 0
  {
    if ws != [] {
      EmptyWorkersHoldNothing(ws[1..], name);
    }
  }

  lemma {:induction false} DeliverAllEmptiesChannel(s: State, n: nat)
    requires n == |s.channel|
    ensures var t := Run(s, DeliverAll(n));
            t.channel == [] && t.workers == s.workers && t.lost == s.lost
    decreases n
  {
    if n != 0 {
      hide Merged;
      var s' := Step(s, Deliver(0));
      assert s'.channel == s.channel[1..] && s'.workers == s.workers && s'.lost == s.lost;
      assert DeliverAll(n)[0] == Deliver(0) && DeliverAll(n)[1..] == DeliverAll(n - 1);
      assert Run(s, DeliverAll(n)) == Run(s', DeliverAll(n - 1));
      DeliverAllEmptiesChannel(s', n - 1);
    }
  }

  lemma {:induction false} DrainMakesNothing(s: State, events: seq<Event>, name: string)
    requires forall e :: e in events ==> e.Send? || e.Deliver?
    ensures Made(s, events, name) == 0
    decreases |events|
  {
    if events != [] {
      assert events[0] in events;
      DrainMakesNothing(Step(s, events[0]), events[1..], name);
    }
  }

  lemma {:induction false} DrainEvents(n: nat)
    ensures forall e :: e in SendAll(n) ==> e.Send?
    ensures forall e :: e in DeliverAll(n) ==> e.Deliver?
  {
    if n != 0 {
      DrainEvents(n - 1);
    }
  }

  /** Once every worker has sent and every message is handled, the master's count is everything
      counted so far except what exited workers took with them. */
  lemma DrainedMasterIsExact(s: State, name: string)
    ensures var sent := Run(s, SendAll(|s.workers|));
            var end := Run(sent, DeliverAll(|sent.channel|));
            Get(end.master, name) == Total(s, name) - SumCounts(s.lost, name)
  {
    var n := |s.workers|;
    var sent := Run(s, SendAll(n));
    var m := |sent.channel|;
    var end := Run(sent, DeliverAll(m));
    DrainEvents(n);
    DrainEvents(m);
    CountersConserved(s, SendAll(n), name);
    CountersConserved(sent, DeliverAll(m), name);
    DrainMakesNothing(s, SendAll(n), name);
    DrainMakesNothing(sent, DeliverAll(m), name);
    SendAllEmptiesWorkers(s, n);
    EmptyWorkersHoldNothing(sent.workers, name);
    DeliverAllEmptiesChannel(sent, m);
  }
}
