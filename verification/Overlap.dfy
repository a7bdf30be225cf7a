// Calls that overlap: several calls are started on one helper before the earlier ones are over,
// and the event loop takes their steps in whatever order it likes.

module Overlap {
  import opened Common
  import opened Transactions
  import opened AuditLog

  /** How far one call has come; `start` is the nonce its options object held when it started. */
  datatype Stage =
    | NotStarted
    | Asking // its RPC, or its nonce lookup, is in flight
    | Answered(nonce: nat) // the lookup is logged, its answer not yet written into the options
    | Signing(start: nat)
    | Over(start: nat, reply: Reply)

  /** What one step of a call does: it logs, it may write to its options object, and it goes on. */
  datatype Move = Move(entries: seq<LogEntry>, write: Option<nat>, stage: Stage)

  function Rest(stage: Stage): Move {
    Move([], None, stage)
  }

  function Finish(entries: seq<LogEntry>, start: nat, completion: Completion): Move {
    Move(entries, None, Over(start, ExtrinsicReply(completion)))
  }

  /** Everything up to the first await: the guards, and the test of the nonce. */
  function Start(connected: bool, c: Call, nonce: nat): Move {
    match c
    case Rpc(rpc, answer) =>
      if connected && IsRpc(rpc) then Rest(Asking)
      else Move([], None, Over(nonce, RpcReply(RpcAnswer(connected, rpc, answer))))
    case Extrinsic(_, _, _, w) =>
      if !connected then Finish([], nonce, Threw(NotConnected))
      else if w.built.Some? then Finish([], nonce, Threw(BadCall(w.built.value)))
      else if nonce == 0 then Rest(Asking)
      else Rest(Signing(nonce))
  }

  function StatusOf<V>(answer: Result<V, string>): Status {
    if answer.Ok? then Success else Fail
  }

  function Answer(c: Call): Move {
    match c
    case Rpc(rpc, answer) =>
      Move([RpcEntry(rpc, StatusOf(answer))], None,
           Over(0, RpcReply(match answer case Ok(v) => Ok(v) case Err(text) => Err(RpcFailed(text)))))
    case Extrinsic(_, _, _, w) =>
      var entries := [RpcEntry(NONCE_QUERY, StatusOf(w.nonce))];
      match w.nonce
      case Ok(v) => Move(entries, None, Answered(v))
      case Err(text) => Finish(entries, 0, Threw(RpcFailed(text)))
  }

  /** A call without a deciding notification stays where it is. */
  function Settle(call: string, expectSuccess: bool, w: World, start: nat): Move {
    if Sent(w) == Ok(Pending) then Rest(Signing(start))
    else Finish(Recorded(call, Sent(w)), start, Concluded(Sent(w), expectSuccess))
  }

  /** The next step of one call, whose options object holds `nonce` at that moment. */
  function Next(connected: bool, c: Call, stage: Stage, nonce: nat): Move {
    match stage
    case NotStarted => Start(connected, c, nonce)
    case Asking => Answer(c)
    case Answered(v) => Move([], Some(v), Signing(0))
    case Signing(start) =>
      if c.Extrinsic? then Settle(c.call, c.expectSuccess, c.world, start) else Rest(stage)
    case Over(_, _) => Rest(stage)
  }

  // ----- all calls together -----

  /** A log entry and the call that wrote it. */
  datatype Logged = Logged(writer: nat, entry: LogEntry)

  /** `finished` lists the calls that are over, in order of completion. */
  datatype State = State(log: seq<Logged>, nonces: seq<nat>, stages: seq<Stage>, finished: seq<nat>)

  predicate Fit(calls: seq<Call>, s: State) {
    |s.stages| == |calls| && AllFit(calls, |s.nonces|)
  }

  /** The nonce a call finds in its options object; RPC calls have none. */
  function Found(c: Call, nonces: seq<nat>): nat
    requires Fits(c, |nonces|)
  {
    if c.Extrinsic? then NonceOf(c, nonces) else 0
  }

  function Tagged(writer: nat, entries: seq<LogEntry>): seq<Logged> {
    seq(|entries|, k requires 0 <= k < |entries| => Logged(writer, entries[k]))
  }

  function Written(c: Call, write: Option<nat>, nonces: seq<nat>): (after: seq<nat>)
    requires Fits(c, |nonces|)
    ensures |after| == |nonces|
  {
    if write.Some? && c.Extrinsic? && c.slot.Some? then nonces[c.slot.value := write.value] else nonces
  }

  /** Call `i` takes its next step. */
  function Step(connected: bool, calls: seq<Call>, s: State, i: nat): (after: State)
    requires Fit(calls, s) && i < |calls|
    ensures Fit(calls, after) && |after.nonces| == |s.nonces|
  {
    assert calls[i] in calls;
    var m := Next(connected, calls[i], s.stages[i], Found(calls[i], s.nonces));
    State(s.log + Tagged(i, m.entries), Written(calls[i], m.write, s.nonces), s.stages[i := m.stage],
          s.finished + if m.stage.Over? && !s.stages[i].Over? then [i] else [])
  }

  predicate Indices(steps: seq<nat>, n: nat) {
    forall k :: 0 <= k < |steps| ==> steps[k] < n
  }

  /** Any interleaving: `steps` names the call that goes on, step by step. */
  function Run(connected: bool, calls: seq<Call>, s: State, steps: seq<nat>): (after: State)
    requires Fit(calls, s) && Indices(steps, |calls|)
    ensures Fit(calls, after) && |after.nonces| == |s.nonces|
    decreases |steps|
  {
    if steps == [] then s
    else
      var last := |steps| - 1;
      Step(connected, calls, Run(connected, calls, s, steps[..last]), steps[last])
  }

  function Initial(calls: seq<Call>, nonces: seq<nat>): State {
    State([], nonces, seq(|calls|, _ => NotStarted), [])
  }

  lemma RunSnoc(connected: bool, calls: seq<Call>, s: State, steps: seq<nat>, i: nat)
    requires Fit(calls, s) && Indices(steps, |calls|) && i < |calls|
    ensures Indices(steps + [i], |calls|)
    ensures Run(connected, calls, s, steps + [i]) == Step(connected, calls, Run(connected, calls, s, steps), i)
  {
    hide Step;
    assert (steps + [i])[..|steps|] == steps;
  }

  lemma {:induction false} RunAppend(connected: bool, calls: seq<Call>, s: State, p: seq<nat>, q: seq<nat>)
    requires Fit(calls, s) && Indices(p, |calls|) && Indices(q, |calls|)
    ensures Indices(p + q, |calls|)
    ensures Run(connected, calls, s, p + q) == Run(connected, calls, Run(connected, calls, s, p), q)
    decreases |q|
  {
    hide Step;
    if q == [] {
      assert p + q == p;
    } else {
      var last := |q| - 1;
      RunAppend(connected, calls, s, p, q[..last]);
      RunSnoc(connected, calls, s, p + q[..last], q[last]);
      assert p + q[..last] + [q[last]] == p + q;
    }
  }

  // ----- every call acts as it would alone -----

  /** The entries a call writes when nothing overlaps it and its object holds `start`. */
  function EntriesAlone(connected: bool, c: Call, start: nat): seq<LogEntry> {
    match c
    case Rpc(rpc, answer) => RpcEntries(connected, rpc, answer)
    case Extrinsic(call, _, _, w) =>
      LookupEntries(connected, start, w) + ExtrinsicEntries(connected, call, start, w)
  }

  function ReplyAlone(connected: bool, c: Call, start: nat): Reply {
    match c
    case Rpc(rpc, answer) => RpcReply(RpcAnswer(connected, rpc, answer))
    case Extrinsic(_, expectSuccess, _, w) => ExtrinsicReply(Completes(connected, start, w, expectSuccess))
  }

  /** What a call has written so far, and what it has told its caller, by how far it has come. */
  predicate OnCourse(connected: bool, c: Call, stage: Stage, wrote: seq<LogEntry>) {
    match stage
    case NotStarted => wrote == []
    case Asking => wrote == [] && connected && (if c.Rpc? then IsRpc(c.rpc) else c.world.built.None?)
    case Answered(v) =>
      && connected && c.Extrinsic? && c.world.built.None? && c.world.nonce == Ok(v)
      && wrote == LookupEntries(connected, 0, c.world)
    case Signing(start) =>
      && connected && c.Extrinsic? && c.world.built.None? && (start == 0 ==> c.world.nonce.Ok?)
      && wrote == LookupEntries(connected, start, c.world)
    case Over(start, reply) =>
      && wrote == EntriesAlone(connected, c, start)
      && reply == ReplyAlone(connected, c, start) && reply != ExtrinsicReply(Waiting)
  }

  lemma NextOnCourse(connected: bool, c: Call, stage: Stage, nonce: nat, wrote: seq<LogEntry>)
    requires OnCourse(connected, c, stage, wrote)
    ensures var m := Next(connected, c, stage, nonce); OnCourse(connected, c, m.stage, wrote + m.entries)
  {
    var m := Next(connected, c, stage, nonce);
    assert wrote + [] == wrote && [] + m.entries == m.entries;
  }

  /** The entries one call wrote. */
  function By(log: seq<Logged>, i: nat): seq<LogEntry> {
    if log == [] then []
    else
      var last := |log| - 1;
      By(log[..last], i) + if log[last].writer == i then [log[last].entry] else []
  }

  lemma {:induction false} ByAppend(log: seq<Logged>, i: nat, entries: seq<LogEntry>, j: nat)
    ensures By(log + Tagged(i, entries), j) == By(log, j) + if i == j then entries else []
    decreases |entries|
  {
    var all := log + Tagged(i, entries);
    if entries == [] {
      assert all == log;
    } else {
      var last := |entries| - 1;
      ByAppend(log, i, entries[..last], j);
      assert all[..|all| - 1] == log + Tagged(i, entries[..last]);
      assert entries == entries[..last] + [entries[last]];
    }
  }

  lemma StepOnCourse(connected: bool, calls: seq<Call>, s: State, i: nat, j: nat)
    requires Fit(calls, s) && i < |calls| && j < |calls|
    requires OnCourse(connected, calls[j], s.stages[j], By(s.log, j))
    ensures var e := Step(connected, calls, s, i); OnCourse(connected, calls[j], e.stages[j], By(e.log, j))
  {
    hide OnCourse, Next, By;
    assert calls[i] in calls;
    var nonce := Found(calls[i], s.nonces);
    var m := Next(connected, calls[i], s.stages[i], nonce);
    ByAppend(s.log, i, m.entries, j);
    if i == j {
      NextOnCourse(connected, calls[i], s.stages[i], nonce, By(s.log, i));
    } else {
      assert By(s.log, j) + [] == By(s.log, j);
    }
  }

  /** However calls overlap, each writes the entries it would write alone, in the same order, and
      gives the reply it would give alone, from the nonce its options held when it started. */
  lemma {:induction false} EachCallAsIfAlone(
      connected: bool, calls: seq<Call>, nonces: seq<nat>, steps: seq<nat>, i: nat)
    requires AllFit(calls, |nonces|) && Indices(steps, |calls|) && i < |calls|
    ensures var s := Run(connected, calls, Initial(calls, nonces), steps);
            OnCourse(connected, calls[i], s.stages[i], By(s.log, i))
    decreases |steps|
  {
    hide Step, OnCourse;
    if steps == [] {
      assert OnCourse(connected, calls[i], NotStarted, []) by {
        AtFirst(connected, calls[i]);
      }
    } else {
      var last := |steps| - 1;
      EachCallAsIfAlone(connected, calls, nonces, steps[..last], i);
      StepOnCourse(connected, calls, Run(connected, calls, Initial(calls, nonces), steps[..last]), steps[last], i);
    }
  }

  lemma AtFirst(connected: bool, c: Call)
    ensures OnCourse(connected, c, NotStarted, [])
  {
  }

  // ----- when a call looks a nonce up -----

  /** The nonce a started call found. */
  function StartOf(stage: Stage): nat {
    match stage
    case Signing(start) => start
    case Over(start, _) => start
    case _ => 0
  }

  lemma StepMoves(connected: bool, calls: seq<Call>, s: State, i: nat, j: nat)
    requires Fit(calls, s) && i < |calls| && j < |calls|
    ensures Fits(calls[j], |s.nonces|)
    ensures Step(connected, calls, s, i).stages[j] ==
            if i == j then Next(connected, calls[j], s.stages[j], Found(calls[j], s.nonces)).stage else s.stages[j]
  {
    hide Next;
    assert calls[j] in calls;
  }

  lemma NextStart(connected: bool, c: Call, stage: Stage, nonce: nat)
    requires !stage.NotStarted? && c.Extrinsic?
    ensures var next := Next(connected, c, stage, nonce).stage;
            !next.NotStarted? && StartOf(next) == StartOf(stage)
  {
  }

  lemma {:induction false} StartRemembered(connected: bool, calls: seq<Call>, s: State, steps: seq<nat>, i: nat)
    requires Fit(calls, s) && Indices(steps, |calls|) && i < |calls| && !s.stages[i].NotStarted?
    requires calls[i].Extrinsic?
    ensures var e := Run(connected, calls, s, steps);
            !e.stages[i].NotStarted? && StartOf(e.stages[i]) == StartOf(s.stages[i])
    decreases |steps|
  {
    hide Step, Next, Found;
    if steps != [] {
      var last := |steps| - 1;
      StartRemembered(connected, calls, s, steps[..last], i);
      var t := Run(connected, calls, s, steps[..last]);
      StepMoves(connected, calls, t, steps[last], i);
      NextStart(connected, calls[i], t.stages[i], Found(calls[i], t.nonces));
    }
  }

  lemma {:induction false} NotYetStarted(connected: bool, calls: seq<Call>, s: State, steps: seq<nat>, i: nat)
    requires Fit(calls, s) && Indices(steps, |calls|) && i < |calls| && i !in steps
    ensures Run(connected, calls, s, steps).stages[i] == s.stages[i]
    decreases |steps|
  {
    if steps != [] {
      var last := |steps| - 1;
      NotYetStarted(connected, calls, s, steps[..last], i);
    }
  }

  /** A call has its lookup in flight or in the log exactly when it can be built and its options
      held no nonce at the moment it started, whatever happened to them before or since. */
  lemma LookupDecidedAtStart(
      connected: bool, calls: seq<Call>, nonces: seq<nat>, before: seq<nat>, i: nat, after: seq<nat>)
    requires AllFit(calls, |nonces|) && Indices(before, |calls|) && Indices(after, |calls|)
    requires i < |calls| && i !in before && calls[i].Extrinsic?
    ensures Fits(calls[i], |nonces|)
    ensures var s := Run(connected, calls, Initial(calls, nonces), before);
            var e := Run(connected, calls, s, [i] + after);
            e.stages[i].Asking? || Filter(By(e.log, i), true) != [] <==>
            connected && calls[i].world.built.None? && NonceOf(calls[i], s.nonces) == 0
  {
    hide Step, By, Filter;
    var c, first := calls[i], Initial(calls, nonces);
    assert c in calls;
    var s := Run(connected, calls, first, before);
    NotYetStarted(connected, calls, first, before, i);
    RunSnoc(connected, calls, s, [], i);
    var t := Step(connected, calls, s, i);
    assert [] + [i] == [i];
    FirstStep(connected, calls, s, i);
    RunAppend(connected, calls, s, [i], after);
    StartRemembered(connected, calls, t, after, i);
    RunAppend(connected, calls, first, before, [i] + after);
    EachCallAsIfAlone(connected, calls, nonces, before + ([i] + after), i);
    var e := Run(connected, calls, s, [i] + after);
    LookupsByStage(connected, c, e.stages[i], By(e.log, i));
  }

  lemma FirstStep(connected: bool, calls: seq<Call>, s: State, i: nat)
    requires Fit(calls, s) && i < |calls| && calls[i].Extrinsic? && s.stages[i].NotStarted?
    ensures Fits(calls[i], |s.nonces|)
    ensures var t := Step(connected, calls, s, i);
            !t.stages[i].NotStarted? && StartOf(t.stages[i]) == NonceOf(calls[i], s.nonces)
  {
    assert calls[i] in calls;
  }

  lemma LookupsByStage(connected: bool, c: Call, stage: Stage, wrote: seq<LogEntry>)
    requires OnCourse(connected, c, stage, wrote) && c.Extrinsic? && !stage.NotStarted?
    ensures stage.Asking? || Filter(wrote, true) != [] <==>
            connected && c.world.built.None? && StartOf(stage) == 0
  {
    match stage {
      case Over(start, _) =>
        var lookup := LookupEntries(connected, start, c.world);
        var own := ExtrinsicEntries(connected, c.call, start, c.world);
        FilterAppend(lookup, own, true);
      case _ =>
    }
  }

  // ----- the log against the replies, in order of completion -----

  /** Every entry was written by one of the calls; the finished calls are those that are over, each
      listed once. */
  predicate Tidy(s: State) {
    && (forall k :: 0 <= k < |s.log| ==> s.log[k].writer < |s.stages|)
    && (forall k :: 0 <= k < |s.finished| ==> s.finished[k] < |s.stages| && s.stages[s.finished[k]].Over?)
    && (forall i :: 0 <= i < |s.stages| && s.stages[i].Over? ==> i in s.finished)
    && (forall j, k :: 0 <= j < k < |s.finished| ==> s.finished[j] != s.finished[k])
  }

  /** What the callers were told, in the order in which they were told. */
  function Given(s: State): (replies: seq<Reply>)
    requires Tidy(s)
    ensures |replies| == |s.finished|
  {
    seq(|s.finished|, k requires 0 <= k < |s.finished| => s.stages[s.finished[k]].reply)
  }

  function Entries(log: seq<Logged>): (entries: seq<LogEntry>)
    ensures |entries| == |log|
  {
    seq(|log|, k requires 0 <= k < |log| => log[k].entry)
  }

  lemma EntriesAppend(log: seq<Logged>, i: nat, entries: seq<LogEntry>)
    ensures Entries(log + Tagged(i, entries)) == Entries(log) + entries
  {
  }

  /** The step that ends a call logs the statuses its reply stands for; no other step logs any. */
  lemma NextTells(connected: bool, c: Call, stage: Stage, nonce: nat)
    ensures var m := Next(connected, c, stage, nonce);
            Statuses(Filter(m.entries, false)) == if m.stage.Over? && !stage.Over? then Told(m.stage.reply) else []
  {
    match stage {
      case Asking =>
        var m := Next(connected, c, stage, nonce);
        assert m.entries == [m.entries[0]] && Filter([], false) == [];
      case Signing(start) =>
        if c.Extrinsic? {
          SettleTells(c.call, c.expectSuccess, c.world, start);
        }
      case _ =>
    }
  }

  lemma SettleTells(call: string, expectSuccess: bool, w: World, start: nat)
    ensures var m := Settle(call, expectSuccess, w, start);
            Statuses(Filter(m.entries, false)) == if m.stage.Over? then Told(m.stage.reply) else []
  {
    var r := Recorded(call, Sent(w));
    assert r == [] || r == [r[0]];
    assert Filter([], false) == [];
  }

  lemma {:induction false} AllToldSnoc(replies: seq<Reply>, reply: Reply)
    ensures AllTold(replies + [reply]) == AllTold(replies) + Told(reply)
  {
    hide Told;
    var all := replies + [reply];
    if replies == [] {
      assert all == [reply] && AllTold([]) == [];
    } else {
      AllToldSnoc(replies[1..], reply);
      assert all[0] == replies[0] && all[1..] == replies[1..] + [reply];
      assert AllTold(all) == Told(replies[0]) + (AllTold(replies[1..]) + Told(reply));
    }
  }

  lemma StepTidy(connected: bool, calls: seq<Call>, s: State, i: nat)
    requires Fit(calls, s) && i < |calls| && Tidy(s)
    ensures Fits(calls[i], |s.nonces|)
    ensures var e := Step(connected, calls, s, i);
            var m := Next(connected, calls[i], s.stages[i], Found(calls[i], s.nonces));
            Tidy(e) && Given(e) == Given(s) + if m.stage.Over? && !s.stages[i].Over? then [m.stage.reply] else []
  {
    hide Next, Found;
    assert calls[i] in calls;
    var e := Step(connected, calls, s, i);
    var m := Next(connected, calls[i], s.stages[i], Found(calls[i], s.nonces));
    OverStays(connected, calls[i], s.stages[i], Found(calls[i], s.nonces));
    assert forall k :: 0 <= k < |s.finished| ==> e.stages[s.finished[k]] == s.stages[s.finished[k]];
    assert s.finished <= e.finished;
    forall j | 0 <= j < |e.stages| && e.stages[j].Over?
      ensures j in e.finished
    {
      if j == i && !s.stages[i].Over? {
        assert e.finished[|s.finished|] == i;
      } else {
        assert s.stages[j].Over? && j in s.finished;
      }
    }
  }

  lemma OverStays(connected: bool, c: Call, stage: Stage, nonce: nat)
    ensures stage.Over? ==> Next(connected, c, stage, nonce) == Move([], None, stage)
  {
  }

  /** After any interleaving, the statuses of the log's extrinsic entries are those the callers
      were told, in order of completion; each call that is over was told once, and every entry of
      the log is some call's. */
  lemma {:induction false} LogInOrderOfCompletion(
      connected: bool, calls: seq<Call>, nonces: seq<nat>, steps: seq<nat>)
    requires AllFit(calls, |nonces|) && Indices(steps, |calls|)
    ensures var s := Run(connected, calls, Initial(calls, nonces), steps);
            Tidy(s) && Statuses(Filter(Entries(s.log), false)) == AllTold(Given(s))
    decreases |steps|
  {
    hide Step, Next, Told;
    if steps != [] {
      var last := |steps| - 1;
      LogInOrderOfCompletion(connected, calls, nonces, steps[..last]);
      StepTells(connected, calls, Run(connected, calls, Initial(calls, nonces), steps[..last]), steps[last]);
    }
  }

  lemma StepTells(connected: bool, calls: seq<Call>, s: State, i: nat)
    requires Fit(calls, s) && i < |calls|
    requires Tidy(s) && Statuses(Filter(Entries(s.log), false)) == AllTold(Given(s))
    ensures var e := Step(connected, calls, s, i);
            Tidy(e) && Statuses(Filter(Entries(e.log), false)) == AllTold(Given(e))
  {
    hide Next, Found, Filter, Told, AllTold, Tidy, Given, Entries, Statuses;
    assert calls[i] in calls;
    var nonce := Found(calls[i], s.nonces);
    var m := Next(connected, calls[i], s.stages[i], nonce);
    StepTidy(connected, calls, s, i);
    EntriesAppend(s.log, i, m.entries);
    FilterAppend(Entries(s.log), m.entries, false);
    StatusesAppend(Filter(Entries(s.log), false), Filter(m.entries, false));
    NextTells(connected, calls[i], s.stages[i], nonce);
    if m.stage.Over? && !s.stages[i].Over? {
      AllToldSnoc(Given(s), m.stage.reply);
    } else {
      assert Given(s) + [] == Given(s) && AllTold(Given(s)) + [] == AllTold(Given(s));
    }
  }

  // ----- progress -----

  function Rank(stage: Stage): nat {
    match stage
    case NotStarted => 0
    case Asking => 1
    case Answered(_) => 2
    case Signing(_) => 3
    case Over(_, _) => 4
  }

  function Turns(steps: seq<nat>, i: nat): nat {
    if steps == [] then 0
    else Turns(steps[..|steps| - 1], i) + if steps[|steps| - 1] == i then 1 else 0
  }

  /** A call is stuck when it was sent and no notification ever decides it. */
  predicate Stuck(c: Call, stage: Stage) {
    stage.Signing? && c.Extrinsic? && Sent(c.world) == Ok(Pending)
  }

  lemma NextRanks(connected: bool, c: Call, stage: Stage, nonce: nat, wrote: seq<LogEntry>)
    requires OnCourse(connected, c, stage, wrote)
    ensures var m := Next(connected, c, stage, nonce);
            m.stage.Over? || Stuck(c, m.stage) || Rank(stage) < Rank(m.stage)
    ensures stage.Over? || Stuck(c, stage) ==> Next(connected, c, stage, nonce).stage == stage
  {
  }

  /** Under any interleaving a call that got four turns is over, unless the chain never decides it. */
  lemma {:induction false} FourTurnsSuffice(
      connected: bool, calls: seq<Call>, nonces: seq<nat>, steps: seq<nat>, i: nat)
    requires AllFit(calls, |nonces|) && Indices(steps, |calls|) && i < |calls|
    ensures var stage := Run(connected, calls, Initial(calls, nonces), steps).stages[i];
            && (Turns(steps, i) <= Rank(stage) || stage.Over? || Stuck(calls[i], stage))
            && (4 <= Turns(steps, i) ==> stage.Over? || Stuck(calls[i], stage))
    decreases |steps|
  {
    hide Step, Next, OnCourse, By, Found;
    if steps != [] {
      var last := |steps| - 1;
      FourTurnsSuffice(connected, calls, nonces, steps[..last], i);
      EachCallAsIfAlone(connected, calls, nonces, steps[..last], i);
      var s := Run(connected, calls, Initial(calls, nonces), steps[..last]);
      StepMoves(connected, calls, s, steps[last], i);
      NextRanks(connected, calls[i], s.stages[i], Found(calls[i], s.nonces), By(s.log, i));
    }
  }

  // ----- nonces in shared options objects -----

  predicate Uses(c: Call, slot: nat) {
    c.Extrinsic? && c.slot == Some(slot)
  }

  /** The call's lookup for the object has begun and its answer is not yet written there. */
  predicate InFlight(c: Call, stage: Stage, slot: nat) {
    Uses(c, slot) && (stage.Asking? || stage.Answered?)
  }

  predicate NoneInFlight(calls: seq<Call>, s: State, slot: nat)
    requires |s.stages| == |calls|
  {
    forall p :: 0 <= p < |calls| ==> !InFlight(calls[p], s.stages[p], slot)
  }

  predicate OneInFlight(calls: seq<Call>, s: State, slot: nat)
    requires |s.stages| == |calls|
  {
    forall p, q :: 0 <= p < q < |calls| ==>
      !InFlight(calls[p], s.stages[p], slot) || !InFlight(calls[q], s.stages[q], slot)
  }

  /** An object changes exactly when an answered call on it goes on, and then holds that answer. */
  lemma StepNonce(connected: bool, calls: seq<Call>, s: State, i: nat, slot: nat)
    requires Fit(calls, s) && i < |calls| && slot < |s.nonces|
    ensures Step(connected, calls, s, i).nonces[slot] ==
            if Uses(calls[i], slot) && s.stages[i].Answered? then s.stages[i].nonce else s.nonces[slot]
  {
    assert calls[i] in calls;
  }

  lemma NextInFlight(connected: bool, c: Call, stage: Stage, nonce: nat, slot: nat)
    ensures InFlight(c, Next(connected, c, stage, nonce).stage, slot) ==>
            || (InFlight(c, stage, slot) && stage.Asking?)
            || (stage.NotStarted? && Uses(c, slot) && nonce == 0 && connected)
  {
  }

  /** While at most one lookup is in flight for an object, an object with a nonce has none. */
  lemma StepSettled(connected: bool, calls: seq<Call>, s: State, i: nat, slot: nat)
    requires Fit(calls, s) && i < |calls| && slot < |s.nonces|
    requires OneInFlight(calls, s, slot) && (s.nonces[slot] != 0 ==> NoneInFlight(calls, s, slot))
    ensures var e := Step(connected, calls, s, i); e.nonces[slot] != 0 ==> NoneInFlight(calls, e, slot)
  {
    hide Step, Next;
    var e := Step(connected, calls, s, i);
    StepNonce(connected, calls, s, i, slot);
    StepMoves(connected, calls, s, i, i);
    NextInFlight(connected, calls[i], s.stages[i], Found(calls[i], s.nonces), slot);
    if e.nonces[slot] != 0 {
      forall p | 0 <= p < |calls|
        ensures !InFlight(calls[p], e.stages[p], slot)
      {
        StepMoves(connected, calls, s, i, p);
      }
    }
  }

  /** At no moment of the run are two lookups in flight for the object. */
  predicate Calm(connected: bool, calls: seq<Call>, nonces: seq<nat>, steps: seq<nat>, slot: nat)
    requires AllFit(calls, |nonces|) && Indices(steps, |calls|)
  {
    forall k :: 0 <= k <= |steps| ==>
      OneInFlight(calls, Run(connected, calls, Initial(calls, nonces), steps[..k]), slot)
  }

  lemma CalmBefore(connected: bool, calls: seq<Call>, nonces: seq<nat>, p: seq<nat>, q: seq<nat>, slot: nat)
    requires AllFit(calls, |nonces|) && Indices(p, |calls|) && Indices(q, |calls|) && p <= q
    requires Calm(connected, calls, nonces, q, slot)
    ensures Calm(connected, calls, nonces, p, slot)
    ensures OneInFlight(calls, Run(connected, calls, Initial(calls, nonces), p), slot)
  {
    hide Run, OneInFlight;
    assert forall k :: 0 <= k <= |p| ==> p[..k] == q[..k];
    assert p[..|p|] == p;
  }

  lemma {:induction false} CalmSettled(
      connected: bool, calls: seq<Call>, nonces: seq<nat>, steps: seq<nat>, slot: nat)
    requires AllFit(calls, |nonces|) && Indices(steps, |calls|) && slot < |nonces|
    requires Calm(connected, calls, nonces, steps, slot)
    ensures var s := Run(connected, calls, Initial(calls, nonces), steps);
            s.nonces[slot] != 0 ==> NoneInFlight(calls, s, slot)
    decreases |steps|
  {
    hide Step, Calm, OneInFlight;
    if steps != [] {
      var last := |steps| - 1;
      CalmBefore(connected, calls, nonces, steps[..last], steps, slot);
      CalmSettled(connected, calls, nonces, steps[..last], slot);
      StepSettled(connected, calls, Run(connected, calls, Initial(calls, nonces), steps[..last]), steps[last], slot);
    }
  }

  /** A non-zero nonce never changes again in a run with at most one lookup in flight per object. */
  lemma {:induction false} NonceKept(
      connected: bool, calls: seq<Call>, nonces: seq<nat>, before: seq<nat>, after: seq<nat>, slot: nat)
    requires AllFit(calls, |nonces|) && Indices(before + after, |calls|) && slot < |nonces|
    requires Calm(connected, calls, nonces, before + after, slot)
    ensures Indices(before, |calls|)
    ensures var s := Run(connected, calls, Initial(calls, nonces), before);
            var e := Run(connected, calls, Initial(calls, nonces), before + after);
            s.nonces[slot] != 0 ==> e.nonces[slot] == s.nonces[slot]
    decreases |after|
  {
    hide Step, Run, Calm, OneInFlight;
    assert (before + after)[..|before|] == before;
    if after == [] {
      assert before + after == before;
    } else {
      var last := |after| - 1;
      var most := before + after[..last];
      assert before + after == most + [after[last]];
      assert (before + after)[|most|] == after[last];
      CalmBefore(connected, calls, nonces, most, before + after, slot);
      NonceKept(connected, calls, nonces, before, after[..last], slot);
      CalmSettled(connected, calls, nonces, most, slot);
      RunSnoc(connected, calls, Initial(calls, nonces), most, after[last]);
      StepNonce(connected, calls, Run(connected, calls, Initial(calls, nonces), most), after[last], slot);
    }
  }

  // ----- which calls can share an options object -----

  /** The object's nonce stays what it is once it is non-zero, whatever the interleaving. */
  ghost predicate NonceStays(connected: bool, calls: seq<Call>, nonces: seq<nat>, slot: nat)
    requires AllFit(calls, |nonces|) && slot < |nonces|
  {
    forall before, after :: Indices(before, |calls|) && Indices(after, |calls|) ==>
      var s := Run(connected, calls, Initial(calls, nonces), before);
      s.nonces[slot] != 0 ==> Run(connected, calls, s, after).nonces[slot] == s.nonces[slot]
  }

  /** The call would write an answer into the object. */
  predicate Writes(c: Call, slot: nat) {
    Uses(c, slot) && c.world.built.None? && c.world.nonce.Ok?
  }

  predicate Agree(c: Call, d: Call, slot: nat) {
    LookedUp(c, slot) != 0 && Writes(d, slot) ==> LookedUp(d, slot) == LookedUp(c, slot)
  }

  /** A call with a non-zero answer shares the object only with calls that get the same answer. */
  predicate Concord(calls: seq<Call>, slot: nat) {
    forall p, q :: 0 <= p < |calls| && 0 <= q < |calls| && p != q ==> Agree(calls[p], calls[q], slot)
  }

  lemma {:induction false} QuietObject(
      connected: bool, calls: seq<Call>, nonces: seq<nat>, steps: seq<nat>, slot: nat)
    requires AllFit(calls, |nonces|) && Indices(steps, |calls|) && slot < |nonces|
    requires !connected || nonces[slot] != 0
    ensures var s := Run(connected, calls, Initial(calls, nonces), steps);
            s.nonces[slot] == nonces[slot] && NoneInFlight(calls, s, slot)
    decreases |steps|
  {
    hide Step, Next;
    if steps != [] {
      var last := |steps| - 1;
      var i := steps[last];
      QuietObject(connected, calls, nonces, steps[..last], slot);
      var s := Run(connected, calls, Initial(calls, nonces), steps[..last]);
      StepNonce(connected, calls, s, i, slot);
      StepMoves(connected, calls, s, i, i);
      NextInFlight(connected, calls[i], s.stages[i], Found(calls[i], s.nonces), slot);
      forall p | 0 <= p < |calls|
        ensures !InFlight(calls[p], Step(connected, calls, s, i).stages[p], slot)
      {
        StepMoves(connected, calls, s, i, p);
      }
    }
  }

  /** Call `p` has written the nonce the object holds. */
  predicate WrittenBy(calls: seq<Call>, s: State, slot: nat, p: nat)
    requires |s.stages| == |calls| && slot < |s.nonces|
  {
    p < |calls| && LookedUp(calls[p], slot) == s.nonces[slot] && (s.stages[p].Signing? || s.stages[p].Over?)
  }

  /** Whatever the interleaving, a nonce that was not there at first is some call's own answer. */
  lemma {:induction false} NonceIsAnAnswer(
      connected: bool, calls: seq<Call>, nonces: seq<nat>, steps: seq<nat>, slot: nat) returns (p: nat)
    requires AllFit(calls, |nonces|) && Indices(steps, |calls|) && slot < |nonces| && nonces[slot] == 0
    ensures var s := Run(connected, calls, Initial(calls, nonces), steps);
            s.nonces[slot] != 0 ==> WrittenBy(calls, s, slot, p)
    decreases |steps|
  {
    hide Step, Next, OnCourse, By;
    p := 0;
    if steps != [] {
      var last := |steps| - 1;
      var i := steps[last];
      p := NonceIsAnAnswer(connected, calls, nonces, steps[..last], slot);
      var s := Run(connected, calls, Initial(calls, nonces), steps[..last]);
      EachCallAsIfAlone(connected, calls, nonces, steps[..last], i);
      AnswerIsLookedUp(connected, calls[i], s.stages[i], By(s.log, i), slot);
      StepNonce(connected, calls, s, i, slot);
      StepMoves(connected, calls, s, i, i);
      NextAfterWrite(connected, calls[i], s.stages[i], Found(calls[i], s.nonces));
      if Uses(calls[i], slot) && s.stages[i].Answered? {
        p := i;
      } else if p < |calls| {
        StepMoves(connected, calls, s, i, p);
      }
    }
  }

  lemma AnswerIsLookedUp(connected: bool, c: Call, stage: Stage, wrote: seq<LogEntry>, slot: nat)
    requires OnCourse(connected, c, stage, wrote)
    ensures stage.Answered? && Uses(c, slot) ==> Writes(c, slot) && LookedUp(c, slot) == stage.nonce
  {
  }

  lemma NextAfterWrite(connected: bool, c: Call, stage: Stage, nonce: nat)
    ensures stage.Answered? || stage.Signing? || stage.Over? ==>
            var next := Next(connected, c, stage, nonce).stage; next.Signing? || next.Over?
  {
  }

  lemma {:induction false} ConcordKeeps(
      connected: bool, calls: seq<Call>, nonces: seq<nat>, before: seq<nat>, after: seq<nat>, slot: nat)
    requires AllFit(calls, |nonces|) && Indices(before, |calls|) && Indices(after, |calls|) && slot < |nonces|
    requires nonces[slot] == 0 && Concord(calls, slot)
    ensures var s := Run(connected, calls, Initial(calls, nonces), before);
            s.nonces[slot] != 0 ==> Run(connected, calls, s, after).nonces[slot] == s.nonces[slot]
    decreases |after|
  {
    hide Step, OnCourse, By;
    if after != [] {
      var last := |after| - 1;
      var i, s := after[last], Run(connected, calls, Initial(calls, nonces), before);
      ConcordKeeps(connected, calls, nonces, before, after[..last], slot);
      var t := Run(connected, calls, s, after[..last]);
      RunAppend(connected, calls, Initial(calls, nonces), before, after[..last]);
      var p := NonceIsAnAnswer(connected, calls, nonces, before + after[..last], slot);
      EachCallAsIfAlone(connected, calls, nonces, before + after[..last], i);
      AnswerIsLookedUp(connected, calls[i], t.stages[i], By(t.log, i), slot);
      StepNonce(connected, calls, t, i, slot);
    }
  }

  /** One step of call `i`, seen from its object and from another call. */
  lemma StepPair(connected: bool, calls: seq<Call>, s: State, i: nat, j: nat, slot: nat)
    requires Fit(calls, s) && i < |calls| && j < |calls| && i != j && slot < |s.nonces| && Uses(calls[i], slot)
    ensures var e := Step(connected, calls, s, i);
            && e.stages[j] == s.stages[j]
            && e.stages[i] == Next(connected, calls[i], s.stages[i], s.nonces[slot]).stage
            && e.nonces[slot] == if s.stages[i].Answered? then s.stages[i].nonce else s.nonces[slot]
  {
    StepMoves(connected, calls, s, i, i);
    StepMoves(connected, calls, s, i, j);
    StepNonce(connected, calls, s, i, slot);
  }

  lemma RunOne(connected: bool, calls: seq<Call>, s: State, i: nat)
    requires Fit(calls, s) && i < |calls|
    ensures Run(connected, calls, s, [i]) == Step(connected, calls, s, i)
  {
    hide Step;
    assert [i][..0] == [];
  }

  /** Brings a call in flight to the point where its answer is logged but not written. */
  lemma ToAnswered(
      connected: bool, calls: seq<Call>, s: State, slot: nat, i: nat, j: nat) returns (steps: seq<nat>)
    requires Fit(calls, s) && slot < |s.nonces| && i < |calls| && j < |calls| && i != j
    requires InFlight(calls[i], s.stages[i], slot) && Writes(calls[i], slot)
    ensures Indices(steps, |calls|)
    ensures var t := Run(connected, calls, s, steps);
            && t.stages[j] == s.stages[j] && t.nonces[slot] == s.nonces[slot]
            && t.stages[i] == if s.stages[i].Asking? then Answered(LookedUp(calls[i], slot)) else s.stages[i]
  {
    hide Step;
    steps := [];
    if s.stages[i].Asking? {
      steps := [i];
      RunOne(connected, calls, s, i);
      StepPair(connected, calls, s, i, j, slot);
    }
  }

  /** Two lookups in flight for one object at some moment of a run: the run can go on so that the
      first call's answer is written and then overwritten by the other's. */
  lemma TwoInFlightCanClash(
      connected: bool, calls: seq<Call>, s: State, slot: nat, p: nat, q: nat) returns (middle: seq<nat>)
    requires Fit(calls, s) && slot < |s.nonces| && p < |calls| && q < |calls| && p != q
    requires forall i :: i in {p, q} ==>
      && InFlight(calls[i], s.stages[i], slot) && Writes(calls[i], slot)
      && (s.stages[i].Answered? ==> s.stages[i].nonce == LookedUp(calls[i], slot))
    ensures Indices(middle, |calls|)
    ensures var t := Run(connected, calls, s, middle);
            var e := Run(connected, calls, t, [q]);
            && t.nonces[slot] == LookedUp(calls[p], slot) && e.nonces[slot] == LookedUp(calls[q], slot)
            && e.stages[p] == Signing(0) && e.stages[q] == Signing(0)
  {
    hide Step, Run;
    var first := ToAnswered(connected, calls, s, slot, p, q);
    var t := Run(connected, calls, s, first);
    var second := ToAnswered(connected, calls, t, slot, q, p);
    var u := Run(connected, calls, t, second);
    RunAppend(connected, calls, s, first, second);
    middle := first + second + [p];
    RunSnoc(connected, calls, s, first + second, p);
    var v := Step(connected, calls, u, p);
    StepPair(connected, calls, u, p, q, slot);
    StepPair(connected, calls, v, q, p, slot);
    RunOne(connected, calls, v, q);
  }

  /** Two calls that are started on an object without a nonce both look one up, and the second answer
      can overwrite the first. */
  lemma Race(connected: bool, calls: seq<Call>, nonces: seq<nat>, slot: nat, p: nat, q: nat)
    returns (before: seq<nat>)
    requires AllFit(calls, |nonces|) && slot < |nonces| && p < |calls| && q < |calls| && p != q
    requires connected && nonces[slot] == 0 && Writes(calls[p], slot) && Writes(calls[q], slot)
    ensures Indices(before, |calls|)
    ensures var s := Run(connected, calls, Initial(calls, nonces), before);
            var e := Run(connected, calls, s, [q]);
            && s.nonces[slot] == LookedUp(calls[p], slot) && e.nonces[slot] == LookedUp(calls[q], slot)
            && e.stages[p] == Signing(0) && e.stages[q] == Signing(0)
  {
    hide Step, Run;
    var s0 := Initial(calls, nonces);
    var s1 := Step(connected, calls, s0, p);
    var s2 := Step(connected, calls, s1, q);
    StepPair(connected, calls, s0, p, q, slot);
    StepPair(connected, calls, s1, q, p, slot);
    RunOne(connected, calls, s0, p);
    RunSnoc(connected, calls, s0, [p], q);
    var middle := TwoInFlightCanClash(connected, calls, s2, slot, p, q);
    before := [p] + [q] + middle;
    RunAppend(connected, calls, s0, [p] + [q], middle);
  }

  /** An object's non-zero nonce is safe under every interleaving exactly when it is never looked up
      (no connection, or a nonce given), or the calls that share it all get the same answer. */
  lemma NonceStaysExactly(connected: bool, calls: seq<Call>, nonces: seq<nat>, slot: nat)
    requires AllFit(calls, |nonces|) && slot < |nonces|
    ensures NonceStays(connected, calls, nonces, slot) <==>
            !connected || nonces[slot] != 0 || Concord(calls, slot)
  {
    hide Run, Step;
    var s0 := Initial(calls, nonces);
    if !connected || nonces[slot] != 0 {
      forall before, after | Indices(before, |calls|) && Indices(after, |calls|)
        ensures var s := Run(connected, calls, s0, before);
                s.nonces[slot] != 0 ==> Run(connected, calls, s, after).nonces[slot] == s.nonces[slot]
      {
        RunAppend(connected, calls, s0, before, after);
        QuietObject(connected, calls, nonces, before, slot);
        QuietObject(connected, calls, nonces, before + after, slot);
      }
    } else if Concord(calls, slot) {
      forall before, after | Indices(before, |calls|) && Indices(after, |calls|)
        ensures var s := Run(connected, calls, s0, before);
                s.nonces[slot] != 0 ==> Run(connected, calls, s, after).nonces[slot] == s.nonces[slot]
      {
        ConcordKeeps(connected, calls, nonces, before, after, slot);
      }
    } else {
      var p, q :| 0 <= p < |calls| && 0 <= q < |calls| && p != q && !Agree(calls[p], calls[q], slot);
      var before := Race(connected, calls, nonces, slot, p, q);
      assert Indices([q], |calls|);
    }
  }

  // ----- calls that do not overlap -----

  /** Each call gets all its turns before the next one starts. */
  function InTurn(n: nat): seq<nat> {
    if n == 0 then [] else InTurn(n - 1) + [n - 1, n - 1, n - 1, n - 1]
  }

  lemma FirstTwoMoves(connected: bool, c: Call, nonce: nat, later: nat)
    requires c.Rpc? ==> nonce == 0
    ensures var m := Next(connected, c, NotStarted, nonce);
            var n := Next(connected, c, m.stage, later);
            && m.write.None? && n.write.None?
            && OnCourse(connected, c, n.stage, m.entries + n.entries)
            && (n.stage.Answered? || n.stage.Signing? || n.stage.Over?) && StartOf(n.stage) == nonce
            && (n.stage.Answered? <==>
                c.Extrinsic? && connected && c.world.built.None? && nonce == 0 && c.world.nonce.Ok?)
  {
    AtFirst(connected, c);
    var m := Next(connected, c, NotStarted, nonce);
    NextOnCourse(connected, c, NotStarted, nonce, []);
    assert [] + m.entries == m.entries;
    NextOnCourse(connected, c, m.stage, later, m.entries);
  }

  lemma LastTwoMoves(connected: bool, c: Call, stage: Stage, nonce: nat, later: nat, wrote: seq<LogEntry>)
    requires OnCourse(connected, c, stage, wrote)
    requires stage.Answered? || stage.Signing? || stage.Over?
    ensures var m := Next(connected, c, stage, nonce);
            var n := Next(connected, c, m.stage, later);
            && m.write == (if stage.Answered? then Some(stage.nonce) else None) && n.write.None?
            && OnCourse(connected, c, n.stage, wrote + m.entries + n.entries)
            && (n.stage.Over? || Stuck(c, n.stage)) && StartOf(n.stage) == StartOf(stage)
  {
    var m := Next(connected, c, stage, nonce);
    NextOnCourse(connected, c, stage, nonce, wrote);
    NextOnCourse(connected, c, m.stage, later, wrote + m.entries);
  }

  lemma AtLast(connected: bool, c: Call, stage: Stage, wrote: seq<LogEntry>)
    requires OnCourse(connected, c, stage, wrote) && (stage.Over? || Stuck(c, stage))
    ensures wrote == EntriesAlone(connected, c, StartOf(stage))
    ensures var reply := ReplyAlone(connected, c, StartOf(stage));
            if stage.Over? then stage.reply == reply else reply == ExtrinsicReply(Waiting)
  {
    if !stage.Over? {
      assert wrote + [] == wrote;
    }
  }

  lemma StepWrites(connected: bool, calls: seq<Call>, s: State, i: nat)
    requires Fit(calls, s) && i < |calls|
    ensures Fits(calls[i], |s.nonces|)
    ensures var m := Next(connected, calls[i], s.stages[i], Found(calls[i], s.nonces));
            var e := Step(connected, calls, s, i);
            && Entries(e.log) == Entries(s.log) + m.entries && e.nonces == Written(calls[i], m.write, s.nonces)
            && e.stages == s.stages[i := m.stage]
  {
    hide Next, Entries;
    assert calls[i] in calls;
    EntriesAppend(s.log, i, Next(connected, calls[i], s.stages[i], Found(calls[i], s.nonces)).entries);
  }

  /** How a call stands that was given all its turns: over with this reply, or left waiting. */
  predicate Stands(c: Call, stage: Stage, reply: Reply) {
    if stage.Over? then stage.reply == reply else Stuck(c, stage) && reply == ExtrinsicReply(Waiting)
  }

  /** The answer a call alone writes into its options object. */
  function WriteAlone(connected: bool, c: Call, nonce: nat): Option<nat> {
    if c.Extrinsic? && connected && c.world.built.None? && nonce == 0 && c.world.nonce.Ok?
    then Some(c.world.nonce.value) else None
  }

  lemma AloneIsSpecified(connected: bool, c: Call, nonces: seq<nat>)
    requires Fits(c, |nonces|)
    ensures var nonce := Found(c, nonces);
            && EntriesAlone(connected, c, nonce) == Queries(connected, c, nonces) + Own(connected, c, nonces)
            && ReplyAlone(connected, c, nonce) == ReplyTo(connected, c, nonces)
            && Written(c, WriteAlone(connected, c, nonce), nonces) == NoncesAfter(connected, c, nonces)
  {
    hide RpcEntries, LookupEntries, ExtrinsicEntries, Completes, RpcAnswer;
    if c.Rpc? {
      var q := Queries(connected, c, nonces);
      assert q + [] == q;
    }
  }

  /** All four turns of a call, from its own side. */
  lemma FourMoves(connected: bool, c: Call, n1: nat, n2: nat, n3: nat, n4: nat)
    requires c.Rpc? ==> n1 == 0
    ensures var m1 := Next(connected, c, NotStarted, n1);
            var m2 := Next(connected, c, m1.stage, n2);
            var m3 := Next(connected, c, m2.stage, n3);
            var m4 := Next(connected, c, m3.stage, n4);
            && m1.entries + m2.entries + m3.entries + m4.entries == EntriesAlone(connected, c, n1)
            && m1.write.None? && m2.write.None? && m3.write == WriteAlone(connected, c, n1) && m4.write.None?
            && Stands(c, m4.stage, ReplyAlone(connected, c, n1))
  {
    hide Next, OnCourse, EntriesAlone, ReplyAlone, Stuck;
    var m1 := Next(connected, c, NotStarted, n1);
    var m2 := Next(connected, c, m1.stage, n2);
    var m3 := Next(connected, c, m2.stage, n3);
    var m4 := Next(connected, c, m3.stage, n4);
    FirstTwoMoves(connected, c, n1, n2);
    var wrote := m1.entries + m2.entries;
    AnsweredWith(connected, c, m2.stage, wrote);
    LastTwoMoves(connected, c, m2.stage, n3, n4, wrote);
    AtLast(connected, c, m4.stage, wrote + m3.entries + m4.entries);
  }

  lemma AnsweredWith(connected: bool, c: Call, stage: Stage, wrote: seq<LogEntry>)
    requires OnCourse(connected, c, stage, wrote)
    ensures stage.Answered? ==> c.Extrinsic? && c.world.nonce == Ok(stage.nonce)
  {
  }

  /** A call that nothing overlaps does what the helper's methods are specified to do. */
  lemma WithoutOverlap(connected: bool, calls: seq<Call>, s: State, i: nat)
    requires Fit(calls, s) && i < |calls| && s.stages[i].NotStarted?
    ensures Fits(calls[i], |s.nonces|)
    ensures var e := Run(connected, calls, s, [i, i, i, i]);
            && Entries(e.log) ==
               Entries(s.log) + (Queries(connected, calls[i], s.nonces) + Own(connected, calls[i], s.nonces))
            && e.nonces == NoncesAfter(connected, calls[i], s.nonces)
            && e.stages == s.stages[i := e.stages[i]]
            && Stands(calls[i], e.stages[i], ReplyTo(connected, calls[i], s.nonces))
  {
    hide Step, Run, Next, Entries, Stands, EntriesAlone, ReplyAlone, WriteAlone, Queries, Own, ReplyTo, NoncesAfter;
    var c := calls[i];
    assert c in calls;
    var s1 := Step(connected, calls, s, i);
    var s2 := Step(connected, calls, s1, i);
    var s3 := Step(connected, calls, s2, i);
    StepWrites(connected, calls, s, i);
    StepWrites(connected, calls, s1, i);
    StepWrites(connected, calls, s2, i);
    StepWrites(connected, calls, s3, i);
    FourMoves(connected, c, Found(c, s.nonces), Found(c, s1.nonces), Found(c, s2.nonces), Found(c, s3.nonces));
    AloneIsSpecified(connected, c, s.nonces);
    RunFour(connected, calls, s, i);
  }

  lemma RunFour(connected: bool, calls: seq<Call>, s: State, i: nat)
    requires Fit(calls, s) && i < |calls|
    ensures var t := Step(connected, calls, Step(connected, calls, s, i), i);
            Run(connected, calls, s, [i, i, i, i]) == Step(connected, calls, Step(connected, calls, t, i), i)
  {
    hide Step, Run;
    RunOne(connected, calls, s, i);
    RunSnoc(connected, calls, s, [i], i);
    RunSnoc(connected, calls, s, [i] + [i], i);
    RunSnoc(connected, calls, s, [i] + [i] + [i], i);
    assert [i] + [i] + [i] + [i] == [i, i, i, i];
  }

  lemma {:induction false} InTurnIndices(n: nat, bound: nat)
    requires n <= bound
    ensures Indices(InTurn(n), bound)
  {
    if n != 0 {
      InTurnIndices(n - 1, bound);
    }
  }

  /** The calls so far were performed in turn; the rest is as the specification of runs has it. */
  predicate PartWay(connected: bool, calls: seq<Call>, nonces: seq<nat>, k: nat, s: State)
    requires Fit(calls, s) && AllFit(calls, |nonces|) && k <= |calls|
  {
    && (forall c :: c in calls[k..] ==> c in calls)
    && (forall j :: k <= j < |calls| ==> s.stages[j].NotStarted?)
    && Entries(s.log) + Trace(connected, calls[k..], s.nonces) == Trace(connected, calls, nonces)
    && NoncesAtEnd(connected, calls[k..], s.nonces) == NoncesAtEnd(connected, calls, nonces)
    && var replies := Replies(connected, calls, nonces);
       && k <= |replies| && replies[k..] == Replies(connected, calls[k..], s.nonces)
       && forall j :: 0 <= j < k ==> Stands(calls[j], s.stages[j], replies[j])
  }

  lemma PartWayStep(connected: bool, calls: seq<Call>, nonces: seq<nat>, k: nat, s: State)
    requires Fit(calls, s) && AllFit(calls, |nonces|) && k < |calls|
    requires PartWay(connected, calls, nonces, k, s)
    ensures PartWay(connected, calls, nonces, k + 1, Run(connected, calls, s, [k, k, k, k]))
  {
    hide Run, Step, Queries, Own, ReplyTo, NoncesAfter, Trace, Replies, NoncesAtEnd, Stands, Entries;
    assert calls[k] in calls;
    WithoutOverlap(connected, calls, s, k);
    TraceStep(connected, calls, k, s.nonces);
    var replies, e := Replies(connected, calls, nonces), Run(connected, calls, s, [k, k, k, k]);
    var rest := replies[k..];
    assert rest[0] == ReplyTo(connected, calls[k], s.nonces) && rest[0] == replies[k];
    assert rest[1..] == replies[k + 1..];
    assert rest[1..] == Replies(connected, calls[k + 1..], e.nonces);
    assert forall c :: c in calls[k + 1..] ==> c in calls;
  }

  lemma PartWayStart(connected: bool, calls: seq<Call>, nonces: seq<nat>)
    requires AllFit(calls, |nonces|)
    ensures PartWay(connected, calls, nonces, 0, Initial(calls, nonces))
  {
    hide Trace, Replies, NoncesAtEnd, Stands;
    assert calls[0..] == calls && Replies(connected, calls, nonces)[0..] == Replies(connected, calls, nonces);
    assert Entries([]) == [];
  }

  lemma {:induction false} InTurnPartWay(connected: bool, calls: seq<Call>, nonces: seq<nat>, k: nat)
    requires AllFit(calls, |nonces|) && k <= |calls|
    ensures Indices(InTurn(k), |calls|)
    ensures PartWay(connected, calls, nonces, k, Run(connected, calls, Initial(calls, nonces), InTurn(k)))
    decreases k
  {
    hide Step, PartWay;
    InTurnIndices(k, |calls|);
    if k == 0 {
      PartWayStart(connected, calls, nonces);
    } else {
      InTurnPartWay(connected, calls, nonces, k - 1);
      var s := Run(connected, calls, Initial(calls, nonces), InTurn(k - 1));
      PartWayStep(connected, calls, nonces, k - 1, s);
      RunAppend(connected, calls, Initial(calls, nonces), InTurn(k - 1), [k - 1, k - 1, k - 1, k - 1]);
    }
  }

  /** The interleaving in which every call is awaited before the next starts is the sequential run. */
  lemma InTurnIsSequential(connected: bool, calls: seq<Call>, nonces: seq<nat>)
    requires AllFit(calls, |nonces|)
    ensures Indices(InTurn(|calls|), |calls|) && |Replies(connected, calls, nonces)| == |calls|
    ensures var s := Run(connected, calls, Initial(calls, nonces), InTurn(|calls|));
            && Entries(s.log) == Trace(connected, calls, nonces) && s.nonces == NoncesAtEnd(connected, calls, nonces)
            && forall j :: 0 <= j < |calls| ==>
                 Stands(calls[j], s.stages[j], Replies(connected, calls, nonces)[j])
  {
    hide Run, Trace, Replies, NoncesAtEnd, Stands, Entries;
    InTurnPartWay(connected, calls, nonces, |calls|);
    TraceEnd(connected, calls[|calls|..], Run(connected, calls, Initial(calls, nonces), InTurn(|calls|)).nonces);
    var replies := Replies(connected, calls, nonces);
    assert |replies| == |calls| + |replies[|calls|..]|;
  }

  /** Two transfers that share one options object, their lookups answered with 5 and 9: awaited one
      after the other they leave 5 after a single lookup; overlapped they can leave 9 after two. */
  lemma OverlapChangesTheNonce() returns (steps: seq<nat>)
    ensures var calls := [Extrinsic("api.tx.balances.transferKeepAlive", true, Some(0), World(None, Ok(5), Ok([]))),
                          Extrinsic("api.tx.balances.transferKeepAlive", true, Some(0), World(None, Ok(9), Ok([])))];
            && Indices(steps, 2)
            && var s := Run(true, calls, Initial(calls, [0]), steps);
               && s.nonces == [9] && NoncesAtEnd(true, calls, [0]) == [5]
               && By(s.log, 0) == By(s.log, 1) == [RpcEntry(NONCE_QUERY, Success)]
               && Trace(true, calls, [0]) == [RpcEntry(NONCE_QUERY, Success)]
  {
    hide Run, Step;
    var calls := [Extrinsic("api.tx.balances.transferKeepAlive", true, Some(0), World(None, Ok(5), Ok([]))),
                  Extrinsic("api.tx.balances.transferKeepAlive", true, Some(0), World(None, Ok(9), Ok([])))];
    var before := Race(true, calls, [0], 0, 0, 1);
    steps := before + [1];
    var s := Run(true, calls, Initial(calls, [0]), steps);
    RunAppend(true, calls, Initial(calls, [0]), before, [1]);
    EachCallAsIfAlone(true, calls, [0], steps, 0);
    EachCallAsIfAlone(true, calls, [0], steps, 1);
    assert s.nonces == [9];
    TraceStep(true, calls, 0, [0]);
    TraceStep(true, calls, 1, [5]);
    assert calls[0..] == calls && calls[2..] == [];
  }
}
