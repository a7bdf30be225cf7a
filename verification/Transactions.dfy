/** The life of a submitted transaction (`getTransactionStatus` and the callback inside
    `signTransaction` of js-packages/playgrounds/unique.ts). */
module Transactions {
  import opened Common

  datatype Phase =
    | Ready | Broadcast | Future | Retracted | InBlock | Finalized
    | Usurped | Dropped | Invalid | FinalityTimeout

  datatype DispatchError =
    | ModuleError(section: string, name: string)
    | TokenError(name: string)
    | OtherError(text: string)

  /** One status notification. `events` are the method names of the events; `ownError` says that
      the notification has a `dispatchError` property of its own. */
  datatype Update = Update(phase: Phase, events: seq<string>, ownError: bool, dispatchError: Option<DispatchError>)

  datatype Status = NotReady | Fail | Success

  datatype Settlement = Pending | Resolved(update: Update) | Rejected(update: Update, moduleError: Option<string>)

  function GetTransactionStatus(u: Update): Status {
    if u.phase.Ready? then NotReady
    else if u.phase.Broadcast? then NotReady
    else if u.phase.Future? then NotReady
    else if u.phase.Retracted? then NotReady
    else if (u.phase.InBlock? || u.phase.Finalized?)
            && "ExtrinsicFailed" !in u.events && "ExtrinsicSuccess" in u.events then Success
    else Fail
  }

  function ModuleErrorText(u: Update): Option<string> {
    if !u.ownError || u.dispatchError.None? then None
    else match u.dispatchError.value
      case ModuleError(section, name) => Some(section + "." + name)
      case TokenError(name) => Some("Token: " + name)
      case OtherError(text) => Some("Misc: " + text)
  }

  /** What one notification does to a promise that may already be settled. */
  function Next(s: Settlement, u: Update): Settlement {
    if !s.Pending? then s
    else match GetTransactionStatus(u)
      case Success => if u.phase.Finalized? then Resolved(u) else s
      case Fail => Rejected(u, ModuleErrorText(u))
      case NotReady => s
  }

  function Settle(s: Settlement, updates: seq<Update>): Settlement
    decreases |updates|
  {
    if updates == [] then s else Settle(Next(s, updates[0]), updates[1..])
  }

  /** The promise returned by `signTransaction`; a second resolve or reject has no effect. */
  class SettlementPromise {
    var state: Settlement
    var subscribed: bool

    constructor ()
      ensures state == Pending && subscribed
    {
      state := Pending;
      subscribed := true;
    }

    method Resolve(u: Update)
      modifies this`state
      ensures state == if old(state).Pending? then Resolved(u) else old(state)
    {
      if state.Pending? {
        state := Resolved(u);
      }
    }

    method Reject(u: Update, moduleError: Option<string>)
      modifies this`state
      ensures state == if old(state).Pending? then Rejected(u, moduleError) else old(state)
    {
      if state.Pending? {
        state := Rejected(u, moduleError);
      }
    }

    /** The callback. */
    method OnUpdate(u: Update)
      modifies this
      ensures state == Next(old(state), u)
      ensures subscribed <==> old(subscribed) && !Decides(u)
    {
      var status := GetTransactionStatus(u);
      if status == Success {
        if !u.phase.Finalized? {
          return;
        }
        subscribed := false;
        Resolve(u);
      } else if status == Fail {
        var moduleError: Option<string> := None;
        if u.ownError {
          if u.dispatchError.Some? {
            match u.dispatchError.value {
              case ModuleError(section, name) => moduleError := Some(section + "." + name);
              case TokenError(name) => moduleError := Some("Token: " + name);
              case OtherError(text) => moduleError := Some("Misc: " + text);
            }
          }
        }
        subscribed := false;
        Reject(u, moduleError);
      }
    }

    /** Any sequence of notifications, some possibly delivered after the unsubscription. */
    method Watch(updates: seq<Update>)
      modifies this
      ensures state == Settle(old(state), updates)
      ensures subscribed <==> old(subscribed) && forall i :: 0 <= i < |updates| ==> !Decides(updates[i])
    {
      for i := 0 to |updates|
        invariant Settle(state, updates[i..]) == Settle(old(state), updates)
        invariant subscribed <==> old(subscribed) && forall k :: 0 <= k < i ==> !Decides(updates[k])
      {
        assert updates[i..][1..] == updates[i + 1..];
        OnUpdate(updates[i]);
      }
    }
  }

  // ----- the first deciding notification decides -----

  /** Included in a block with a success event and no failure event. */
  predicate Succeeded(u: Update) {
    (u.phase.InBlock? || u.phase.Finalized?) && "ExtrinsicSuccess" in u.events && "ExtrinsicFailed" !in u.events
  }

  /** Everything but waiting, retraction and a success that is not final yet. */
  predicate Decides(u: Update) {
    && u.phase !in {Ready, Broadcast, Future, Retracted}
    && !(u.phase.InBlock? && Succeeded(u))
  }

  function FirstDecision(updates: seq<Update>): Option<Update> {
    if updates == [] then None
    else if Decides(updates[0]) then Some(updates[0])
    else FirstDecision(updates[1..])
  }

  function Verdict(decision: Option<Update>): Settlement {
    if decision.None? then Pending
    else if decision.value.phase.Finalized? && Succeeded(decision.value) then Resolved(decision.value)
    else Rejected(decision.value, ModuleErrorText(decision.value))
  }

  lemma {:induction false} SettledIsFinal(s: Settlement, updates: seq<Update>)
    requires !s.Pending?
    ensures Settle(s, updates) == s
    decreases |updates|
  {
    if updates != [] {
      SettledIsFinal(s, updates[1..]);
    }
  }

  /** The promise is settled by the first deciding notification, whatever comes before or after:
      it resolves when that one is final and successful, and rejects otherwise. */
  lemma {:induction false} FirstDecisionSettles(updates: seq<Update>)
    ensures Settle(Pending, updates) == Verdict(FirstDecision(updates))
    decreases |updates|
  {
    if updates != [] {
      if Decides(updates[0]) {
        SettledIsFinal(Next(Pending, updates[0]), updates[1..]);
      } else {
        FirstDecisionSettles(updates[1..]);
      }
    }
  }

  lemma {:induction false} FirstDecisionIndex(updates: seq<Update>) returns (k: nat)
    ensures k <= |updates| && forall i :: 0 <= i < k ==> !Decides(updates[i])
    ensures FirstDecision(updates).None? <==> k == |updates|
    ensures k < |updates| ==> Decides(updates[k]) && FirstDecision(updates) == Some(updates[k])
  {
    if updates == [] || Decides(updates[0]) {
      k := 0;
    } else {
      var rest := FirstDecisionIndex(updates[1..]);
      k := rest + 1;
    }
  }

  /** Resolution, in both directions. */
  lemma ResolvesExactly(updates: seq<Update>)
    ensures Settle(Pending, updates).Resolved? <==>
            exists k :: 0 <= k < |updates|
              && (forall i :: 0 <= i < k ==> !Decides(updates[i]))
              && updates[k].phase.Finalized? && Succeeded(updates[k])
    ensures Settle(Pending, updates).Pending? <==> forall i :: 0 <= i < |updates| ==> !Decides(updates[i])
  {
    FirstDecisionSettles(updates);
    var k := FirstDecisionIndex(updates);
    forall m | 0 <= m < |updates| && (forall i :: 0 <= i < m ==> !Decides(updates[i]))
            && updates[m].phase.Finalized? && Succeeded(updates[m])
      ensures m == k
    {
      assert Decides(updates[m]);
    }
  }

  /** The outcome of any sequence of notifications, in terms of phases and events alone: the promise
      waits through what is not decided yet, resolves with a finalized success, and rejects with
      anything else. */
  lemma OutcomeExactly(updates: seq<Update>, k: nat)
    requires k < |updates|
    requires forall i :: 0 <= i < k ==>
      || updates[i].phase in {Ready, Broadcast, Future, Retracted}
      || (updates[i].phase == InBlock && "ExtrinsicSuccess" in updates[i].events
          && "ExtrinsicFailed" !in updates[i].events)
    ensures var u := updates[k];
            var success := "ExtrinsicSuccess" in u.events && "ExtrinsicFailed" !in u.events;
            && (u.phase == Finalized && success ==> Settle(Pending, updates) == Resolved(u))
            && (u.phase in {InBlock, Finalized} && !success ==>
                  Settle(Pending, updates).Rejected? && Settle(Pending, updates).update == u)
            && (u.phase in {Usurped, Dropped, Invalid, FinalityTimeout} ==>
                  Settle(Pending, updates).Rejected? && Settle(Pending, updates).update == u)
            && (k + 1 == |updates| ==>
                  (Settle(Pending, updates) == Pending <==>
                   u.phase in {Ready, Broadcast, Future, Retracted} || (u.phase == InBlock && success)))
  {
    hide Decides, Succeeded, Settle, FirstDecision, ModuleErrorText;
    FirstDecisionSettles(updates);
    var d := FirstDecisionIndex(updates);
    forall i | 0 <= i <= k
      ensures Decides(updates[i]) <==>
        !(|| updates[i].phase in {Ready, Broadcast, Future, Retracted}
          || (updates[i].phase == InBlock && "ExtrinsicSuccess" in updates[i].events
              && "ExtrinsicFailed" !in updates[i].events))
    {
      DecidesExactly(updates[i]);
    }
    DecidesExactly(updates[k]);
  }

  /** Which notifications decide, and which of them succeed. */
  lemma DecidesExactly(u: Update)
    ensures Decides(u) <==>
            !(|| u.phase in {Ready, Broadcast, Future, Retracted}
              || (u.phase == InBlock && "ExtrinsicSuccess" in u.events && "ExtrinsicFailed" !in u.events))
    ensures u.phase in {InBlock, Finalized} ==>
            (Succeeded(u) <==> "ExtrinsicSuccess" in u.events && "ExtrinsicFailed" !in u.events)
  {
  }

  /** The text a rejection carries: present exactly when the notification has an error of its own,
      and then made of that error's kind and name. */
  lemma RejectionText(updates: seq<Update>)
    requires Settle(Pending, updates).Rejected?
    ensures var r := Settle(Pending, updates);
            && (r.moduleError.Some? <==> r.update.ownError && r.update.dispatchError.Some?)
            && (r.moduleError.Some? ==>
                  var text := r.moduleError.value;
                  match r.update.dispatchError.value
                  case ModuleError(section, name) =>
                    section + "." <= text && text[|section| + 1..] == name
                  case TokenError(name) => "Token: " <= text && text[7..] == name
                  case OtherError(other) => "Misc: " <= text && text[6..] == other)
  {
    FirstDecisionSettles(updates);
  }

  lemma {:induction false} SettleAppend(s: Settlement, p: seq<Update>, q: seq<Update>)
    ensures Settle(s, p + q) == Settle(Settle(s, p), q)
    decreases |p|
  {
    if p == [] {
      assert p + q == q;
    } else {
      assert (p + q)[1..] == p[1..] + q;
      SettleAppend(Next(s, p[0]), p[1..], q);
    }
  }

  /** Retractions, re-inclusions and other undecided notifications can be dropped from or added to
      a run anywhere without changing its outcome. */
  lemma UndecidedIsIrrelevant(s: Settlement, p: seq<Update>, u: Update, q: seq<Update>)
    requires !Decides(u)
    ensures Settle(s, p + [u] + q) == Settle(s, p + q)
  {
    SettleAppend(s, p + [u], q);
    SettleAppend(s, p, [u]);
    SettleAppend(s, p, q);
    assert Settle(Settle(s, p), [u]) == Next(Settle(s, p), u);
  }
}
