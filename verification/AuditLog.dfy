/** The audit log of `ChainHelperBase` (js-packages/playgrounds/unique.ts): `callRpc`,
    `signTransaction` and `executeExtrinsic` on one helper object.

    What the node and the signer answer is passed in; a library exception carries no `status`
    property. */
module AuditLog {
  import opened Common
  import opened Transactions

  datatype Failure =
    | NotConnected
    | NotRpcCall
    | BadCall(text: string)
    | RpcFailed(text: string)
    | SignFailed(text: string)
    | EvmFailed
    | ModuleFailed(text: string)
    | DispatchFailed(error: DispatchError)

  datatype LogEntry =
    | RpcEntry(call: string, status: Status)
    | ExtrinsicEntry(call: string, status: Status, moduleError: Option<string>,
                     dispatchError: Option<DispatchError>, events: seq<string>)

  /** What `executeExtrinsic` hands back: the transaction's status and its deciding notification. */
  datatype TxResult = TxResult(status: Status, update: Update, moduleError: Option<string>)

  datatype Completion = Returned(result: TxResult) | Threw(failure: Failure) | Waiting

  const NONCE_QUERY := "api.query.system.account"

  /** The caller's options object; 0 stands for nonce 0 and for no nonce alike. */
  class SignerOptions {
    var nonce: nat

    constructor (n: nat)
      ensures nonce == n
    {
      nonce := n;
    }
  }

  /** What the outside world answers to one extrinsic: whether the call can be built, the account
      nonce, and either a signing error or the notifications that follow. */
  datatype World = World(built: Option<string>, nonce: Result<nat, string>, signing: Result<seq<Update>, string>)

  // ----- what should be logged, and returned -----

  predicate IsRpc(rpc: string) {
    "api.rpc." <= rpc || "api.query." <= rpc
  }

  function RpcEntries<V>(connected: bool, rpc: string, answer: Result<V, string>): seq<LogEntry> {
    if connected && IsRpc(rpc) then [RpcEntry(rpc, if answer.Ok? then Success else Fail)] else []
  }

  function RpcAnswer<V>(connected: bool, rpc: string, answer: Result<V, string>): Result<V, Failure> {
    if !connected then Err(NotConnected)
    else if !IsRpc(rpc) then Err(NotRpcCall)
    else match answer case Ok(v) => Ok(v) case Err(text) => Err(RpcFailed(text))
  }

  predicate EvmFailure(events: seq<string>) {
    "ExecutedFailed" in events || "CreatedFailed" in events
  }

  /** What comes of a transaction once it has a nonce: an exception, or the verdict of the first
      deciding notification. */
  function Sent(w: World): Result<Settlement, Failure> {
    match w.signing
    case Err(text) => Err(SignFailed(text))
    case Ok(updates) => Ok(Verdict(FirstDecision(updates)))
  }

  /** How signing ends, with the nonce lookup that precedes it. */
  function Signed(connected: bool, nonce: nat, w: World): Result<Settlement, Failure> {
    if nonce == 0 && !connected then Err(NotConnected)
    else if nonce == 0 && w.nonce.Err? then Err(RpcFailed(w.nonce.error))
    else Sent(w)
  }

  /** The nonce lookup of one extrinsic: made exactly when no non-zero nonce was given. */
  function LookupEntries(connected: bool, nonce: nat, w: World): seq<LogEntry> {
    if connected && w.built.None? && nonce == 0 then [RpcEntry(NONCE_QUERY, if w.nonce.Ok? then Success else Fail)]
    else []
  }

  /** The entry of an extrinsic that was signed: made when it settles and no EVM failure is among its events. */
  function Recorded(call: string, signed: Result<Settlement, Failure>): seq<LogEntry> {
    match signed
    case Ok(Resolved(u)) =>
      if EvmFailure(u.events) then [] else [ExtrinsicEntry(call, Success, None, None, u.events)]
    case Ok(Rejected(u, moduleError)) =>
      [ExtrinsicEntry(call, Fail, moduleError, if moduleError.None? then u.dispatchError else None, [])]
    case _ => []
  }

  function Concluded(signed: Result<Settlement, Failure>, expectSuccess: bool): Completion {
    match signed
    case Err(failure) => Threw(failure)
    case Ok(Pending) => Waiting
    case Ok(Resolved(u)) =>
      if EvmFailure(u.events) then Threw(EvmFailed) else Returned(TxResult(Success, u, None))
    case Ok(Rejected(u, moduleError)) =>
      if expectSuccess && moduleError.Some? then Threw(ModuleFailed(moduleError.value))
      else if expectSuccess && u.dispatchError.Some? then Threw(DispatchFailed(u.dispatchError.value))
      else Returned(TxResult(Fail, u, moduleError))
  }

  function ExtrinsicEntries(connected: bool, call: string, nonce: nat, w: World): seq<LogEntry> {
    if !connected || w.built.Some? then [] else Recorded(call, Signed(true, nonce, w))
  }

  function Completes(connected: bool, nonce: nat, w: World, expectSuccess: bool): Completion {
    if !connected then Threw(NotConnected)
    else if w.built.Some? then Threw(BadCall(w.built.value))
    else Concluded(Signed(true, nonce, w), expectSuccess)
  }

  /** The nonce left in the options object: a looked-up nonce is written back into it. */
  function NonceAfter(connected: bool, nonce: nat, w: World): nat {
    if connected && w.built.None? && nonce == 0 && w.nonce.Ok? then w.nonce.value else nonce
  }

  // ----- the helper -----

  class ChainHelper {
    var connected: bool
    var chainLog: seq<LogEntry>

    constructor ()
      ensures !connected && chainLog == []
    {
      connected := false;
      chainLog := [];
    }

    method CallRpc<V>(rpc: string, answer: Result<V, string>) returns (r: Result<V, Failure>)
      modifies this`chainLog
      ensures chainLog == old(chainLog) + RpcEntries(connected, rpc, answer)
      ensures r == RpcAnswer(connected, rpc, answer)
    {
      if !connected {
        return Err(NotConnected);
      }
      if !("api.rpc." <= rpc) && !("api.query." <= rpc) {
        return Err(NotRpcCall);
      }
      var status := if answer.Err? then Fail else Success;
      chainLog := chainLog + [RpcEntry(rpc, status)];
      if answer.Err? {
        return Err(RpcFailed(answer.error));
      }
      return Ok(answer.value);
    }

    method GetNonce(answer: Result<nat, string>) returns (r: Result<nat, Failure>)
      modifies this`chainLog
      ensures chainLog == old(chainLog) + RpcEntries(connected, NONCE_QUERY, answer)
      ensures r == RpcAnswer(connected, NONCE_QUERY, answer)
    {
      r := CallRpc(NONCE_QUERY, answer);
    }

    method SignTransaction(given: SignerOptions?, w: World)
      returns (r: Result<Settlement, Failure>, options: SignerOptions)
      modifies this`chainLog, given
      ensures given != null ==> options == given
      ensures given == null ==> fresh(options)
      ensures var nonce := if given == null then 0 else old(given.nonce);
              && r == Signed(connected, nonce, w)
              && chainLog == old(chainLog) + (if nonce == 0 then RpcEntries(connected, NONCE_QUERY, w.nonce) else [])
              && options.nonce == if nonce == 0 && connected && w.nonce.Ok? then w.nonce.value else nonce
    {
      if given == null {
        options := new SignerOptions(0);
      } else {
        options := given;
      }
      if options.nonce == 0 {
        assert IsRpc(NONCE_QUERY);
        var nonce := GetNonce(w.nonce);
        if nonce.Err? {
          return Err(nonce.error), options;
        }
        options.nonce := nonce.value;
      }
      if w.signing.Err? {
        return Err(SignFailed(w.signing.error)), options;
      }
      var promise := new SettlementPromise();
      promise.Watch(w.signing.value);
      FirstDecisionSettles(w.signing.value);
      r := Ok(promise.state);
    }

    method ExecuteExtrinsic(call: string, expectSuccess: bool, given: SignerOptions?, w: World)
      returns (r: Completion)
      modifies this`chainLog, given
      ensures var nonce := if given == null then 0 else old(given.nonce);
              && chainLog ==
                 old(chainLog) + LookupEntries(connected, nonce, w) + ExtrinsicEntries(connected, call, nonce, w)
              && r == Completes(connected, nonce, w, expectSuccess)
              && (given != null ==> given.nonce == NonceAfter(connected, nonce, w))
    {
      if !connected {
        return Threw(NotConnected);
      }
      if w.built.Some? {
        return Threw(BadCall(w.built.value));
      }
      assert IsRpc(NONCE_QUERY);
      var settled, _ := SignTransaction(given, w);
      if settled.Err? {
        return Threw(settled.error);
      }
      var result;
      var events: seq<string> := [];
      match settled.value {
        case Pending =>
          return Waiting;
        case Resolved(u) =>
          events := u.events;
          if "ExecutedFailed" in events || "CreatedFailed" in events {
            return Threw(EvmFailed);
          }
          result := TxResult(Success, u, None);
        case Rejected(u, moduleError) =>
          result := TxResult(Fail, u, moduleError);
      }
      var moduleError: Option<string> := None;
      var dispatchError: Option<DispatchError> := None;
      if result.status != Success {
        if result.moduleError.Some? {
          moduleError := result.moduleError;
        } else if result.update.dispatchError.Some? {
          dispatchError := result.update.dispatchError;
        }
      }
      chainLog := chainLog + [ExtrinsicEntry(call, result.status, moduleError, dispatchError, events)];
      if expectSuccess && result.status != Success {
        if result.moduleError.Some? {
          return Threw(ModuleFailed(result.moduleError.value));
        } else if result.update.dispatchError.Some? {
          return Threw(DispatchFailed(result.update.dispatchError.value));
        }
      }
      return Returned(result);
    }
  }

  // ----- single calls -----

  /** A call leaves an entry of its own exactly when it returns a result or throws the
      transaction's own error; the entry carries the result's status. EVM failures, exceptions and
      calls that never settle leave none. */
  lemma LoggedExactly(call: string, nonce: nat, w: World, expectSuccess: bool)
    ensures var r := Completes(true, nonce, w, expectSuccess);
            var own := ExtrinsicEntries(true, call, nonce, w);
            if r.Returned? then |own| == 1 && own[0].call == call && own[0].status == r.result.status
            else if r.Threw? && (r.failure.ModuleFailed? || r.failure.DispatchFailed?)
              then |own| == 1 && own[0].call == call && own[0].status == Fail
            else own == []
  {
  }

  /** With `expectSuccess`, a failed result is handed back exactly when the deciding notification
      rejects the transaction without naming any dispatch error. */
  lemma FailReturnedExactly(nonce: nat, w: World)
    ensures var r := Completes(true, nonce, w, true);
            (r.Returned? && r.result.status == Fail) <==>
            && w.built.None?
            && (nonce != 0 || w.nonce.Ok?)
            && w.signing.Ok?
            && var u := FirstDecision(w.signing.value);
               u.Some? && !(u.value.phase.Finalized? && Succeeded(u.value)) && u.value.dispatchError.None?
    ensures var r := Completes(true, nonce, w, true);
            r.Returned? && r.result.status == Fail ==> r.result.moduleError.None? && r.result.update.dispatchError.None?
  {
  }

  /** The transaction is built, has a nonce, is signed, and `u` is its first deciding notification. */
  predicate DecidedBy(nonce: nat, w: World, u: Update) {
    w.built.None? && (nonce != 0 || w.nonce.Ok?) && w.signing.Ok? && FirstDecision(w.signing.value) == Some(u)
  }

  /** A guarded RPC call leaves one entry that tells whether it succeeded; the guards let through the
      names under "api.rpc." and "api.query." on a connected helper, and nothing else. */
  lemma RpcExactly<V>(connected: bool, rpc: string, answer: Result<V, string>)
    ensures var passes := connected && ("api.rpc." <= rpc || "api.query." <= rpc);
            && (passes && answer.Ok? ==> RpcEntries(connected, rpc, answer) == [RpcEntry(rpc, Success)])
            && (passes && answer.Err? ==> RpcEntries(connected, rpc, answer) == [RpcEntry(rpc, Fail)])
            && (!passes ==> RpcEntries(connected, rpc, answer) == [])
            && (RpcAnswer(connected, rpc, answer) == Err(NotConnected) <==> !connected)
            && (RpcAnswer(connected, rpc, answer) == Err(NotRpcCall) <==> connected && !passes)
            && (passes && answer.Ok? ==> RpcAnswer(connected, rpc, answer) == Ok(answer.value))
            && (passes && answer.Err? ==> RpcAnswer(connected, rpc, answer) == Err(RpcFailed(answer.error)))
  {
  }

  /** The nonce lookup is the RPC call "api.query.system.account", logged with its status. */
  lemma LookupEntryExactly(nonce: nat, w: World)
    ensures LookupEntries(true, nonce, w) ==
            if w.built.Some? || nonce != 0 then []
            else [RpcEntry("api.query.system.account", match w.nonce case Ok(_) => Success case Err(_) => Fail)]
    ensures LookupEntries(false, nonce, w) == []
  {
  }

  /** When a call throws, and what. */
  lemma ThrowsExactly(nonce: nat, w: World, expectSuccess: bool, text: string)
    ensures var r := Completes(true, nonce, w, expectSuccess);
            && (r == Threw(BadCall(text)) <==> w.built == Some(text))
            && (r == Threw(RpcFailed(text)) <==> w.built.None? && nonce == 0 && w.nonce == Err(text))
            && (r == Threw(SignFailed(text)) <==>
                  w.built.None? && (nonce != 0 || w.nonce.Ok?) && w.signing == Err(text))
            && r != Threw(NotConnected) && r != Threw(NotRpcCall)
    ensures Completes(false, nonce, w, expectSuccess) == Threw(NotConnected)
  {
  }

  /** A transaction that succeeded finally: the call throws exactly when an event says that the EVM
      call or creation failed, and then logs nothing; otherwise it returns and logs the events. */
  lemma FinalSuccess(call: string, nonce: nat, w: World, expectSuccess: bool, u: Update)
    requires DecidedBy(nonce, w, u)
    requires u.phase == Finalized && "ExtrinsicSuccess" in u.events && "ExtrinsicFailed" !in u.events
    ensures var r, own := Completes(true, nonce, w, expectSuccess), ExtrinsicEntries(true, call, nonce, w);
            if exists e :: e in u.events && e in {"ExecutedFailed", "CreatedFailed"}
            then r == Threw(EvmFailed) && own == []
            else
              && r == Returned(TxResult(Success, u, None))
              && own == [ExtrinsicEntry(call, Success, None, None, u.events)]
  {
    var failures := {"ExecutedFailed", "CreatedFailed"};
    assert "ExecutedFailed" in failures && "CreatedFailed" in failures;
  }

  /** A transaction that was decided otherwise: the entry says Fail, carries the module error's text or
      else the dispatch error, and no events. Where success is expected the call throws that error;
      otherwise, and where no error is named, it returns the failure. */
  lemma OtherDecision(call: string, nonce: nat, w: World, expectSuccess: bool, u: Update)
    requires DecidedBy(nonce, w, u)
    requires !(u.phase == Finalized && "ExtrinsicSuccess" in u.events && "ExtrinsicFailed" !in u.events)
    ensures var r, own := Completes(true, nonce, w, expectSuccess), ExtrinsicEntries(true, call, nonce, w);
            && |own| == 1 && own[0].ExtrinsicEntry? && own[0].call == call
            && own[0].status == Fail && own[0].events == []
            && (match u.dispatchError
                case None => own[0].moduleError == None && own[0].dispatchError == None
                case Some(e) =>
                  if !u.ownError then own[0].moduleError == None && own[0].dispatchError == Some(e)
                  else
                    && own[0].dispatchError == None
                    && own[0].moduleError == Some(match e
                         case ModuleError(section, name) => section + "." + name
                         case TokenError(name) => "Token: " + name
                         case OtherError(text) => "Misc: " + text))
            && (if !expectSuccess || u.dispatchError.None?
                then r == Returned(TxResult(Fail, u, own[0].moduleError))
                else if u.ownError then own[0].moduleError.Some? && r == Threw(ModuleFailed(own[0].moduleError.value))
                else r == Threw(DispatchFailed(u.dispatchError.value)))
  {
  }

  /** A call is thrown out for an EVM failure exactly when its transaction was decided by a finalized
      success with such an event, and it waits exactly when nothing decides its transaction. */
  lemma EvmFailedExactly(nonce: nat, w: World, expectSuccess: bool)
    ensures Completes(true, nonce, w, expectSuccess) == Threw(EvmFailed) <==>
            exists u :: DecidedBy(nonce, w, u) && u.phase == Finalized
              && "ExtrinsicSuccess" in u.events && "ExtrinsicFailed" !in u.events
              && ("ExecutedFailed" in u.events || "CreatedFailed" in u.events)
    ensures Completes(true, nonce, w, expectSuccess) == Waiting <==>
            && w.built.None? && (nonce != 0 || w.nonce.Ok?) && w.signing.Ok?
            && FirstDecision(w.signing.value) == None
  {
    if Completes(true, nonce, w, expectSuccess) == Threw(EvmFailed) {
      assert DecidedBy(nonce, w, FirstDecision(w.signing.value).value);
    }
  }

  // ----- runs of calls, one after the other -----

  /** `slot` names one of the caller's options objects; none means that no options are passed. */
  datatype Call =
    | Rpc(rpc: string, answer: Result<int, string>)
    | Extrinsic(call: string, expectSuccess: bool, slot: Option<nat>, world: World)

  predicate Fits(c: Call, slots: nat) {
    c.Extrinsic? && c.slot.Some? ==> c.slot.value < slots
  }

  function NonceOf(c: Call, nonces: seq<nat>): nat
    requires Fits(c, |nonces|) && c.Extrinsic?
  {
    if c.slot.None? then 0 else nonces[c.slot.value]
  }

  /** RPC entries of one call: its own, or its nonce lookup. */
  function Queries(connected: bool, c: Call, nonces: seq<nat>): seq<LogEntry>
    requires Fits(c, |nonces|)
  {
    match c
    case Rpc(rpc, answer) => RpcEntries(connected, rpc, answer)
    case Extrinsic(_, _, _, w) => LookupEntries(connected, NonceOf(c, nonces), w)
  }

  function Own(connected: bool, c: Call, nonces: seq<nat>): seq<LogEntry>
    requires Fits(c, |nonces|)
  {
    match c
    case Rpc(_, _) => []
    case Extrinsic(call, _, _, w) => ExtrinsicEntries(connected, call, NonceOf(c, nonces), w)
  }

  function NoncesAfter(connected: bool, c: Call, nonces: seq<nat>): (after: seq<nat>)
    requires Fits(c, |nonces|)
    ensures |after| == |nonces|
  {
    if c.Extrinsic? && c.slot.Some? then nonces[c.slot.value := NonceAfter(connected, NonceOf(c, nonces), c.world)]
    else nonces
  }

  /** What a call hands back to its caller. */
  datatype Reply = RpcReply(answer: Result<int, Failure>) | ExtrinsicReply(completion: Completion)

  function ReplyTo(connected: bool, c: Call, nonces: seq<nat>): Reply
    requires Fits(c, |nonces|)
  {
    match c
    case Rpc(rpc, answer) => RpcReply(RpcAnswer(connected, rpc, answer))
    case Extrinsic(_, expectSuccess, _, w) => ExtrinsicReply(Completes(connected, NonceOf(c, nonces), w, expectSuccess))
  }

  predicate AllFit(calls: seq<Call>, slots: nat) {
    forall c :: c in calls ==> Fits(c, slots)
  }

  /** Everything a run of calls that do not overlap writes to the log. */
  function Trace(connected: bool, calls: seq<Call>, nonces: seq<nat>): seq<LogEntry>
    requires AllFit(calls, |nonces|)
    decreases |calls|
  {
    if calls == [] then []
    else
      assert calls[0] in calls;
      Queries(connected, calls[0], nonces) + Own(connected, calls[0], nonces)
      + Trace(connected, calls[1..], NoncesAfter(connected, calls[0], nonces))
  }

  function Replies(connected: bool, calls: seq<Call>, nonces: seq<nat>): seq<Reply>
    requires AllFit(calls, |nonces|)
    decreases |calls|
  {
    if calls == [] then []
    else
      assert calls[0] in calls;
      [ReplyTo(connected, calls[0], nonces)] + Replies(connected, calls[1..], NoncesAfter(connected, calls[0], nonces))
  }

  function NoncesAtEnd(connected: bool, calls: seq<Call>, nonces: seq<nat>): (after: seq<nat>)
    requires AllFit(calls, |nonces|)
    ensures |after| == |nonces|
    decreases |calls|
  {
    if calls == [] then nonces
    else
      assert calls[0] in calls;
      NoncesAtEnd(connected, calls[1..], NoncesAfter(connected, calls[0], nonces))
  }

  ghost function Nonces(slots: seq<SignerOptions>): (n: seq<nat>)
    reads slots
    ensures |n| == |slots|
  {
    seq(|slots|, i requires 0 <= i < |slots| reads slots => slots[i].nonce)
  }

  ghost predicate Separate(slots: seq<SignerOptions>) {
    forall i, j :: 0 <= i < j < |slots| ==> slots[i] != slots[j]
  }

  method PerformOne(helper: ChainHelper, c: Call, slots: seq<SignerOptions>) returns (reply: Reply)
    requires Fits(c, |slots|) && Separate(slots)
    modifies helper`chainLog, slots
    ensures reply == ReplyTo(helper.connected, c, old(Nonces(slots)))
    ensures helper.chainLog == old(helper.chainLog)
              + (Queries(helper.connected, c, old(Nonces(slots))) + Own(helper.connected, c, old(Nonces(slots))))
    ensures Nonces(slots) == NoncesAfter(helper.connected, c, old(Nonces(slots)))
  {
    hide LookupEntries, ExtrinsicEntries, RpcEntries, RpcAnswer, Completes, NonceAfter, Signed;
    match c {
      case Rpc(rpc, answer) =>
        var r := helper.CallRpc(rpc, answer);
        reply := RpcReply(r);
      case Extrinsic(call, expectSuccess, slot, w) =>
        var r;
        if slot.None? {
          r := helper.ExecuteExtrinsic(call, expectSuccess, null, w);
        } else {
          r := helper.ExecuteExtrinsic(call, expectSuccess, slots[slot.value], w);
        }
        reply := ExtrinsicReply(r);
    }
  }

  lemma TraceStep(connected: bool, calls: seq<Call>, i: nat, nonces: seq<nat>)
    requires i < |calls| && AllFit(calls[i..], |nonces|)
    ensures Fits(calls[i], |nonces|) && AllFit(calls[i + 1..], |nonces|)
    ensures var rest := NoncesAfter(connected, calls[i], nonces);
            && Trace(connected, calls[i..], nonces) ==
               Queries(connected, calls[i], nonces) + Own(connected, calls[i], nonces)
               + Trace(connected, calls[i + 1..], rest)
            && Replies(connected, calls[i..], nonces) ==
               [ReplyTo(connected, calls[i], nonces)] + Replies(connected, calls[i + 1..], rest)
            && NoncesAtEnd(connected, calls[i..], nonces) == NoncesAtEnd(connected, calls[i + 1..], rest)
  {
    hide Queries, Own, ReplyTo, NoncesAfter;
    assert calls[i..][0] == calls[i] && calls[i..][0] in calls[i..] && calls[i..][1..] == calls[i + 1..];
    assert forall c :: c in calls[i + 1..] ==> c in calls[i..];
  }

  lemma TraceEnd(connected: bool, calls: seq<Call>, nonces: seq<nat>)
    requires calls == []
    ensures Trace(connected, calls, nonces) == [] && Replies(connected, calls, nonces) == []
    ensures NoncesAtEnd(connected, calls, nonces) == nonces
  {
  }

  /** Any sequence of calls on one helper, each awaited before the next, sharing the caller's options
      objects. (Module Overlap has the calls that overlap.) */
  method Perform(helper: ChainHelper, calls: seq<Call>, slots: seq<SignerOptions>) returns (replies: seq<Reply>)
    requires AllFit(calls, |slots|) && Separate(slots)
    modifies helper`chainLog, slots
    ensures replies == Replies(helper.connected, calls, old(Nonces(slots)))
    ensures helper.chainLog == old(helper.chainLog) + Trace(helper.connected, calls, old(Nonces(slots)))
    ensures Nonces(slots) == NoncesAtEnd(helper.connected, calls, old(Nonces(slots)))
  {
    hide Queries, Own, ReplyTo, NoncesAfter, Trace, Replies, NoncesAtEnd, AllFit, Nonces;
    ghost var connected, before := helper.connected, Nonces(slots);
    replies := [];
    assert calls[0..] == calls;
    for i := 0 to |calls|
      invariant AllFit(calls[i..], |slots|)
      invariant helper.connected == connected
      invariant replies + Replies(connected, calls[i..], Nonces(slots)) == Replies(connected, calls, before)
      invariant helper.chainLog + Trace(connected, calls[i..], Nonces(slots))
             == old(helper.chainLog) + Trace(connected, calls, before)
      invariant NoncesAtEnd(connected, calls[i..], Nonces(slots)) == NoncesAtEnd(connected, calls, before)
    {
      TraceStep(connected, calls, i, Nonces(slots));
      var reply := PerformOne(helper, calls[i], slots);
      replies := replies + [reply];
    }
    TraceEnd(connected, calls[|calls|..], Nonces(slots));
  }

  // ----- accounting over runs -----

  function Filter(log: seq<LogEntry>, rpc: bool): seq<LogEntry> {
    if log == [] then []
    else (if log[0].RpcEntry? == rpc then [log[0]] else []) + Filter(log[1..], rpc)
  }

  lemma {:induction false} FilterAppend(p: seq<LogEntry>, q: seq<LogEntry>, rpc: bool)
    ensures Filter(p + q, rpc) == Filter(p, rpc) + Filter(q, rpc)
    decreases |p|
  {
    if p == [] {
      assert p + q == q;
    } else {
      assert (p + q)[0] == p[0] && (p + q)[1..] == p[1..] + q;
      FilterAppend(p[1..], q, rpc);
      var first := if p[0].RpcEntry? == rpc then [p[0]] else [];
      assert first + (Filter(p[1..], rpc) + Filter(q, rpc)) == (first + Filter(p[1..], rpc)) + Filter(q, rpc);
    }
  }

  function Collected(connected: bool, calls: seq<Call>, nonces: seq<nat>, rpc: bool): seq<LogEntry>
    requires AllFit(calls, |nonces|)
    decreases |calls|
  {
    if calls == [] then []
    else
      assert calls[0] in calls;
      (if rpc then Queries(connected, calls[0], nonces) else Own(connected, calls[0], nonces))
      + Collected(connected, calls[1..], NoncesAfter(connected, calls[0], nonces), rpc)
  }

  lemma PiecesAreShort(connected: bool, c: Call, nonces: seq<nat>)
    requires Fits(c, |nonces|)
    ensures |Queries(connected, c, nonces)| <= 1 && |Own(connected, c, nonces)| <= 1
    ensures Filter(Queries(connected, c, nonces), true) == Queries(connected, c, nonces)
    ensures Filter(Queries(connected, c, nonces), false) == []
    ensures Filter(Own(connected, c, nonces), false) == Own(connected, c, nonces)
    ensures Filter(Own(connected, c, nonces), true) == []
  {
  }

  /** The extrinsic entries of the log are the calls' own entries, in call order and nothing else;
      the RPC entries are the RPC calls that passed their guards and the nonce lookups. */
  lemma {:induction false} LogAccounts(connected: bool, calls: seq<Call>, nonces: seq<nat>, rpc: bool)
    requires AllFit(calls, |nonces|)
    ensures Filter(Trace(connected, calls, nonces), rpc) == Collected(connected, calls, nonces, rpc)
    decreases |calls|
  {
    if calls != [] {
      hide Filter, Queries, Own, NoncesAfter;
      var c := calls[0];
      assert c in calls;
      var q, o := Queries(connected, c, nonces), Own(connected, c, nonces);
      var rest := NoncesAfter(connected, c, nonces);
      PiecesAreShort(connected, c, nonces);
      LogAccounts(connected, calls[1..], rest, rpc);
      FilterAppend(q + o, Trace(connected, calls[1..], rest), rpc);
      FilterAppend(q, o, rpc);
      assert q + [] == q && [] + o == o;
    }
  }

  /** The status a reply stands for in the log: a returned result's, or Fail for the transaction's
      own error; replies of any other kind leave no extrinsic entry. */
  function Told(reply: Reply): seq<Status> {
    match reply
    case ExtrinsicReply(Returned(result)) => [result.status]
    case ExtrinsicReply(Threw(failure)) => if failure.ModuleFailed? || failure.DispatchFailed? then [Fail] else []
    case _ => []
  }

  function AllTold(replies: seq<Reply>): seq<Status> {
    if replies == [] then [] else Told(replies[0]) + AllTold(replies[1..])
  }

  function Statuses(log: seq<LogEntry>): seq<Status> {
    seq(|log|, i requires 0 <= i < |log| => log[i].status)
  }

  lemma OwnTold(connected: bool, c: Call, nonces: seq<nat>)
    requires Fits(c, |nonces|)
    ensures Statuses(Own(connected, c, nonces)) == Told(ReplyTo(connected, c, nonces))
  {
    if c.Extrinsic? && connected {
      LoggedExactly(c.call, NonceOf(c, nonces), c.world, c.expectSuccess);
    }
  }

  /** The log tells what the callers were told: the statuses of its extrinsic entries are, in order,
      those of the calls that returned a result or threw the transaction's own error. */
  lemma {:induction false} LogTellsReplies(connected: bool, calls: seq<Call>, nonces: seq<nat>)
    requires AllFit(calls, |nonces|)
    ensures Statuses(Filter(Trace(connected, calls, nonces), false)) == AllTold(Replies(connected, calls, nonces))
    decreases |calls|
  {
    LogAccounts(connected, calls, nonces, false);
    if calls != [] {
      hide Own, ReplyTo, NoncesAfter, Told, Filter, Trace;
      var c, rest := calls[0], NoncesAfter(connected, calls[0], nonces);
      assert c in calls;
      OwnTold(connected, c, nonces);
      LogAccounts(connected, calls[1..], rest, false);
      LogTellsReplies(connected, calls[1..], rest);
      StatusesAppend(Own(connected, c, nonces), Collected(connected, calls[1..], rest, false));
      var replies := Replies(connected, calls, nonces);
      assert replies[0] == ReplyTo(connected, c, nonces) && replies[1..] == Replies(connected, calls[1..], rest);
    }
  }

  lemma StatusesAppend(p: seq<LogEntry>, q: seq<LogEntry>)
    ensures Statuses(p + q) == Statuses(p) + Statuses(q)
  {
  }

  // ----- nonces in shared options objects -----

  /** The answer this call would write into the options object `slot`, if that holds no nonce yet. */
  function LookedUp(c: Call, slot: nat): nat {
    if c.Extrinsic? && c.slot == Some(slot) && c.world.built.None? && c.world.nonce.Ok? then c.world.nonce.value else 0
  }

  /** The first non-zero answer to a call on the options object. */
  function FirstNonce(calls: seq<Call>, slot: nat): nat {
    if calls == [] then 0
    else if LookedUp(calls[0], slot) != 0 then LookedUp(calls[0], slot)
    else FirstNonce(calls[1..], slot)
  }

  /** After any calls made one after the other an options object holds the nonce it was given, else
      the first non-zero one that was looked up for it, however often it and other objects are used. */
  lemma {:induction false} ReusedOptionsKeepTheirNonce(connected: bool, calls: seq<Call>, nonces: seq<nat>, slot: nat)
    requires AllFit(calls, |nonces|) && slot < |nonces|
    ensures NoncesAtEnd(connected, calls, nonces)[slot] ==
            if nonces[slot] != 0 || !connected then nonces[slot] else FirstNonce(calls, slot)
    decreases |calls|
  {
    if calls != [] {
      assert calls[0] in calls;
      ReusedOptionsKeepTheirNonce(connected, calls[1..], NoncesAfter(connected, calls[0], nonces), slot);
    }
  }

  lemma {:induction false} FirstNonceZero(calls: seq<Call>, slot: nat)
    ensures FirstNonce(calls, slot) == 0 <==> forall c :: c in calls ==> LookedUp(c, slot) == 0
  {
    if calls != [] {
      FirstNonceZero(calls[1..], slot);
      assert calls == [calls[0]] + calls[1..];
    }
  }

  /** After any calls made one after the other, a call on an options object looks a nonce up exactly
      when it can be built, the object came without a nonce, and no earlier call on it was answered
      with a non-zero one. */
  lemma LookupExactly(connected: bool, calls: seq<Call>, nonces: seq<nat>, slot: nat, c: Call)
    requires AllFit(calls, |nonces|) && slot < |nonces| && c.Extrinsic? && c.slot == Some(slot)
    ensures Queries(connected, c, NoncesAtEnd(connected, calls, nonces)) != [] <==>
            && connected && c.world.built.None? && nonces[slot] == 0
            && forall e :: e in calls && e.Extrinsic? && e.slot == Some(slot) && e.world.built.None? ==>
                 e.world.nonce.Err? || e.world.nonce.value == 0
  {
    ReusedOptionsKeepTheirNonce(connected, calls, nonces, slot);
    FirstNonceZero(calls, slot);
    assert forall e :: LookedUp(e, slot) == 0 <==>
      (e.Extrinsic? && e.slot == Some(slot) && e.world.built.None? ==> e.world.nonce.Err? || e.world.nonce.value == 0);
  }
}
