# Verified model of the Unique Network client scripts

This project models, in Dafny, the parts of the Unique Network repository's TypeScript code that
compute or coordinate something, and proves what they promise: the exact-rational calibration of
fees, the doubling balance distributor with its counter protocol, the identity synchronisation
between chains, the transaction lifecycle with its audit log and address codecs, and the batched
funding of test accounts. `dafny verify dfyconfig.toml` checks everything.

The model keeps the code's form. Expressions over immutable values are functions. Loops, arrays
that are pushed to or spliced, and objects whose fields change are methods and classes, each proved
against a function or a property stated outright. Exceptions are `Result` values. What the network,
the chain, the signer or a hash function decides is a parameter, so every statement holds for all
of their answers. The order in which the event loop takes things is a parameter where it matters:
the order in which a stage's failures are recorded, the interleaving of the counter messages, and
the interleaving of calls on one helper (module `Overlap`). Module `AuditLog` has the methods
themselves and the runs in which every call is awaited before the next; `Overlap` lets every call
stop at each `await` and takes the steps of all calls in any order.

Where the code does something other than its comments or names suggest, the model follows the code,
and the exact condition is proved:

- `Fract.sqrt` throws on negative inputs, returns inputs from 0 up to 2 unchanged, returns 1 for 3,
  and on nothing else does it ever return (`SqrtOutcome`). The result is a square root only for 0
  and 1. From 2 on the iterates converge, but the stopping test is met for 3 alone.
- Removing failed accounts by splicing backwards is right exactly when failures were recorded in
  increasing order (`RemovalExact`). A run that records them otherwise returns a failed account
  (`FailuresRecordedBackwards`).
- A nested postfix program can be inlined everywhere exactly when its own run is not a shape fault,
  or it ends in that fault on top of every stack (`InliningExact`). For a program that leaves the
  wrong number of elements, one run on the empty stack decides that (`FaultsAnywayOneElement`); for
  one that underflows and has no division of its own, one run on a stack taller than the program is
  long (`FaultsAnywayUnderflow`).
- Identity synchronisation with any number of relays ends the same in every order exactly when, for
  every account unknown to the chain, the relays that agree with the lowest one offering it have
  ids that are not 0 and smaller than those of all relays that dissent (`OrderIndependenceExact`).
  The priority rule takes id 0, which is Polkadot's, for "no data", although the comment beside it
  ranks it highest; this reads registrar ids as numbers, as the code's type annotations do, while
  at run time they come from `toHuman()`, whose rendering is not part of this model. For two relays
  the condition is that the lower id is not 0 or the relays do not contradict each other
  (`TwoRelaysExact`). With three the order can matter even without id 0
  (`ThreeRelaysDependOnOrder`). A final sweep from the highest id to the lowest always settles it
  (`DescendingSweepConverges`).
- `bigIntToDecimals` prints a negative amount correctly exactly when it is at least one whole token
  (`NegativeAmountsExact`).
- A nonce that `signTransaction` looks up is written into the caller's options object. When every
  call is awaited before the next, the object holds the nonce it came with, else the first non-zero
  one looked up for it (`ReusedOptionsKeepTheirNonce`, `LookupExactly`). When calls overlap, two of
  them can both find no nonce, and the later answer overwrites the earlier
  (`OverlapChangesTheNonce`). A call looks a nonce up exactly when there was none at the moment it
  started (`LookupDecidedAtStart`). A non-zero nonce never changes while at most one lookup is in
  flight for its object (`NonceKept`). It is safe under every interleaving exactly when it is never
  looked up, or all calls sharing the object with one that gets a non-zero answer get that same
  answer (`NonceStaysExactly`).
- The log is in order of completion, not of the calls. Under every interleaving the statuses of its
  extrinsic entries are those the callers were told, in the order they were told
  (`LogInOrderOfCompletion`), and each call's own entries and reply are those it would have alone
  (`EachCallAsIfAlone`).

## Model

| member | source | states |
|---|---|---|
| Fractions.GcdLoop | js-packages/scripts/calibrate.ts:43-54 | the loop ends with the greatest common divisor in the divisibility order, for all integers |
| Fractions.GcdIsGreatest | js-packages/scripts/calibrate.ts:43-54 | every common divisor divides the result, which divides both arguments |
| Fractions.Bezout | js-packages/scripts/calibrate.ts:43-54 | the gcd is an integer combination of its arguments |
| Fractions.OptimizeExact | js-packages/scripts/calibrate.ts:42-57 | reduction keeps the value and leaves no common factor |
| Fractions.LowestTermsCanonical | js-packages/scripts/calibrate.ts:42-57 | fractions in lowest terms with equal values are the same pair of integers |
| Fractions.NormalFormDecidesEquality | js-packages/scripts/calibrate.ts:66-76 | two fractions reduce to the same pair exactly when `eq` holds |
| Fractions.EqIsEqual | js-packages/scripts/calibrate.ts:74-76 | `eq` is equality of the rational values |
| Fractions.LtIsLess | js-packages/scripts/calibrate.ts:71-73 | `lt` is the order of the rational values |
| Fractions.MulExact | js-packages/scripts/calibrate.ts:12-14 | the product is exact and in lowest terms |
| Fractions.PlusExact | js-packages/scripts/calibrate.ts:20-25 | the sum is exact; a shared denominator is kept, otherwise the sum is in lowest terms |
| Fractions.NegExact | js-packages/scripts/calibrate.ts:31-33 | negation is exact |
| Fractions.MinusExact | js-packages/scripts/calibrate.ts:27-29 | the difference is exact |
| Fractions.InvExact | js-packages/scripts/calibrate.ts:34-40 | inversion is exact and throws, only "division by zero", exactly on zero |
| Fractions.DivExact | js-packages/scripts/calibrate.ts:16-18 | the quotient is exact and in lowest terms; it throws exactly for a zero divisor |
| Fractions.ToBigIntTruncates | js-packages/scripts/calibrate.ts:59-61 | the integer next to the value on the side of zero |
| Rpn.RunLoop | js-packages/scripts/calibrate.ts:99-144 | the loop with its mutable stack computes the machine's result or error |
| Rpn.CompileCorrect | js-packages/scripts/calibrate.ts:99-144 | for every expression tree, with squares by `dup` and groups by nesting, its postfix code returns the tree's real value, and throws "division by zero" exactly when a divisor in it is zero |
| Rpn.DupExactly | js-packages/scripts/calibrate.ts:129-134 | `dup` leaves the top of the stack twice and underflows on the empty stack |
| Rpn.ExecFrame | js-packages/scripts/calibrate.ts:99-140 | a program that does not underflow behaves the same on top of any stack |
| Rpn.InliningPreservesRun | js-packages/scripts/calibrate.ts:135-143 | inlining a nested program that does not end in a shape error changes no result, at any nesting depth |
| Rpn.InliningExact | js-packages/scripts/calibrate.ts:135-143 | a nested program can be inlined in every context exactly when its own run is not a shape error, or it ends in that error on top of every stack |
| Rpn.FaultsAnywayOneElement | js-packages/scripts/calibrate.ts:135-143 | a program that does not leave one element faults on top of every stack exactly when it faults on the empty one |
| Rpn.FaultsAnywayUnderflow | js-packages/scripts/calibrate.ts:105-143 | an underflowing program without a division of its own underflows on top of every stack exactly when it does on a stack taller than the program is long |
| Rpn.InliningCanChangeRun | js-packages/scripts/calibrate.ts:135-143 | a program where inlining a failing nested program does change the result |
| Rpn.RunForetold | js-packages/scripts/calibrate.ts:105-143 | underflow, leftover and unknown-operand errors occur exactly when a value-blind depth count says so, division by zero aside |
| Regression.LagrangeIdentity | js-packages/scripts/calibrate.ts:162-166 | the slope's denominator is the sum of squared x differences over all pairs |
| Regression.PairSpreadSign | js-packages/scripts/calibrate.ts:162-166 | that sum vanishes exactly when no two points differ in x |
| Regression.LeastSquares | js-packages/scripts/calibrate.ts:146-174 | a solution of the normal equations has the least squared error of all lines, and is the only one that does |
| Regression.LinearRegression | js-packages/scripts/calibrate.ts:146-174 | returns exactly when two points differ in x, else throws "division by zero"; the result solves both normal equations and is the unique best line |
| Regression.LineRecovered | js-packages/scripts/calibrate.ts:146-174 | points on a line give exactly that line back |
| Regression.PredictionOnLine | js-packages/scripts/calibrate.ts:176 | the hypothesis fitted to points on a line predicts that line's values exactly |
| Regression.Calibrate | js-packages/scripts/calibrate.ts:219-226 | fit, predict and truncate; it throws "division by zero" exactly when no two points differ in x; otherwise the result is the value at the target of the line of least squared error through all measurements, with its fraction cut off |
| SquareRoot.ExcessIsSquare | js-packages/scripts/calibrate.ts:87-88 | after one Newton step x^2 - n is the square of (x^2 - n) / 2x of the step before |
| SquareRoot.StepDown | js-packages/scripts/calibrate.ts:87-88 | above the root a step goes strictly down, stays above, and leaves at most a quarter of the excess |
| SquareRoot.NeverStopsAbove | js-packages/scripts/calibrate.ts:87-93 | from an iterate above the root the stopping test never succeeds |
| SquareRoot.SqrtOutcome | js-packages/scripts/calibrate.ts:78-96 | the outcome on every input after any number of iterations |
| SquareRoot.SqrtIsRootOnlyOfZeroAndOne | js-packages/scripts/calibrate.ts:78-96 | a returned value squares to the input exactly for 0 and 1 |
| SquareRoot.IteratesAreReached | js-packages/scripts/calibrate.ts:87-95 | for values from 2 on other than 3 the recursion goes through all the iterates, in order |
| SquareRoot.IteratesConverge | js-packages/scripts/calibrate.ts:87-93 | the iterates fall strictly, stay above the root and approach it by a factor of four per step |
| Counters.CounterTable.constructor | js-packages/scripts/transfer.nload.ts:43 | a new process counts nothing |
| Counters.CounterTable.Increase | js-packages/scripts/transfer.nload.ts:44-49 | one entry grows by the amount, the others stay |
| Counters.CounterTable.Flush | js-packages/scripts/transfer.nload.ts:50-56 | the table is sent unless it is empty, and starts afresh |
| Counters.CounterTable.Receive | js-packages/scripts/transfer.nload.ts:123-127 | the master's table becomes the entry-wise sum |
| Counters.CountersConserved | js-packages/scripts/transfer.nload.ts:43-56 | over any interleaving of increments, sends, deliveries and exits, every increment is counted exactly once: at the master, in flight, at a worker, or lost with an exited worker |
| Counters.ExitLosesTheRest | js-packages/scripts/transfer.nload.ts:128-141 | what a worker holds when it exits never reaches the master: whatever follows, the master counts the same as if the worker had held anything else |
| Counters.DrainedMasterIsExact | js-packages/scripts/transfer.nload.ts:123-141 | once all workers have sent and all messages are handled, the master counts everything that did not exit unsent |
| Distribution.ParentIsEarlier | js-packages/scripts/transfer.nload.ts:68-76 | a sender has a smaller index and is the source or was a target in an earlier stage |
| Distribution.ShareBounds | js-packages/scripts/transfer.nload.ts:69-70 | the shares of one stage make up the total, up to less than one unit per account |
| Distribution.AmountBounds | js-packages/scripts/transfer.nload.ts:41-70 | the amount sent in stage s, with 10^8 for each of the s stages before, is the total divided by 2^s and cut off toward zero, for any total |
| Distribution.AmountCoversNeed | js-packages/scripts/transfer.nload.ts:70-76 | an amount received in one stage covers all later amounts with fees, for any total and number of stages |
| Distribution.SourceNeed | js-packages/scripts/transfer.nload.ts:70-76 | twice the total and one fee suffice for what the source has to pay |
| Distribution.ScriptFiguresSuffice | js-packages/scripts/transfer.nload.ts:117-136 | the script's own total, stages and funding meet these bounds |
| Distribution.CoveredStep | js-packages/scripts/transfer.nload.ts:73-82 | a transfer to an account with a clear path goes through at any fee up to FEE, and keeps every reached account able to pay all it still owes |
| Distribution.IdleStep | js-packages/scripts/transfer.nload.ts:73-82 | a transfer with any fee fails when its target is cut off by a refusal |
| Distribution.RunStage | js-packages/scripts/transfer.nload.ts:69-83 | the transfers of one stage, in order, with sender, target and amount in numbers, and the balances they leave; without a failure the amount is not negative and the source could pay it |
| Distribution.DistributeBalance | js-packages/scripts/transfer.nload.ts:58-90 | every index is sent to exactly once, by its parent: in stage s account i sends to account 2^s + i the 2^s-th part of the total less 10^8 for each stage before; of distinct accounts exactly the failed ones are removed if and only if the record is increasing, which it is when every stage's failures are recorded in order; from a solvent start every account with a clear path is paid, and every account cut off fails; at exact fees, with unused targets and no refusals, a run is free of failures if and only if no amount is negative and the source holds all it has to pay; the counters match |
| Distribution.FailuresRecordedBackwards | js-packages/scripts/transfer.nload.ts:77-89 | a run with two failures of one stage recorded last first, which returns one of the failed accounts |
| Removal.RemoveFailed | js-packages/scripts/transfer.nload.ts:86-89 | the loop splices out the recorded indices from last to first |
| Removal.RemovalInOrder | js-packages/scripts/transfer.nload.ts:86-89 | recorded in increasing order, exactly the failed accounts go, and the others keep their order |
| Removal.RemovalExact | js-packages/scripts/transfer.nload.ts:86-89 | for distinct accounts this holds exactly when the record is increasing |
| Identities.ScanJudgements | js-packages/scripts/identitySetter.ts:109-113 | the two flags say whether such a judgement exists |
| Identities.CollectConfirmed | js-packages/scripts/identitySetter.ts:107-118 | the loop keeps the confirmed identities in order, restamped |
| Identities.OfferExactly | js-packages/scripts/identitySetter.ts:107-118 | an account is offered exactly when some judgement is Reasonable or KnownGood; same information, one judgement with the relay's id, KnownGood winning |
| Identities.CrossReference | js-packages/scripts/identitySetter.ts:150-173 | the loop selects what is to be added, fails on an unjudged identity, and records the registrars found |
| Identities.ToAddMembers | js-packages/scripts/identitySetter.ts:154-173 | exactly the offered entries that are new or neither outranked nor unchanged are added |
| Identities.ToAddFaults | js-packages/scripts/identitySetter.ts:158-160 | a run fails exactly when an offered account has an unjudged identity on the chain |
| Identities.InsertAt | pallets/identity/src/lib.rs:1118-1130 | inserting changes exactly the inserted accounts |
| Identities.SyncPointwise | js-packages/scripts/identitySetter.ts:98-186 | a whole run merges every account's entry on its own |
| Identities.SyncExactly | js-packages/scripts/identitySetter.ts:48-173 | an offer is taken exactly when the account is new, or its information differs and its first judgement comes from id 0, or from neither the local chain nor an id below the relay's; otherwise the entry stays |
| Identities.SyncElsewhere | js-packages/scripts/identitySetter.ts:154-173 | an account that is not offered keeps its entry |
| Identities.ToAddInOrder | js-packages/scripts/identitySetter.ts:154-173 | what is added for a list of offers is what is added for its parts, in order |
| Identities.ConfirmedInOrder | js-packages/scripts/identitySetter.ts:107-118 | what is kept of a list of identities is what is kept of its parts, in order |
| Identities.SyncIdempotent | js-packages/scripts/identitySetter.ts:154-173 | a second run against the same relay adds nothing |
| Identities.SyncMonotone | js-packages/scripts/identitySetter.ts:48-54 | local entries are never replaced, a non-zero registrar never by a larger one, and no entry without a change of information |
| Convergence.RunsPointwise | js-packages/scripts/identitySetter.ts:98-186 | on a judged chain any sequence of runs succeeds and treats every account on its own |
| Convergence.OrderIndependenceExact | js-packages/scripts/identitySetter.ts:48-54 | for any number of relays, every sequence of runs visiting them all ends with the local information, else that of the lowest relay offering the account, exactly when the relays that agree with that one outrank all that dissent |
| Convergence.TwoRelaysExact | js-packages/scripts/identitySetter.ts:48-54 | for two relays this holds exactly when the lower id is not 0 or the relays do not contradict each other |
| Convergence.ThreeRelaysDependOnOrder | js-packages/scripts/identitySetter.ts:162-165 | three relays and two orders of runs that end with different information |
| Convergence.DescendingSweepConverges | js-packages/scripts/identitySetter.ts:48-54 | for any number of relays and any earlier runs, a sweep from the highest id to the lowest leaves the local information, else that of the lowest relay offering the account |
| Transactions.SettlementPromise.constructor | js-packages/playgrounds/unique.ts:632-634 | a new promise is pending and subscribed |
| Transactions.SettlementPromise.Resolve | js-packages/playgrounds/unique.ts:644 | only a pending promise resolves |
| Transactions.SettlementPromise.Reject | js-packages/playgrounds/unique.ts:670 | only a pending promise rejects |
| Transactions.SettlementPromise.OnUpdate | js-packages/playgrounds/unique.ts:634-672 | one notification moves the promise as specified and unsubscribes exactly when it decides |
| Transactions.SettlementPromise.Watch | js-packages/playgrounds/unique.ts:632-677 | the promise after any sequence of notifications; it ends unsubscribed exactly when one of them decided |
| Transactions.FirstDecisionSettles | js-packages/playgrounds/unique.ts:583-677 | the first deciding notification alone settles the promise: final success resolves, anything else rejects |
| Transactions.OutcomeExactly | js-packages/playgrounds/unique.ts:583-677 | the outcome in terms of phases and event names alone: waiting, resolution with a finalized success, rejection with anything else that is final |
| Transactions.RejectionText | js-packages/playgrounds/unique.ts:646-670 | a rejection carries a text exactly when its notification has an error of its own: section and name with a dot between, or the name after "Token: ", or the error after "Misc: " |
| Transactions.ResolvesExactly | js-packages/playgrounds/unique.ts:583-677 | resolution and waiting, each in both directions |
| Transactions.SettledIsFinal | js-packages/playgrounds/unique.ts:632-677 | a promise settles at most once |
| Transactions.UndecidedIsIrrelevant | js-packages/playgrounds/unique.ts:583-608 | retractions, re-inclusions and other undecided notifications never change the outcome |
| AuditLog.ChainHelper.constructor | js-packages/playgrounds/unique.ts:432-447 | a new helper is unconnected with an empty log |
| AuditLog.ChainHelper.CallRpc | js-packages/playgrounds/unique.ts:829-862 | one entry with the call's status past the guards, none before |
| AuditLog.ChainHelper.GetNonce | js-packages/playgrounds/unique.ts:2431-2433 | the lookup is one RPC call |
| AuditLog.ChainHelper.SignTransaction | js-packages/playgrounds/unique.ts:621-678 | a lookup exactly when no non-zero nonce is given, its answer written into the options; the outcome is that of the first deciding notification |
| AuditLog.ChainHelper.ExecuteExtrinsic | js-packages/playgrounds/unique.ts:731-796 | the entries appended, the result or exception, and the options afterwards |
| AuditLog.LoggedExactly | js-packages/playgrounds/unique.ts:752-796 | an extrinsic is logged exactly when it returns or throws its own error, with the result's status; EVM failures and exceptions leave no entry |
| AuditLog.RpcExactly | js-packages/playgrounds/unique.ts:829-862 | which calls pass the guards, the status of their entry, and what the caller gets in each case |
| AuditLog.LookupEntryExactly | js-packages/playgrounds/unique.ts:627-630 | the lookup is the call "api.query.system.account", logged with its status exactly when no nonce is given |
| AuditLog.ThrowsExactly | js-packages/playgrounds/unique.ts:746-763 | the exceptions before a settlement: no connection, a call that cannot be built, a failed lookup, a failed signing, each exactly when |
| AuditLog.EvmFailedExactly | js-packages/playgrounds/unique.ts:752-763 | a call throws for an EVM failure exactly when a finalized success carries "ExecutedFailed" or "CreatedFailed", and waits exactly when nothing decides its transaction |
| AuditLog.FinalSuccess | js-packages/playgrounds/unique.ts:752-796 | result, exception and log entry of a finalized success |
| AuditLog.OtherDecision | js-packages/playgrounds/unique.ts:646-796 | result, exception and log entry of any other decision: the entry's module error or dispatch error, its empty events, and what is thrown where success is expected |
| AuditLog.FailReturnedExactly | js-packages/playgrounds/unique.ts:791-795 | with `expectSuccess` a failed result is returned exactly when the rejection names no dispatch error |
| AuditLog.PerformOne | js-packages/playgrounds/unique.ts:731-862 | one call of either kind, with options objects shared between calls |
| AuditLog.Perform | js-packages/playgrounds/unique.ts:731-862 | the replies, the log and the options objects after any run of calls, each awaited before the next |
| AuditLog.LogAccounts | js-packages/playgrounds/unique.ts:731-862 | over any run of calls that do not overlap, the extrinsic entries are the calls' own entries in order, and the RPC entries are the guarded calls and the lookups |
| AuditLog.LogTellsReplies | js-packages/playgrounds/unique.ts:752-796 | over any run of calls that do not overlap, the statuses of the extrinsic entries are, in order, those of the calls that returned a result or threw the transaction's own error |
| AuditLog.ReusedOptionsKeepTheirNonce | js-packages/playgrounds/unique.ts:626-630 | after any run of calls that do not overlap an options object holds the nonce it came with, else the first non-zero one looked up for it |
| AuditLog.LookupExactly | js-packages/playgrounds/unique.ts:626-630 | after any run of calls that do not overlap a call on an options object looks a nonce up exactly when it can be built, the object came without one, and no earlier call on it was answered with a non-zero one |
| Overlap.NextOnCourse | js-packages/playgrounds/unique.ts:621-862 | one step of a call keeps it on the course of the single-call specification: what it has logged, and what it has told its caller |
| Overlap.EachCallAsIfAlone | js-packages/playgrounds/unique.ts:731-862 | under every interleaving each call writes the entries it would write alone, its lookup before its own entry, and gives the reply it would give alone, from the nonce its options held when it started |
| Overlap.LogInOrderOfCompletion | js-packages/playgrounds/unique.ts:752-796 | under every interleaving the statuses of the extrinsic entries are those the callers were told, in order of completion; every entry is some call's, and every call that is over was told once |
| Overlap.LookupDecidedAtStart | js-packages/playgrounds/unique.ts:626-630 | under every interleaving a call has its lookup in flight or logged exactly when it can be built and its options held no nonce at the moment it started |
| Overlap.FourTurnsSuffice | js-packages/playgrounds/unique.ts:621-796 | under every interleaving a call that got four turns is over, unless it was sent and no notification decides it |
| Overlap.StepNonce | js-packages/playgrounds/unique.ts:627-630 | a step changes an options object exactly by writing back the answer of a lookup |
| Overlap.NonceKept | js-packages/playgrounds/unique.ts:626-630 | in a run with at most one lookup in flight for an object at a time, its non-zero nonce never changes |
| Overlap.NonceIsAnAnswer | js-packages/playgrounds/unique.ts:626-630 | under every interleaving a nonce that was not there at first is the answer to a call on that object that has written it |
| Overlap.TwoInFlightCanClash | js-packages/playgrounds/unique.ts:626-630 | whenever two lookups are in flight for one object, the run can go on so that one answer is written and then overwritten by the other |
| Overlap.NonceStaysExactly | js-packages/playgrounds/unique.ts:626-630 | a non-zero nonce stays under every interleaving exactly when there is no connection, the object came with one, or the calls sharing the object with one that gets a non-zero answer all get that answer |
| Overlap.WithoutOverlap | js-packages/playgrounds/unique.ts:621-862 | a call whose turns nothing interrupts does what the helper's methods are specified to do |
| Overlap.InTurnIsSequential | js-packages/playgrounds/unique.ts:731-862 | the interleaving in which every call is awaited before the next is the sequential run: same log, same options, same replies |
| Overlap.OverlapChangesTheNonce | js-packages/playgrounds/unique.ts:626-630 | two calls sharing an options object, lookups answered 5 and 9: one after the other they leave 5 after one lookup, overlapped 9 after two |
| Ss58.PackedBytes | js-packages/playgrounds/unique.ts:2773-2778 | the masks and shifts of the two-byte prefix, as arithmetic, within byte range |
| Ss58.PrefixDecodes | js-packages/playgrounds/unique.ts:2773-2778 | one- and two-byte prefixes never overlap and each gives the format back |
| Ss58.PayloadDecodes | js-packages/playgrounds/unique.ts:2757-2786 | for any hash a payload exists exactly for permitted formats and key lengths, decodes to format and key, and ends with the hash of what precedes |
| Ss58.PayloadLayout | js-packages/playgrounds/unique.ts:2757-2786 | both errors exactly when, and the bytes of a payload: packed format, key, and one checksum byte or two |
| Ss58.PayloadInjective | js-packages/playgrounds/unique.ts:2764-2785 | equal payloads have equal format and key, even under different hashes |
| TokenAddress.ToChecksumAddress | js-packages/playgrounds/unique.ts:124-142 | the loop computes the checksummed address; an absent address gives the empty string |
| TokenAddress.ChecksumKeepsAddress | js-packages/playgrounds/unique.ts:124-142 | exactly the well-formed addresses are accepted, and the digits are kept up to case |
| TokenAddress.AcceptedExactly | js-packages/playgrounds/unique.ts:127-131 | the accepted texts are forty hexadecimal digits of either case after "0x", "0X" or nothing; the result starts with "0x" |
| TokenAddress.ChecksumCanonical | js-packages/playgrounds/unique.ts:124-142 | two addresses have the same checksummed form exactly when they agree up to case and prefix; checksumming is idempotent |
| TokenAddress.CapitalsFollowHash | js-packages/playgrounds/unique.ts:130-140 | a letter is capital exactly when its digit in the hash is 8 or more |
| TokenAddress.TokenAddressRoundTrip | js-packages/playgrounds/unique.ts:143-145 | an address exists exactly for 32-bit ids; it starts with the fixed 24 digits, and its last sixteen give both ids back |
| Decimals.DecimalsRoundTrip | js-packages/playgrounds/unique.ts:303-314 | a whole part without superfluous zeros, a dot, exactly `decimals` fractional digits, and reading them back gives the number |
| Decimals.DecimalsAreQuotientAndRemainder | js-packages/playgrounds/unique.ts:303-314 | the parts are quotient and remainder by 10^decimals |
| Decimals.NegativeAmountsExact | js-packages/playgrounds/unique.ts:303-314 | a negative amount is printed as a minus sign and its absolute value exactly from one whole token on |
| Digits.ReadShow | js-packages/playgrounds/unique.ts:144 | a number printed in a base reads back |
| Digits.ShowFirst | js-packages/playgrounds/unique.ts:144 | a printed number has no leading zeros |
| Digits.ShowLength | js-packages/playgrounds/unique.ts:144 | a number needs at most k digits exactly below base^k |
| Funding.ScanBatch | js-packages/test-utils/globalSetup.ts:76-95 | a batch grants exactly the accounts below 4000000 tokens it passes, with consecutive nonces, and goes on until it has made 300 grants or the accounts end |
| Funding.AwaitBatch | js-packages/test-utils/globalSetup.ts:97-101 | the batch succeeds exactly when every transfer does, and then credits exactly the chosen accounts |
| Funding.BatchContinues | js-packages/test-utils/globalSetup.ts:75-95 | a batch that starts in a range already funded grants nothing there and continues behind it |
| Funding.FundFilenames | js-packages/test-utils/globalSetup.ts:72-102 | exactly the accounts below 4000000 tokens are granted 4000000 tokens, each once and in order; nonces without gap or repeat; one batch per 300 accounts begun, full ones first; unless a transfer fails, every account ends at 4000000 tokens or above |

## Left out

- Network, RPC transport, keyring, signing, file system, console output and real time: I/O.
- `Fract.toNumber`: floating point. `Fract.toString`: printing of the normal form that is modelled.
- Library code: keccak, blake2, base58, address decoding, `toHuman`, `toJSON`. Hashes are parameters; an account stands for its address in any format; registrar ids are numbers, as the code's type annotations say.
- `Fract.sqrt` as a terminating function: the recursion is modelled with a bound on the number of calls, and every statement is for all bounds.
- Existential deposits in the fan-out: a transfer needs its amount and fee, not a remainder on the sender's account.
- Two indices of the fan-out or of the funding list that are one account: the ledgers take the accounts to be distinct.
- Transfers of a funding batch that take effect before the batch is awaited: each account is read once per batch, so it makes no difference to distinct accounts.
- The retries of `globalSetup` around the funding, and the other set-up steps.
- Sub-identity updates and removals in the identity script: they compare library values.
- Exceptions of libraries that carry a `status` property of their own, and notifications that arrive before the subscription has returned.
- Timestamps, signer and parameters in log entries.
- A helper that is connected or disconnected while calls are under way.
- Exact conditions for inlining an underflowing nested program that divides at its own level: whether it faults on every stack then depends on the values, and only the general condition is given.
- Keys given as text or bigint to `encodeSubstrateAddress`: their conversion to bytes is library code.
- Non-integer and negative `decimals`, and non-integer token ids.
- Generated types, pallets other than the insertion of identities, governance and collection wrappers: thin layers over calls.
