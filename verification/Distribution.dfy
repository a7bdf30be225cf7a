/** The doubling fan-out `distributeBalance` of js-packages/scripts/transfer.nload.ts: in stage s
    every one of the first 2^s accounts passes part of its balance to a fresh account. */
module Distribution {
  import opened Common
  import opened Counters
  import opened Removal

  const FEE: nat := 100_000_000

  datatype Transfer = Transfer(from: nat, to: nat, amount: int)

  /** Accounts holding a share when stage `stage` begins. */
  function Users(stage: nat): (n: nat)
    ensures 0 < n
  {
    PowPositive(2, stage);
    Pow(2, stage)
  }

  function Share(total: int, stage: nat): int {
    TruncDiv(total, Users(stage))
  }

  function Amount(total: int, stage: nat): int {
    Share(total, stage) - FEE * stage
  }

  // ----- which transfer reaches which index -----

  /** The stage in which index `j` is sent to: the position of its highest bit. */
  function StageOf(j: nat): nat
    requires 0 < j
  {
    if j == 1 then 0 else 1 + StageOf(j / 2)
  }

  lemma {:induction false} StageBounds(j: nat)
    requires 0 < j
    ensures Users(StageOf(j)) <= j < Users(StageOf(j) + 1)
  {
    if j != 1 {
      StageBounds(j / 2);
    }
  }

  lemma {:induction false} StageUnique(j: nat, s: nat)
    requires Users(s) <= j < Users(s + 1)
    ensures StageOf(j) == s
  {
    if s != 0 {
      StageUnique(j / 2, s - 1);
    }
  }

  /** The sender for index `j`: `j` without its highest bit. */
  function Parent(j: nat): (p: nat)
    requires 0 < j
    ensures p < j
  {
    StageBounds(j);
    j - Users(StageOf(j))
  }

  /** A sender has a smaller index and is the source or was itself sent to in an earlier stage. */
  lemma ParentIsEarlier(j: nat)
    requires 0 < j
    ensures Parent(j) < j
    ensures Parent(j) == 0 || StageOf(Parent(j)) < StageOf(j)
  {
    StageBounds(j);
    if Parent(j) != 0 {
      StageBounds(Parent(j));
      if StageOf(j) <= StageOf(Parent(j)) {
        UsersMonotone(StageOf(j), StageOf(Parent(j)));
      }
    }
  }

  lemma {:induction false} UsersMonotone(s: nat, t: nat)
    requires s <= t
    ensures Users(s) <= Users(t)
  {
    if s != t {
      UsersMonotone(s, t - 1);
    }
  }

  /** The transfer that index `j` receives. */
  function Incoming(total: int, j: nat): Transfer
    requires 0 < j
  {
    Transfer(Parent(j), j, Amount(total, StageOf(j)))
  }

  // ----- solvency -----

  /** What an account still has to pay from stage `stage` on: every amount, with a fee. */
  ghost function Need(total: int, stages: nat, stage: nat): int
    decreases stages - stage
  {
    if stages <= stage then 0 else Amount(total, stage) + FEE + Need(total, stages, stage + 1)
  }

  ghost predicate AmountsNonNegative(total: int, stages: nat) {
    forall t: nat :: t < stages ==> 0 <= Amount(total, t)
  }

  lemma HalfOf(total: nat, s: nat)
    ensures 2 * Share(total, s + 1) <= Share(total, s)
  {
    hide Share, Users;
    UsersDouble(s);
    ShareBounds(total, s);
    ShareBounds(total, s + 1);
    HalfQuotient(total, Users(s), Users(s + 1), Share(total, s), Share(total, s + 1));
  }

  /** The amounts of one stage and the fees withheld from them make up the total, up to less than
      one unit per account. */
  lemma ShareBounds(total: nat, s: nat)
    ensures Users(s) * Share(total, s) <= total < Users(s) * (Share(total, s) + 1)
  {
  }

  /** What an account is sent in stage `s`: with the fees of the stages before, the total divided by
      the number of accounts that send, cut off toward zero. */
  lemma AmountBounds(total: int, s: nat)
    ensures IsPart(Amount(total, s) + 100_000_000 * s, total, Pow(2, s))
  {
    hide Share, Pow;
    assert Amount(total, s) + 100_000_000 * s == Share(total, s);
    if 0 <= total {
      ShareBounds(total, s);
    }
    if total <= 0 {
      ShareBounds(-total, s);
      ShareOfDebt(total, s);
      Negated(Users(s), Share(total, s));
    }
  }

  lemma ShareOfDebt(total: int, s: nat)
    ensures Share(-total, s) == -Share(total, s)
  {
    hide Users, TruncDiv;
    TruncDivNegated(total, Users(s));
  }

  lemma TruncDivNegated(x: int, d: nat)
    requires 0 < d
    ensures TruncDiv(-x, d) == -TruncDiv(x, d)
  {
    assert Abs(-x) == Abs(x) && Abs(d) == d;
    if x == 0 {
      DivUnique(0, d, 0, 0);
    }
  }

  lemma Negated(d: int, x: int)
    ensures d * -x == -(d * x) && d * (-x + 1) == -(d * (x - 1))
  {
  }

  /** What the transfers are, in numbers: in stage `s` account `i` sends to account 2^s + i, and
      what it sends, with 10^8 for each stage before, is the 2^s-th part of the total. */
  ghost predicate Doubling(transfers: seq<Transfer>, total: int) {
    forall k, s: nat :: 0 <= k < |transfers| && Pow(2, s) <= k + 1 < Pow(2, s + 1) ==>
      && transfers[k].from == k + 1 - Pow(2, s) && transfers[k].to == k + 1
      && IsPart(transfers[k].amount + 100_000_000 * s, total, Pow(2, s))
  }

  /** `q` is `n` divided by `d`, cut off toward zero. */
  ghost predicate IsPart(q: int, n: int, d: nat) {
    && (0 <= n ==> d * q <= n < d * (q + 1))
    && (n <= 0 ==> d * (q - 1) < n <= d * q)
  }

  ghost predicate InStage(transfers: seq<Transfer>, total: int, stage: nat) {
    forall k :: 0 <= k < |transfers| ==>
      && transfers[k].from == k && transfers[k].to == Pow(2, stage) + k
      && IsPart(transfers[k].amount + 100_000_000 * stage, total, Pow(2, stage))
  }

  lemma IncomingInNumbers(transfers: seq<Transfer>, total: int, stage: nat)
    requires |transfers| == Users(stage)
    requires forall k :: 0 <= k < |transfers| ==> transfers[k] == Incoming(total, Users(stage) + k)
    ensures InStage(transfers, total, stage)
  {
    hide Amount, Pow, IsPart, Incoming;
    AmountBounds(total, stage);
    forall k | 0 <= k < |transfers|
      ensures transfers[k] == Transfer(k, Users(stage) + k, Amount(total, stage))
    {
      IncomingInStage(total, stage, k);
    }
  }

  lemma IncomingDoubles(total: int, transfers: seq<Transfer>)
    requires forall k :: 0 <= k < |transfers| ==> transfers[k] == Incoming(total, k + 1)
    ensures Doubling(transfers, total)
  {
    hide Amount, Pow, IsPart;
    forall k, s: nat | 0 <= k < |transfers| && Pow(2, s) <= k + 1 < Pow(2, s + 1)
      ensures transfers[k].from == k + 1 - Pow(2, s) && transfers[k].to == k + 1
      ensures IsPart(transfers[k].amount + 100_000_000 * s, total, Pow(2, s))
    {
      StageUnique(k + 1, s);
      AmountBounds(total, s);
    }
  }

  lemma HalfQuotient(n: nat, d: nat, e: nat, p: int, q: int)
    requires e == 2 * d && e * q <= n < d * (p + 1)
    ensures 2 * q <= p
  {
    assert d * (2 * q) == e * q;
    if p + 1 <= 2 * q {
      MulMonotone(d, p + 1, 2 * q);
    }
  }

  /** One incoming amount covers all later payments of the account that receives it. */
  lemma {:induction false} AmountCoversNeed(total: int, stages: nat, s: nat)
    requires s < stages && AmountsNonNegative(total, stages)
    ensures Need(total, stages, s + 1) <= Amount(total, s)
    decreases stages - s
  {
    if s + 1 < stages {
      AmountCoversNeed(total, stages, s + 1);
      assert Users(0) == 1;
      assert 0 <= Amount(total, 0) && 0 <= total;
      HalfOf(total, s);
    }
  }

  /** Twice the total and one fee are enough for the source, whatever the number of stages. */
  lemma SourceNeed(total: int, stages: nat)
    requires AmountsNonNegative(total, stages) && 0 <= total
    ensures Need(total, stages, 0) <= 2 * total + FEE
  {
    if stages != 0 {
      AmountCoversNeed(total, stages, 0);
      assert Users(0) == 1;
    }
  }

  lemma {:induction false} AmountsFall(total: nat, s: nat, t: nat)
    requires s <= t
    ensures Amount(total, t) <= Amount(total, s)
    decreases t
  {
    if s != t {
      AmountsFall(total, s, t - 1);
      HalfOf(total, t - 1);
      ShareBounds(total, t - 1);
      ShareNonNegative(total, t);
    }
  }

  lemma ShareNonNegative(total: nat, s: nat)
    ensures 0 <= Share(total, s)
  {
    hide Share, Users;
    ShareBounds(total, s);
    if Share(total, s) + 1 <= 0 {
      MulMonotone(Users(s), Share(total, s) + 1, 0);
    }
  }

  /** The script's own figures, 400 * 10^22 over ten stages from 400 * 10^23, are within these bounds. */
  lemma ScriptFiguresSuffice()
    ensures AmountsNonNegative(4_000_000_000_000_000_000_000_000, 10)
    ensures 2 * 4_000_000_000_000_000_000_000_000 + FEE <= 40_000_000_000_000_000_000_000_000
  {
    var total := 4_000_000_000_000_000_000_000_000;
    assert Users(3) == 8;
    assert Users(6) == 64;
    assert Users(9) == 512;
    assert 0 <= Amount(total, 9);
    forall t: nat | t < 10 ensures 0 <= Amount(total, t) {
      AmountsFall(total, t, 9);
    }
  }

  // ----- the chain's side of a transfer -----

  datatype Receipt = Receipt(ok: bool, balances: seq<int>)

  /** A transfer goes through unless the chain refuses it, the amount is negative, or the sender
      cannot pay amount and fee. A failed transfer still costs its fee where that can be paid. */
  function Pay(balances: seq<int>, t: Transfer, fee: nat, refused: bool): Receipt
    requires t.from < |balances| && t.to < |balances| && t.from != t.to
  {
    var held := balances[t.from];
    if !refused && 0 <= t.amount && t.amount + fee <= held then
      Receipt(true, balances[t.from := held - t.amount - fee][t.to := balances[t.to] + t.amount])
    else if fee <= held then Receipt(false, balances[t.from := held - fee])
    else Receipt(false, balances)
  }

  /** No transfer on the way from the source to index `j` is refused. */
  predicate Clear(j: nat, refused: set<nat>) {
    j == 0 || (j !in refused && Clear(Parent(j), refused))
  }

  ghost predicate FeesAtMost(fees: nat -> nat) {
    forall j :: fees(j) <= FEE
  }

  ghost predicate FeesPositive(fees: nat -> nat) {
    forall j :: 0 < fees(j)
  }

  /** A starting point where the source can pay all it has to, and with no debts elsewhere. */
  ghost predicate Solvent(balances: seq<int>, total: int, stages: nat, fees: nat -> nat) {
    && |balances| == Users(stages)
    && AmountsNonNegative(total, stages)
    && FeesAtMost(fees)
    && Need(total, stages, 0) <= balances[0]
    && forall j :: 0 < j < |balances| ==> 0 <= balances[j]
  }

  /** Every transfer costs exactly the fee the amounts allow for. */
  ghost predicate FeesExact(fees: nat -> nat) {
    forall j :: fees(j) == FEE
  }

  /** After `stage` stages without a failure: every amount so far was payable, and the source has
      paid its part of what it has to. */
  ghost predicate SourcePaid(held: int, initial: int, total: int, stages: nat, stage: nat, fees: nat -> nat) {
    && AmountsNonNegative(total, stage)
    && (0 < stage ==> 0 <= held)
    && (FeesExact(fees) ==> held + Need(total, stages, 0) == initial + Need(total, stages, stage))
  }

  /** The accounts to be reached hold nothing yet. */
  ghost predicate Unused(balances: seq<int>) {
    forall j :: 0 < j < |balances| ==> balances[j] == 0
  }

  /** In stage `s` after `i` transfers, every account reached by a clear path can pay all it still
      has to, and nobody is in debt. */
  ghost predicate Covered(balances: seq<int>, total: int, stages: nat, s: nat, i: nat, refused: set<nat>) {
    && |balances| == Users(stages)
    && i <= Users(s)
    && forall j: nat :: j < |balances| ==>
         && 0 <= balances[j]
         && (Clear(j, refused) && (j < i || Users(s) <= j < Users(s) + i) ==> Need(total, stages, s + 1) <= balances[j])
         && (Clear(j, refused) && i <= j < Users(s) ==> Need(total, stages, s) <= balances[j])
  }

  /** In stage `s` after `i` transfers, an account not yet reached, or cut off, holds nothing. */
  ghost predicate Idle(balances: seq<int>, stages: nat, s: nat, i: nat, refused: set<nat>) {
    && |balances| == Users(stages)
    && i <= Users(s)
    && forall j: nat :: j < |balances| && (!Clear(j, refused) || Users(s) + i <= j) ==> balances[j] == 0
  }

  lemma IncomingInStage(total: int, s: nat, i: nat)
    requires i < Users(s)
    ensures Incoming(total, Users(s) + i) == Transfer(i, Users(s) + i, Amount(total, s))
  {
    assert Users(s + 1) == 2 * Users(s);
    StageUnique(Users(s) + i, s);
  }

  lemma CoveredStart(balances: seq<int>, total: int, stages: nat, fees: nat -> nat, refused: set<nat>)
    requires Solvent(balances, total, stages, fees)
    ensures Covered(balances, total, stages, 0, 0, refused)
  {
    NeedNonNegative(total, stages, 0);
    assert Users(0) == 1;
  }

  lemma NextStage(balances: seq<int>, total: int, stages: nat, s: nat, refused: set<nat>)
    ensures Covered(balances, total, stages, s, Users(s), refused) ==>
              Covered(balances, total, stages, s + 1, 0, refused)
    ensures Idle(balances, stages, s, Users(s), refused) ==> Idle(balances, stages, s + 1, 0, refused)
  {
    UsersDouble(s);
  }

  /** A transfer to an account with a clear path goes through, whatever fee up to FEE it costs, and
      every account reached can still pay all it has to. */
  lemma CoveredStep(balances: seq<int>, total: int, stages: nat, s: nat, i: nat, fee: nat, refused: set<nat>)
    requires Covered(balances, total, stages, s, i, refused) && i < Users(s) && s < stages
    requires AmountsNonNegative(total, stages) && fee <= FEE
    requires Users(s) + i < Users(stages)
    ensures var to := Users(s) + i;
            var r := Pay(balances, Transfer(i, to, Amount(total, s)), fee, to in refused);
            && (Clear(to, refused) ==> r.ok)
            && Covered(r.balances, total, stages, s, i + 1, refused)
  {
    hide Amount, Clear;
    ClearStep(s, i, refused);
    AmountCoversNeed(total, stages, s);
    NeedNonNegative(total, stages, s + 1);
    assert Need(total, stages, s) == Amount(total, s) + FEE + Need(total, stages, s + 1);
  }

  /** A transfer that costs anything at all fails when its target is cut off by a refusal. */
  lemma IdleStep(balances: seq<int>, total: int, stages: nat, s: nat, i: nat, fee: nat, refused: set<nat>)
    requires Idle(balances, stages, s, i, refused) && i < Users(s)
    requires 0 < fee && Users(s) + i < Users(stages)
    ensures var to := Users(s) + i;
            var r := Pay(balances, Transfer(i, to, Amount(total, s)), fee, to in refused);
            && (!Clear(to, refused) ==> !r.ok)
            && Idle(r.balances, stages, s, i + 1, refused)
  {
    hide Amount, Clear;
    ClearStep(s, i, refused);
  }

  lemma ClearStep(s: nat, i: nat, refused: set<nat>)
    requires i < Users(s)
    ensures Clear(Users(s) + i, refused) <==> Users(s) + i !in refused && Clear(i, refused)
  {
    IncomingInStage(0, s, i);
  }

  lemma {:induction false} NeedNonNegative(total: int, stages: nat, s: nat)
    requires AmountsNonNegative(total, stages)
    ensures 0 <= Need(total, stages, s)
    decreases stages - s
  {
    if s < stages {
      NeedNonNegative(total, stages, s + 1);
    }
  }

  // ----- recording failures -----

  ghost predicate Reordering(r: seq<nat>, f: seq<nat>) {
    |r| == |f| && Distinct(r) && forall x :: x in r <==> x in f
  }

  /** Any order in which the failure callbacks of one stage may run. */
  ghost predicate Scheduler(settle: (nat, seq<nat>) -> seq<nat>) {
    forall s: nat, f: seq<nat> :: Distinct(f) ==> Reordering(settle(s, f), f)
  }

  /** The record of failures: the source, then each stage's rejections in the order settled. */
  function Record(settle: (nat, seq<nat>) -> seq<nat>, rejections: seq<seq<nat>>): seq<nat> {
    if rejections == [] then [0]
    else
      var last := |rejections| - 1;
      Record(settle, rejections[..last]) + settle(last, rejections[last])
  }

  /** Every stage's failures were recorded in the order the transfers were sent. */
  ghost predicate InOrder(settle: (nat, seq<nat>) -> seq<nat>, rejections: seq<seq<nat>>) {
    forall s :: 0 <= s < |rejections| ==> settle(s, rejections[s]) == rejections[s]
  }

  ghost predicate Within(s: seq<nat>, lo: nat, hi: nat) {
    forall k :: 0 <= k < |s| ==> lo <= s[k] < hi
  }

  lemma RecordStage(failed: seq<nat>, f: seq<nat>, r: seq<nat>, lo: nat, hi: nat)
    requires Distinct(failed) && Below(failed, lo) && lo <= hi
    requires Increasing(f) && Within(f, lo, hi) && Reordering(r, f)
    ensures Distinct(failed + r) && Below(failed + r, hi)
    ensures Increasing(failed) && r == f ==> Increasing(failed + r)
    ensures forall x :: x in failed + r <==> x in failed || x in f
    ensures |r| == |f| && forall x: nat :: (x in failed ==> x < lo) && (x in f ==> lo <= x < hi)
  {
    forall k | 0 <= k < |r| ensures lo <= r[k] < hi {
      assert r[k] in r && r[k] in f;
    }
  }

  // ----- the whole run -----

  /** From `c` to `c'` the three counters of the run grew by these numbers. */
  ghost predicate Counted(c: Counts, c': Counts, requests: int, tx: int, txFailed: int) {
    && Get(c', "requests") == Get(c, "requests") + requests
    && Get(c', "tx") == Get(c, "tx") + tx
    && Get(c', "txFailed") == Get(c, "txFailed") + txFailed
  }

  /** Among the indices from `lo` to `hi`, none with a clear path is rejected. */
  ghost predicate PaysClear(rejected: seq<nat>, refused: set<nat>, lo: nat, hi: nat) {
    forall j: nat :: lo <= j < hi && Clear(j, refused) ==> j !in rejected
  }

  /** Among the indices from `lo` to `hi`, all that are cut off by a refusal are rejected. */
  ghost predicate RejectsCutOff(rejected: seq<nat>, refused: set<nat>, lo: nat, hi: nat) {
    forall j: nat :: lo <= j < hi && !Clear(j, refused) ==> j in rejected
  }

  /** The source paid this amount and fee, and could. */
  predicate StagePaid(before: int, after: int, amount: int, fee: int) {
    0 <= amount && after == before - amount - fee && 0 <= after
  }

  /** The transfers of one stage, with the indices that failed in the order they were tried. */
  method RunStage(initial: seq<int>, total: int, stages: nat, stage: nat,
                  fees: nat -> nat, refused: set<nat>, counters: CounterTable)
    returns (transfers: seq<Transfer>, rejected: seq<nat>, balances: seq<int>)
    requires stage < stages && |initial| == Users(stages)
    modifies counters
    ensures |balances| == Users(stages)
    ensures |transfers| == Users(stage)
    ensures forall k :: 0 <= k < |transfers| ==> transfers[k] == Incoming(total, Users(stage) + k)
    ensures InStage(transfers, total, stage)
    ensures Increasing(rejected) && Within(rejected, Users(stage), Users(stage + 1))
    ensures (AmountsNonNegative(total, stages) && FeesAtMost(fees)
             && Covered(initial, total, stages, stage, 0, refused)) ==>
              && Covered(balances, total, stages, stage + 1, 0, refused)
              && PaysClear(rejected, refused, Users(stage), Users(stage + 1))
    ensures FeesPositive(fees) && Idle(initial, stages, stage, 0, refused) ==>
              && Idle(balances, stages, stage + 1, 0, refused)
              && RejectsCutOff(rejected, refused, Users(stage), Users(stage + 1))
    ensures rejected == [] ==> StagePaid(initial[0], balances[0], Amount(total, stage), fees(Users(stage)))
    ensures Counted(old(counters.counts), counters.counts, 0, Users(stage), |rejected|)
  {
    hide Pay, Covered, Idle, Clear, Incoming, Amount, AmountsNonNegative, Users;
    hide Increasing, Within, PaysClear, RejectsCutOff, InStage;
    NoneYet(refused, Users(stage));
    var users := Users(stage);
    var amount := Amount(total, stage);
    transfers, rejected, balances := [], [], initial;
    ghost var sound :=
      AmountsNonNegative(total, stages) && FeesAtMost(fees) && Covered(initial, total, stages, stage, 0, refused);
    ghost var idle := FeesPositive(fees) && Idle(initial, stages, stage, 0, refused);
    UsersDouble(stage);
    UsersMonotone(stage + 1, stages);
    for i := 0 to users
      invariant |balances| == Users(stages)
      invariant |transfers| == i
      invariant forall k :: 0 <= k < i ==> transfers[k] == Incoming(total, users + k)
      invariant Increasing(rejected) && Within(rejected, users, users + i)
      invariant sound ==> Covered(balances, total, stages, stage, i, refused)
      invariant sound ==> PaysClear(rejected, refused, users, users + i)
      invariant idle ==> Idle(balances, stages, stage, i, refused)
      invariant idle ==> RejectsCutOff(rejected, refused, users, users + i)
      invariant i == 0 ==> balances == initial
      invariant 0 < i && rejected == [] ==> StagePaid(initial[0], balances[0], amount, fees(users))
      invariant Counted(old(counters.counts), counters.counts, 0, i, |rejected|)
    {
      var to := i + users;
      var transfer := Transfer(i, to, amount);
      IncomingInStage(total, stage, i);
      if sound {
        CoveredStep(balances, total, stages, stage, i, fees(to), refused);
      }
      if idle {
        IdleStep(balances, total, stages, stage, i, fees(to), refused);
      }
      PayKeepsLength(balances, transfer, fees(to), to in refused);
      PaySource(balances, transfer, fees(to), to in refused);
      var receipt := Pay(balances, transfer, fees(to), to in refused);
      balances := receipt.balances;
      transfers := transfers + [transfer];
      OneMore(rejected, refused, users, to);
      if !receipt.ok {
        rejected := rejected + [to];
        counters.Increase("txFailed", 1);
      }
      counters.Increase("tx", 1);
    }
    NextStage(balances, total, stages, stage, refused);
    IncomingInNumbers(transfers, total, stage);
  }

  lemma NoneYet(refused: set<nat>, lo: nat)
    ensures Increasing([]) && Within([], lo, lo) && PaysClear([], refused, lo, lo) && RejectsCutOff([], refused, lo, lo)
  {
  }

  /** Going on to the next target, rejected or not. */
  lemma OneMore(rejected: seq<nat>, refused: set<nat>, lo: nat, to: nat)
    requires lo <= to && Increasing(rejected) && Within(rejected, lo, to)
    ensures Within(rejected, lo, to + 1)
    ensures Increasing(rejected + [to]) && Within(rejected + [to], lo, to + 1)
    ensures PaysClear(rejected, refused, lo, to) ==> PaysClear(rejected, refused, lo, to + 1)
    ensures PaysClear(rejected, refused, lo, to) && !Clear(to, refused) ==>
              PaysClear(rejected + [to], refused, lo, to + 1)
    ensures RejectsCutOff(rejected, refused, lo, to) ==> RejectsCutOff(rejected + [to], refused, lo, to + 1)
    ensures RejectsCutOff(rejected, refused, lo, to) && Clear(to, refused) ==>
              RejectsCutOff(rejected, refused, lo, to + 1)
  {
    hide Clear;
  }

  lemma UsersDouble(stage: nat)
    ensures Users(stage + 1) == 2 * Users(stage)
  {
  }

  lemma PayKeepsLength(balances: seq<int>, t: Transfer, fee: nat, refused: bool)
    requires t.from < |balances| && t.to < |balances| && t.from != t.to
    ensures |Pay(balances, t, fee, refused).balances| == |balances|
  {
  }

  lemma PaySource(balances: seq<int>, t: Transfer, fee: nat, refused: bool)
    requires t.from < |balances| && 0 < t.to < |balances| && t.from != t.to
    ensures var r := Pay(balances, t, fee, refused);
            |r.balances| == |balances| &&
            if t.from != 0 then r.balances[0] == balances[0]
            else r.ok ==> StagePaid(balances[0], r.balances[0], t.amount, fee)
  {
  }

  /** Stage by stage: the failures of one stage, in index order, all among its targets. */
  ghost predicate StageFailures(rejections: seq<seq<nat>>) {
    forall s :: 0 <= s < |rejections| ==> Increasing(rejections[s]) && Within(rejections[s], Users(s), Users(s + 1))
  }

  /** `distributeBalance`. `balances` is the chain's ledger by account index; `fees`, `refused` and
      `settle` are what the chain and the event loop decide.

      Every index is sent to exactly once, by its parent. Of distinct accounts exactly the failed ones
      are removed if and only if the record is increasing, which it is when every stage's failures
      were recorded in order. From a solvent start no transfer fails for lack of funds: an account
      with a clear path is paid, and an account cut off by a refusal fails. With exact fees, empty
      targets and no refusals a run is free of failures if and only if no amount is negative and the
      source holds what it needs. */
  method DistributeBalance<A>(source: A, unused: seq<A>, initial: seq<int>, total: int, stages: nat,
                              fees: nat -> nat, refused: set<nat>, settle: (nat, seq<nat>) -> seq<nat>,
                              counters: CounterTable)
    returns (accounts: seq<A>, transfers: seq<Transfer>, failed: seq<nat>, rejections: seq<seq<nat>>)
    requires |unused| == Users(stages) - 1 && |initial| == Users(stages)
    requires Scheduler(settle)
    modifies counters
    ensures |transfers| == Users(stages) - 1
    ensures forall k :: 0 <= k < |transfers| ==> transfers[k] == Incoming(total, k + 1)
    ensures Doubling(transfers, total)
    ensures |rejections| == stages && StageFailures(rejections) && failed == Record(settle, rejections)
    ensures Distinct(failed) && Below(failed, Users(stages))
    ensures InOrder(settle, rejections) ==> Increasing(failed)
    ensures accounts == SpliceAll([source] + unused, Reversed(failed))
    ensures Increasing(failed) ==> accounts == Survivors([source] + unused, failed)
    ensures Distinct([source] + unused) ==> (accounts == Survivors([source] + unused, failed) <==> Increasing(failed))
    ensures Solvent(initial, total, stages, fees) ==> PaysClear(failed, refused, 1, Users(stages))
    ensures Unused(initial) && FeesPositive(fees) ==> RejectsCutOff(failed, refused, 1, Users(stages))
    ensures FeesExact(fees) && Unused(initial) && 0 <= initial[0] && refused == {} ==>
              (failed == [0] <==> AmountsNonNegative(total, stages) && Need(total, stages, 0) <= initial[0])
    ensures Get(counters.counts, "requests") == Get(old(counters.counts), "requests") + Users(stages) - 1
    ensures Get(counters.counts, "tx") == Get(old(counters.counts), "tx") + Users(stages) - 1
    ensures Get(counters.counts, "txFailed") == Get(old(counters.counts), "txFailed") + |failed| - 1
  {
    hide Covered, Idle, Clear, Incoming, Users, SpliceAll, Survivors, Reversed, Reordering, Increasing, Distinct;
    hide Record, Within, SourcePaid, StagePaid, Amount, Need, AmountsNonNegative, FeesExact, Unused, Doubling;
    accounts := [source] + unused;
    failed := [0];
    transfers, rejections := [], [];
    var balances := initial;
    counters.Increase("requests", |unused|);
    ghost var solvent, idle := Solvent(initial, total, stages, fees), Unused(initial) && FeesPositive(fees);
    if solvent {
      CoveredStart(initial, total, stages, fees, refused);
    }
    IdleStart(initial, stages, refused);
    FirstRecord(settle);
    SourcePaidStart(initial[0], total, stages, fees);
    for stage := 0 to stages
      invariant |balances| == Users(stages)
      invariant |transfers| == Users(stage) - 1
      invariant forall k :: 0 <= k < |transfers| ==> transfers[k] == Incoming(total, k + 1)
      invariant |rejections| == stage && StageFailures(rejections) && failed == Record(settle, rejections)
      invariant Distinct(failed) && Below(failed, Users(stage))
      invariant InOrder(settle, rejections) ==> Increasing(failed)
      invariant solvent ==> Covered(balances, total, stages, stage, 0, refused)
      invariant solvent ==> PaysClear(failed, refused, 1, Users(stage))
      invariant idle ==> Idle(balances, stages, stage, 0, refused)
      invariant idle ==> RejectsCutOff(failed, refused, 1, Users(stage))
      invariant failed != [] && (|failed| == 1 ==> SourcePaid(balances[0], initial[0], total, stages, stage, fees))
      invariant Counted(old(counters.counts), counters.counts, Users(stages) - 1, |transfers|, |failed| - 1)
    {
      ghost var before := balances[0];
      var sent, rejected;
      sent, rejected, balances := RunStage(balances, total, stages, stage, fees, refused, counters);
      UsersDouble(stage);
      if |failed| == 1 && rejected == [] {
        SourcePaidStep(before, balances[0], initial[0], total, stages, stage, fees);
      }
      transfers := transfers + sent;
      IncreasingIsDistinct(rejected);
      var recorded := settle(stage, rejected);
      assert Reordering(recorded, rejected);
      RecordStage(failed, rejected, recorded, Users(stage), Users(stage + 1));
      RecordAppend(settle, rejections, rejected);
      failed := failed + recorded;
      rejections := rejections + [rejected];
    }
    IncomingDoubles(total, transfers);
    FreeOfFailures(failed, settle, rejections, balances[0], initial, total, stages, fees, refused);
    RemovalOfRecord([source] + unused, failed);
    accounts := RemoveFailed(accounts, failed);
  }

  lemma SourcePaidStart(initial: int, total: int, stages: nat, fees: nat -> nat)
    ensures SourcePaid(initial, initial, total, stages, 0, fees)
  {
  }

  lemma SourcePaidStep(before: int, after: int, initial: int, total: int, stages: nat, stage: nat, fees: nat -> nat)
    requires SourcePaid(before, initial, total, stages, stage, fees) && stage < stages
    requires StagePaid(before, after, Amount(total, stage), fees(Users(stage)))
    ensures SourcePaid(after, initial, total, stages, stage + 1, fees)
  {
    hide Amount, Users;
  }

  lemma {:induction false} RecordStarts(settle: (nat, seq<nat>) -> seq<nat>, rejections: seq<seq<nat>>)
    ensures var r := Record(settle, rejections); 0 < |r| && r[0] == 0
    decreases |rejections|
  {
    if rejections != [] {
      RecordStarts(settle, rejections[..|rejections| - 1]);
    }
  }

  lemma {:induction false} AllClear(j: nat)
    ensures Clear(j, {})
    decreases j
  {
    if j != 0 {
      AllClear(Parent(j));
    }
  }

  lemma FreeOfFailures(failed: seq<nat>, settle: (nat, seq<nat>) -> seq<nat>, rejections: seq<seq<nat>>, held: int,
                       initial: seq<int>, total: int, stages: nat, fees: nat -> nat, refused: set<nat>)
    requires |initial| == Users(stages) && failed == Record(settle, rejections)
    requires Distinct(failed) && Below(failed, Users(stages))
    requires |failed| == 1 ==> SourcePaid(held, initial[0], total, stages, stages, fees)
    requires Solvent(initial, total, stages, fees) ==> PaysClear(failed, refused, 1, Users(stages))
    ensures FeesExact(fees) && Unused(initial) && 0 <= initial[0] && refused == {} ==>
              (failed == [0] <==> AmountsNonNegative(total, stages) && Need(total, stages, 0) <= initial[0])
  {
    hide Clear, Users, Amount, Record;
    RecordStarts(settle, rejections);
    if Solvent(initial, total, stages, fees) && refused == {} && 1 < |failed| {
      AllClear(failed[1]);
    }
  }

  lemma IdleStart(balances: seq<int>, stages: nat, refused: set<nat>)
    requires |balances| == Users(stages)
    ensures Unused(balances) ==> Idle(balances, stages, 0, 0, refused)
  {
    assert Users(0) == 1;
  }

  lemma FirstRecord(settle: (nat, seq<nat>) -> seq<nat>)
    ensures Users(0) == 1 && Distinct([0 as nat]) && Increasing([0]) && Below([0], 1) && Record(settle, []) == [0]
  {
  }

  lemma RecordAppend(settle: (nat, seq<nat>) -> seq<nat>, rejections: seq<seq<nat>>, rejected: seq<nat>)
    ensures Record(settle, rejections + [rejected]) == Record(settle, rejections) + settle(|rejections|, rejected)
    ensures InOrder(settle, rejections + [rejected]) ==>
              InOrder(settle, rejections) && settle(|rejections|, rejected) == rejected
  {
    var more := rejections + [rejected];
    assert more[..|rejections|] == rejections && more[|rejections|] == rejected;
    if InOrder(settle, more) {
      forall s | 0 <= s < |rejections| ensures settle(s, rejections[s]) == rejections[s] {
        assert more[s] == rejections[s];
      }
    }
  }

  lemma RemovalOfRecord<A>(all: seq<A>, failed: seq<nat>)
    requires Distinct(failed) && Below(failed, |all|)
    ensures Increasing(failed) ==> SpliceAll(all, Reversed(failed)) == Survivors(all, failed)
    ensures Distinct(all) ==> (SpliceAll(all, Reversed(failed)) == Survivors(all, failed) <==> Increasing(failed))
  {
    if Increasing(failed) {
      RemovalInOrder(all, failed);
    }
    if Distinct(all) {
      RemovalExact(all, failed);
    }
  }

  // ----- a run that keeps a failed account -----

  lemma ReversedSchedules(settle: (nat, seq<nat>) -> seq<nat>)
    requires forall s: nat, f: seq<nat> :: settle(s, f) == Reversed(f)
    ensures Scheduler(settle)
  {
    forall s: nat, f: seq<nat> | Distinct(f) ensures Reordering(settle(s, f), f) {
      ReversedMembers(f);
    }
  }

  /** The failures of such a run, from what is known about it. */
  lemma BackwardsRecord(settle: (nat, seq<nat>) -> seq<nat>, rejections: seq<seq<nat>>, failed: seq<nat>)
    requires forall s: nat, f: seq<nat> :: settle(s, f) == Reversed(f)
    requires |rejections| == 2 && StageFailures(rejections) && failed == Record(settle, rejections)
    requires PaysClear(failed, {2, 3}, 1, 4) && RejectsCutOff(failed, {2, 3}, 1, 4)
    ensures failed == [0, 3, 2]
  {
    SecondStageRefused();
    var p, q := rejections[0], rejections[1];
    assert failed == [0] + Reversed(p) + Reversed(q) by {
      var none: seq<seq<nat>> := [];
      assert rejections[..1] == [p] && [p][..0] == none;
      assert Record(settle, [p]) == Record(settle, none) + Reversed(p);
    }
    ReversedMembers(p);
    ReversedMembers(q);
    assert 1 !in failed && 2 in failed && 3 in failed;
    if p != [] {
      OnlyOne(p);
    }
    OnlyTwoAndThree(q);
  }

  lemma OnlyOne(p: seq<nat>)
    requires Within(p, 1, 2) && p != []
    ensures 1 in p
  {
    assert p[0] == 1;
  }

  lemma OnlyTwoAndThree(q: seq<nat>)
    requires Increasing(q) && Within(q, 2, 4) && 2 in q && 3 in q
    ensures q == [2, 3]
  {
    IncreasingLength(q, 2, 4);
  }

  lemma {:induction false} IncreasingLength(q: seq<nat>, lo: nat, hi: nat)
    requires Increasing(q) && Within(q, lo, hi) && lo <= hi
    ensures |q| <= hi - lo
    decreases |q|
  {
    if q != [] {
      IncreasingLength(q[..|q| - 1], lo, q[|q| - 1]);
    }
  }

  lemma BackwardsRemoval<A>(source: A, a: A, b: A, c: A)
    ensures SpliceAll([source, a, b, c], Reversed([0, 3, 2])) == [a, c]
  {
    var all := [source, a, b, c];
    assert Reversed([0, 3, 2]) == [2, 3, 0];
    assert Splice(all, 2) == [source, a, c];
    assert Splice([source, a, c], 3) == [source, a, c];
    assert Splice([source, a, c], 0) == [a, c];
    assert [2, 3, 0][1..] == [3, 0] && [3, 0][1..] == [0] && [0][1..] == [];
    assert SpliceAll([source, a, c], [3, 0]) == SpliceAll([source, a, c], [0]) == SpliceAll([a, c], []);
  }

  /** Two stages in which both transfers of the second are refused and their failures are recorded
      last first: of the two failed accounts one is returned all the same. */
  method FailuresRecordedBackwards<A>(source: A, a: A, b: A, c: A, counters: CounterTable) returns (accounts: seq<A>)
    modifies counters
    ensures accounts == [a, c]
  {
    hide Users, Clear, Record, Reversed, SpliceAll, Survivors, StageFailures, PaysClear, RejectsCutOff, Scheduler;
    var total := 2 * FEE;
    var settle := (s: nat, f: seq<nat>) => Reversed(f);
    ReversedSchedules(settle);
    SecondStageRefused();
    var unused, initial := [a, b, c], [2 * total + FEE, 0, 0, 0];
    var transfers, failed, rejections;
    accounts, transfers, failed, rejections :=
      DistributeBalance(source, unused, initial, total, 2, _ => 1, {2, 3}, settle, counters);
    BackwardsRecord(settle, rejections, failed);
    BackwardsRemoval(source, a, b, c);
    assert [source] + unused == [source, a, b, c];
  }

  lemma SecondStageRefused()
    ensures Users(0) == 1 && Users(1) == 2 && Users(2) == 4
    ensures AmountsNonNegative(2 * FEE, 2)
    ensures Clear(1, {2, 3}) && !Clear(2, {2, 3}) && !Clear(3, {2, 3})
  {
    assert Users(1) == 2;
    assert Parent(1) == 0;
  }
}
