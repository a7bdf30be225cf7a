/** Funding the test accounts in batches (`fundFilenames` of js-packages/test-utils/globalSetup.ts).

    A batch starts every 300 accounts but goes on until it has made 300 grants, so one batch may
    run into the range of the next. Transfers of a batch take effect before the next one starts. */
module Funding {
  import opened Common

  type Account = string

  type Ledger = map<Account, nat>

  const BATCH_SIZE: nat := 300
  const MINIMUM_DONOR_FUND: nat := 4_000_000
  const DONOR_FUNDING: nat := 4_000_000

  datatype Fault = TransfersFailed

  /** One transfer to the account at `index`, signed with `nonce`. */
  datatype Grant = Grant(index: nat, nonce: nat)

  ghost predicate Covers(ledger: Ledger, accounts: seq<Account>) {
    forall i :: 0 <= i < |accounts| ==> accounts[i] in ledger
  }

  predicate Poor(balance: nat, oneToken: nat) {
    balance < MINIMUM_DONOR_FUND * oneToken
  }

  /** The indices in [lo, hi) whose account is below the minimum, in order. */
  ghost function Needy(accounts: seq<Account>, ledger: Ledger, oneToken: nat, lo: nat, hi: nat): seq<nat>
    requires Covers(ledger, accounts) && hi <= |accounts|
    decreases hi
  {
    if hi <= lo then []
    else Needy(accounts, ledger, oneToken, lo, hi - 1)
         + (if Poor(ledger[accounts[hi - 1]], oneToken) then [hi - 1] else [])
  }

  lemma {:induction false} NeedyMembers(accounts: seq<Account>, ledger: Ledger, oneToken: nat, lo: nat, hi: nat)
    requires Covers(ledger, accounts) && hi <= |accounts|
    ensures forall x: nat :: x in Needy(accounts, ledger, oneToken, lo, hi) <==>
              lo <= x < hi && Poor(ledger[accounts[x]], oneToken)
    decreases hi
  {
    if lo < hi {
      hide Poor;
      NeedyMembers(accounts, ledger, oneToken, lo, hi - 1);
      assert hi - 1 !in Needy(accounts, ledger, oneToken, lo, hi - 1);
    }
  }

  lemma {:induction false} NeedyIncreases(accounts: seq<Account>, ledger: Ledger, oneToken: nat, lo: nat, hi: nat)
    requires Covers(ledger, accounts) && hi <= |accounts|
    ensures Increasing(Needy(accounts, ledger, oneToken, lo, hi))
    decreases hi
  {
    if lo < hi {
      hide Poor;
      NeedyIncreases(accounts, ledger, oneToken, lo, hi - 1);
      NeedyMembers(accounts, ledger, oneToken, lo, hi - 1);
      var rest := Needy(accounts, ledger, oneToken, lo, hi - 1);
      forall k | 0 <= k < |rest| ensures rest[k] < hi - 1 {
        assert rest[k] in rest;
      }
    }
  }

  lemma {:induction false} NeedySplit(accounts: seq<Account>, ledger: Ledger, oneToken: nat, lo: nat, mid: nat, hi: nat)
    requires Covers(ledger, accounts) && lo <= mid <= hi <= |accounts|
    ensures Needy(accounts, ledger, oneToken, lo, hi) ==
            Needy(accounts, ledger, oneToken, lo, mid) + Needy(accounts, ledger, oneToken, mid, hi)
    decreases hi
  {
    if mid < hi {
      hide Poor;
      NeedySplit(accounts, ledger, oneToken, lo, mid, hi - 1);
    }
  }

  lemma {:induction false} NeedySame(accounts: seq<Account>, l: Ledger, m: Ledger, oneToken: nat, lo: nat, hi: nat)
    requires Covers(l, accounts) && Covers(m, accounts) && hi <= |accounts|
    requires forall i: nat :: lo <= i < hi ==> l[accounts[i]] == m[accounts[i]]
    ensures Needy(accounts, l, oneToken, lo, hi) == Needy(accounts, m, oneToken, lo, hi)
    decreases hi
  {
    if lo < hi {
      hide Poor;
      NeedySame(accounts, l, m, oneToken, lo, hi - 1);
    }
  }

  lemma {:induction false} NeedyNone(accounts: seq<Account>, ledger: Ledger, oneToken: nat, lo: nat, hi: nat)
    requires Covers(ledger, accounts) && hi <= |accounts|
    requires forall i: nat :: lo <= i < hi ==> !Poor(ledger[accounts[i]], oneToken)
    ensures Needy(accounts, ledger, oneToken, lo, hi) == []
    decreases hi
  {
    if lo < hi {
      hide Poor;
      NeedyNone(accounts, ledger, oneToken, lo, hi - 1);
    }
  }

  // ----- one batch -----

  function IndicesOf(grants: seq<Grant>): seq<nat> {
    seq(|grants|, k requires 0 <= k < |grants| => grants[k].index)
  }

  /** The grants are signed with consecutive nonces from `nonce` on. */
  ghost predicate Consecutive(grants: seq<Grant>, nonce: nat) {
    forall k :: 0 <= k < |grants| ==> grants[k].nonce == nonce + k
  }

  /** The inner loop: the grants it sends, and the index it stops at. `granted` counts the grants
      of earlier batches. */
  method ScanBatch(accounts: seq<Account>, ledger: Ledger, oneToken: nat, b: nat, nonce: nat, granted: nat)
    returns (sent: seq<Grant>, end: nat)
    requires Covers(ledger, accounts) && b <= |accounts|
    ensures b <= end <= |accounts|
    ensures end == |accounts| || b + BATCH_SIZE <= end
    ensures IndicesOf(sent) == Needy(accounts, ledger, oneToken, b, end)
    ensures forall i: nat :: i in IndicesOf(sent) <==> b <= i < end && ledger[accounts[i]] < 4_000_000 * oneToken
    ensures Consecutive(sent, nonce + granted)
    ensures |sent| <= 300 && (end == |accounts| || |sent| == 300)
  {
    sent := [];
    var i := 0;
    while |sent| < BATCH_SIZE && b + i < |accounts|
      invariant b + i <= |accounts|
      invariant |sent| <= i && |sent| <= BATCH_SIZE
      invariant IndicesOf(sent) == Needy(accounts, ledger, oneToken, b, b + i)
      invariant Consecutive(sent, nonce + granted)
    {
      if ledger[accounts[b + i]] < MINIMUM_DONOR_FUND * oneToken {
        var grant := Grant(b + i, nonce + granted + |sent|);
        assert IndicesOf(sent + [grant]) == IndicesOf(sent) + [b + i];
        sent := sent + [grant];
      }
      i := i + 1;
    }
    end := b + i;
    NeedyMembers(accounts, ledger, oneToken, b, end);
  }

  /** Waiting for the batch: the chain accepts or refuses the transfer with ordinal `first + j`. */
  method AwaitBatch(accounts: seq<Account>, ledger: Ledger, oneToken: nat, chosen: seq<nat>,
                    first: nat, accepts: nat -> bool)
    returns (after: Ledger, ok: bool)
    requires Distinct(accounts) && Covers(ledger, accounts)
    requires Increasing(chosen) && forall x :: x in chosen ==> x < |accounts|
    ensures after.Keys == ledger.Keys
    ensures ok <==> forall k :: first <= k < first + |chosen| ==> accepts(k)
    ensures ok ==> forall i :: 0 <= i < |accounts| ==>
              after[accounts[i]] == ledger[accounts[i]] + (if i in chosen then DONOR_FUNDING * oneToken else 0)
  {
    after, ok := ledger, true;
    for j := 0 to |chosen|
      invariant after.Keys == ledger.Keys
      invariant ok <==> forall k :: first <= k < first + j ==> accepts(k)
      invariant ok ==> forall i :: 0 <= i < |accounts| ==>
                  after[accounts[i]] == ledger[accounts[i]] + (if i in chosen[..j] then DONOR_FUNDING * oneToken else 0)
    {
      var x := chosen[j];
      assert x in chosen && x !in chosen[..j];
      assert chosen[..j + 1] == chosen[..j] + [x];
      if accepts(first + j) {
        after := after[accounts[x] := after[accounts[x]] + DONOR_FUNDING * oneToken];
      } else {
        ok := false;
      }
    }
    assert chosen[..|chosen|] == chosen;
  }

  // ----- all batches -----

  /** Accounts before `front` have been brought to the minimum, the others are as they were. */
  ghost predicate FundedUpTo(accounts: seq<Account>, initial: Ledger, ledger: Ledger, oneToken: nat, front: nat) {
    && Covers(initial, accounts) && ledger.Keys == initial.Keys && front <= |accounts|
    && forall i: nat :: i < |accounts| ==>
         ledger[accounts[i]] == initial[accounts[i]]
           + (if i < front && Poor(initial[accounts[i]], oneToken) then DONOR_FUNDING * oneToken else 0)
  }

  /** A batch that starts behind the front finds nobody there and takes over where it stands. */
  lemma BatchContinues(
      accounts: seq<Account>, initial: Ledger, ledger: Ledger, oneToken: nat, front: nat, b: nat, end: nat)
    requires FundedUpTo(accounts, initial, ledger, oneToken, front)
    requires b <= front && b <= end <= |accounts|
    ensures var front' := if front < end then end else front;
            Needy(accounts, initial, oneToken, 0, front') ==
            Needy(accounts, initial, oneToken, 0, front) + Needy(accounts, ledger, oneToken, b, end)
  {
    var mid := if front < end then front else end;
    NeedySplit(accounts, ledger, oneToken, b, mid, end);
    NeedyNone(accounts, ledger, oneToken, b, mid);
    if front < end {
      NeedySplit(accounts, initial, oneToken, 0, front, end);
      NeedySame(accounts, initial, ledger, oneToken, front, end);
    }
  }

  lemma BatchFunds(accounts: seq<Account>, initial: Ledger, before: Ledger, after: Ledger, oneToken: nat,
                   front: nat, b: nat, end: nat)
    requires FundedUpTo(accounts, initial, before, oneToken, front)
    requires b <= front && b <= end <= |accounts|
    requires after.Keys == before.Keys
    requires forall i: nat :: i < |accounts| ==>
               after[accounts[i]] == before[accounts[i]]
                 + (if i in Needy(accounts, before, oneToken, b, end) then DONOR_FUNDING * oneToken else 0)
    ensures FundedUpTo(accounts, initial, after, oneToken, if front < end then end else front)
  {
    NeedyMembers(accounts, before, oneToken, b, end);
  }

  /** What funding everybody means in numbers. */
  lemma FundedInNumbers(accounts: seq<Account>, initial: Ledger, ledger: Ledger, oneToken: nat, grants: seq<Grant>)
    requires FundedUpTo(accounts, initial, ledger, oneToken, |accounts|)
    requires IndicesOf(grants) == Needy(accounts, initial, oneToken, 0, |accounts|)
    ensures forall i :: 0 <= i < |accounts| ==>
              && (i in IndicesOf(grants) <==> initial[accounts[i]] < 4_000_000 * oneToken)
              && ledger[accounts[i]] ==
                 initial[accounts[i]] + (if i in IndicesOf(grants) then 4_000_000 * oneToken else 0)
              && 4_000_000 * oneToken <= ledger[accounts[i]]
  {
    hide IndicesOf, Needy;
    NeedyMembers(accounts, initial, oneToken, 0, |accounts|);
  }

  /** All grants of the batches, in order. */
  function AllGrants(batches: seq<seq<Grant>>): seq<Grant> {
    if batches == [] then [] else AllGrants(batches[..|batches| - 1]) + batches[|batches| - 1]
  }

  ghost predicate StartsAt(grants: seq<Grant>, lo: nat) {
    forall i :: 0 <= i < |grants| ==> lo <= grants[i].index
  }

  /** Batch `k` starts at the account with index `k * 300` and makes at most 300 grants. */
  ghost predicate BatchesBounded(batches: seq<seq<Grant>>) {
    forall k :: 0 <= k < |batches| ==> |batches[k]| <= BATCH_SIZE && StartsAt(batches[k], k * BATCH_SIZE)
  }

  lemma AddBatch(batches: seq<seq<Grant>>, sent: seq<Grant>)
    requires BatchesBounded(batches) && |sent| <= BATCH_SIZE && StartsAt(sent, |batches| * BATCH_SIZE)
    ensures BatchesBounded(batches + [sent])
  {
    hide StartsAt;
    var more := batches + [sent];
    forall k | 0 <= k < |more| ensures |more[k]| <= BATCH_SIZE && StartsAt(more[k], k * BATCH_SIZE) {
      if k < |batches| {
        assert more[k] == batches[k];
      }
    }
  }

  predicate AllFull(batches: seq<seq<Grant>>) {
    forall k :: 0 <= k < |batches| ==> |batches[k]| == 300
  }

  /** A batch that is not full is followed by empty ones only. */
  predicate FullFirst(batches: seq<seq<Grant>>) {
    forall k, l :: 0 <= k < l < |batches| && |batches[k]| < 300 ==> batches[l] == []
  }

  lemma AddToFull(batches: seq<seq<Grant>>, sent: seq<Grant>)
    requires FullFirst(batches) && (AllFull(batches) || sent == [])
    ensures FullFirst(batches + [sent])
    ensures AllFull(batches) && |sent| == 300 ==> AllFull(batches + [sent])
  {
  }

  /** A batch that starts after everybody has been funded sends nothing. */
  lemma NothingLeft(accounts: seq<Account>, initial: Ledger, ledger: Ledger, oneToken: nat, b: nat, end: nat,
                    sent: seq<Grant>)
    requires FundedUpTo(accounts, initial, ledger, oneToken, |accounts|) && end <= |accounts|
    requires IndicesOf(sent) == Needy(accounts, ledger, oneToken, b, end)
    ensures sent == []
  {
    NeedyNone(accounts, ledger, oneToken, b, end);
    SameLength(sent);
  }

  lemma AllGrantsAppend(batches: seq<seq<Grant>>, sent: seq<Grant>)
    ensures AllGrants(batches + [sent]) == AllGrants(batches) + sent
  {
    assert (batches + [sent])[..|batches|] == batches;
  }

  lemma ChosenStartAt(accounts: seq<Account>, ledger: Ledger, oneToken: nat, b: nat, end: nat, sent: seq<Grant>)
    requires Covers(ledger, accounts) && end <= |accounts|
    requires IndicesOf(sent) == Needy(accounts, ledger, oneToken, b, end)
    ensures StartsAt(sent, b)
  {
    NeedyMembers(accounts, ledger, oneToken, b, end);
    forall i | 0 <= i < |sent| ensures b <= sent[i].index {
      assert IndicesOf(sent)[i] == sent[i].index && sent[i].index in IndicesOf(sent);
    }
  }

  lemma IndicesAppend(p: seq<Grant>, q: seq<Grant>)
    ensures IndicesOf(p + q) == IndicesOf(p) + IndicesOf(q)
  {
  }

  /** `fundFilenames` for the list of accounts, the ledger and the funder's current nonce.

      Exactly the accounts that were below the minimum are granted to, each once and in order,
      although batches overlap; the nonces used are consecutive; the grants come in batches of 300,
      one batch for every 300 accounts begun, and only the last one with grants may be shorter. Unless
      a transfer is refused, every account ends at or above the minimum. */
  method FundFilenames(accounts: seq<Account>, initial: Ledger, oneToken: nat, nonce: nat, accepts: nat -> bool)
    returns (r: Result<Ledger, Fault>, grants: seq<Grant>, batches: seq<seq<Grant>>)
    requires Distinct(accounts) && Covers(initial, accounts)
    ensures Consecutive(grants, nonce)
    ensures AllGrants(batches) == grants && BatchesBounded(batches)
    ensures IndicesOf(grants) <= Needy(accounts, initial, oneToken, 0, |accounts|)
    ensures forall i: nat :: i in IndicesOf(grants) ==>
              i < |accounts| && initial[accounts[i]] < 4_000_000 * oneToken
    ensures r.Ok? <==> forall k :: 0 <= k < |grants| ==> accepts(k)
    ensures r.Ok? ==> IndicesOf(grants) == Needy(accounts, initial, oneToken, 0, |accounts|)
    ensures r.Ok? ==> FundedUpTo(accounts, initial, r.value, oneToken, |accounts|)
    ensures r.Ok? ==> forall i :: 0 <= i < |accounts| ==>
              && (i in IndicesOf(grants) <==> initial[accounts[i]] < 4_000_000 * oneToken)
              && accounts[i] in r.value
              && r.value[accounts[i]] ==
                 initial[accounts[i]] + (if i in IndicesOf(grants) then 4_000_000 * oneToken else 0)
              && 4_000_000 * oneToken <= r.value[accounts[i]]
    ensures (forall k :: 0 <= k < |batches| ==> |batches[k]| <= 300) && FullFirst(batches)
    ensures r.Ok? ==> |batches| == (|accounts| + 299) / 300
  {
    hide Needy, FundedUpTo, Poor, IndicesOf, AllGrants, BatchesBounded, FullFirst, AllFull;
    var ledger, b := initial, 0;
    grants, batches := [], [];
    ghost var front: nat := 0;
    Start(accounts, initial, oneToken);
    while b < |accounts|
      invariant front <= |accounts| && ledger.Keys == initial.Keys
      invariant FundedUpTo(accounts, initial, ledger, oneToken, front)
      invariant b <= front || front == |accounts|
      invariant IndicesOf(grants) == Needy(accounts, initial, oneToken, 0, front)
      invariant Consecutive(grants, nonce)
      invariant forall k :: 0 <= k < |grants| ==> accepts(k)
      invariant AllGrants(batches) == grants && BatchesBounded(batches)
      invariant b == |batches| * BATCH_SIZE && b < |accounts| + BATCH_SIZE
      invariant FullFirst(batches) && (AllFull(batches) || front == |accounts|)
    {
      var sent, end := ScanBatch(accounts, ledger, oneToken, b, nonce, |grants|);
      ghost var front': nat := if front < end then end else front;
      NeedyMembers(accounts, ledger, oneToken, b, end);
      NeedyIncreases(accounts, ledger, oneToken, b, end);
      BatchContinues(accounts, initial, ledger, oneToken, front, b, end);
      NeedySplit(accounts, initial, oneToken, 0, front', |accounts|);
      IndicesAppend(grants, sent);
      ghost var before := ledger;
      var after, ok := AwaitBatch(accounts, ledger, oneToken, IndicesOf(sent), |grants|, accepts);
      SameLength(sent);
      grants := grants + sent;
      ChosenStartAt(accounts, before, oneToken, b, end, sent);
      AddBatch(batches, sent);
      AllGrantsAppend(batches, sent);
      if front == |accounts| {
        NothingLeft(accounts, initial, before, oneToken, b, end, sent);
      }
      AddToFull(batches, sent);
      batches := batches + [sent];
      BoundedByNumber(batches);
      if !ok {
        GrantsAreNeeded(accounts, initial, oneToken, grants);
        return Err(TransfersFailed), grants, batches;
      }
      BatchFunds(accounts, initial, ledger, after, oneToken, front, b, end);
      ledger := after;
      front := front';
      b := b + BATCH_SIZE;
    }
    BoundedByNumber(batches);
    GrantsAreNeeded(accounts, initial, oneToken, grants);
    FundedInNumbers(accounts, initial, ledger, oneToken, grants);
    r := Ok(ledger);
  }

  lemma GrantsAreNeeded(accounts: seq<Account>, initial: Ledger, oneToken: nat, grants: seq<Grant>)
    requires Covers(initial, accounts) && IndicesOf(grants) <= Needy(accounts, initial, oneToken, 0, |accounts|)
    ensures forall i: nat :: i in IndicesOf(grants) ==>
              i < |accounts| && initial[accounts[i]] < 4_000_000 * oneToken
  {
    hide IndicesOf, Needy;
    NeedyMembers(accounts, initial, oneToken, 0, |accounts|);
    var p, q := IndicesOf(grants), Needy(accounts, initial, oneToken, 0, |accounts|);
    assert forall k :: 0 <= k < |p| ==> p[k] == q[k] && q[k] in q;
  }

  lemma BoundedByNumber(batches: seq<seq<Grant>>)
    requires BatchesBounded(batches)
    ensures forall k :: 0 <= k < |batches| ==> |batches[k]| <= 300
  {
  }

  lemma SameLength(grants: seq<Grant>)
    ensures |IndicesOf(grants)| == |grants|
  {
  }

  lemma Start(accounts: seq<Account>, initial: Ledger, oneToken: nat)
    requires Covers(initial, accounts)
    ensures FundedUpTo(accounts, initial, initial, oneToken, 0)
    ensures IndicesOf([]) == Needy(accounts, initial, oneToken, 0, 0)
    ensures AllGrants([]) == [] && BatchesBounded([]) && FullFirst([]) && AllFull([])
  {
  }
}
