/** Repeated synchronisation against several relays (js-packages/scripts/identitySetter.ts): when
    the order of the runs matters, and when it does not. */
module Convergence {
  import opened Common
  import opened Identities

  function Runs(chain: Chain, relays: seq<Relay>, local: nat): Result<Chain, Fault>
    decreases |relays|
  {
    if relays == [] then Ok(chain)
    else
      var next :- Sync(chain, relays[0], local);
      Runs(next, relays[1..], local)
  }

  /** Every identity on the chain was judged by the chain itself. */
  ghost predicate LocalOnly(chain: Chain, local: nat) {
    forall a :: a in chain ==> Readable(chain[a]) && Registrar(chain[a]) == local
  }

  function Info(chain: Chain, a: Account): Option<string> {
    if a in chain then Some(chain[a].info) else None
  }

  ghost predicate AllJudged(chain: Chain) {
    forall a :: a in chain ==> Readable(chain[a])
  }

  function Offered(relay: Relay, a: Account): (x: Option<Identity>)
    ensures x.Some? ==> Readable(x.value) && Registrar(x.value) == relay.id
  {
    ConfirmedFacts(relay.identities, relay.id);
    FindMember(Offer(relay), a);
    Find(Offer(relay), a)
  }

  /** One account's entry after runs against these relays. */
  function Passed(now: Option<Identity>, relays: seq<Relay>, a: Account, local: nat): (end: Option<Identity>)
    requires now.Some? ==> Readable(now.value)
    ensures end.Some? ==> Readable(end.value)
    decreases |relays|
  {
    if relays == [] then now
    else Passed(Merge(now, Offered(relays[0], a), local), relays[1..], a, local)
  }

  /** Runs never fail on a judged chain, and treat every account on its own. */
  lemma {:induction false} RunsPointwise(chain: Chain, relays: seq<Relay>, local: nat)
    requires AllJudged(chain) && forall r :: r in relays ==> WellFormed(r)
    ensures Runs(chain, relays, local).Ok?
    ensures forall a :: Lookup(Runs(chain, relays, local).value, a) == Passed(Lookup(chain, a), relays, a, local)
    decreases |relays|
  {
    if relays != [] {
      var r := relays[0];
      assert r in relays && forall x :: x in relays[1..] ==> x in relays;
      SyncPointwise(chain, r, local);
      var next := Sync(chain, r, local).value;
      forall a
        ensures a in next ==> Readable(next[a])
        ensures Lookup(next, a) == Merge(Lookup(chain, a), Offered(r, a), local)
      {
        assert a in next ==> Lookup(next, a) == Some(next[a]);
      }
      RunsPointwise(next, relays[1..], local);
    }
  }

  lemma {:induction false} PassedAppend(now: Option<Identity>, p: seq<Relay>, q: seq<Relay>, a: Account, local: nat)
    requires now.Some? ==> Readable(now.value)
    ensures Passed(now, p + q, a, local) == Passed(Passed(now, p, a, local), q, a, local)
    decreases |p|
  {
    if p == [] {
      assert p + q == q;
    } else {
      assert (p + q)[1..] == p[1..] + q;
      PassedAppend(Merge(now, Offered(p[0], a), local), p[1..], q, a, local);
    }
  }

  /** The entry is the chain's own, or was taken from one of the relays that offer the account. */
  ghost predicate Traceable(now: Option<Identity>, all: seq<Relay>, a: Account, local: nat) {
    now.Some? ==>
      && Readable(now.value)
      && (Registrar(now.value) == local || exists r :: r in all && Offered(r, a).Some? && Registrar(now.value) == r.id)
  }

  lemma {:induction false} PassedTraceable(now: Option<Identity>, relays: seq<Relay>, all: seq<Relay>,
                                           a: Account, local: nat)
    requires Traceable(now, all, a, local) && forall r :: r in relays ==> r in all
    ensures Traceable(Passed(now, relays, a, local), all, a, local)
    decreases |relays|
  {
    if relays != [] {
      assert relays[0] in relays && forall x :: x in relays[1..] ==> x in relays;
      PassedTraceable(Merge(now, Offered(relays[0], a), local), relays[1..], all, a, local);
    }
  }

  /** What the last of the relays that offer the account says. */
  function LastOffer(relays: seq<Relay>, a: Account): Option<Identity>
    decreases |relays|
  {
    if relays == [] then None
    else if LastOffer(relays[1..], a).Some? then LastOffer(relays[1..], a)
    else Offered(relays[0], a)
  }

  lemma {:induction false} LastOfferNone(relays: seq<Relay>, a: Account)
    ensures LastOffer(relays, a).None? <==> forall r :: r in relays ==> Offered(r, a).None?
    decreases |relays|
  {
    if relays != [] {
      LastOfferNone(relays[1..], a);
      assert relays == [relays[0]] + relays[1..];
    }
  }

  /** From the highest id to the lowest. */
  ghost predicate Descending(relays: seq<Relay>) {
    forall i, j :: 0 <= i < j < |relays| ==> relays[i].id > relays[j].id
  }

  ghost predicate Foreign(relays: seq<Relay>, local: nat) {
    local != 0 && forall r :: r in relays ==> WellFormed(r) && r.id != local
  }

  /** A relay that offers the account, with no lower one offering it, gets its information in. */
  lemma LowestOffererWins(all: seq<Relay>, k: nat, a: Account, local: nat, now: Option<Identity>)
    requires Descending(all) && Foreign(all, local) && k < |all|
    requires Traceable(now, all, a, local) && (now.Some? ==> Registrar(now.value) != local)
    requires Offered(all[k], a).Some? && LastOffer(all[k + 1..], a).None?
    ensures var next := Merge(now, Offered(all[k], a), local);
            next.Some? && next.value.info == Offered(all[k], a).value.info && Registrar(next.value) != local
  {
    assert all[k] in all;
    if now.Some? {
      var q :| q in all && Offered(q, a).Some? && Registrar(now.value) == q.id;
      LastOfferNone(all[k + 1..], a);
      assert q !in all[k + 1..];
    }
  }

  lemma {:induction false} SweepSettles(all: seq<Relay>, k: nat, a: Account, local: nat, now: Option<Identity>)
    requires Descending(all) && Foreign(all, local) && k <= |all|
    requires Traceable(now, all, a, local)
    ensures var end := Passed(now, all[k..], a, local);
            if now.Some? && Registrar(now.value) == local then end == now
            else if LastOffer(all[k..], a).Some? then end.Some? && end.value.info == LastOffer(all[k..], a).value.info
            else end == now
    decreases |all| - k
  {
    if k < |all| {
      var r, rest := all[k], all[k + 1..];
      assert r in all && all[k..][0] == r && all[k..][1..] == rest;
      var next := Merge(now, Offered(r, a), local);
      assert Traceable(next, all, a, local);
      SweepSettles(all, k + 1, a, local, next);
      if !(now.Some? && Registrar(now.value) == local) && LastOffer(rest, a).None? && Offered(r, a).Some? {
        LowestOffererWins(all, k, a, local, now);
      }
    }
  }

  /** The information an account should end up with: the chain's own, else that of the last relay
      in the list that offers it. */
  function Expected(chain: Chain, relays: seq<Relay>, a: Account): Option<string> {
    if a in chain then Some(chain[a].info)
    else if LastOffer(relays, a).Some? then Some(LastOffer(relays, a).value.info)
    else None
  }

  lemma {:induction false} PassedOrigin(
      now: Option<Identity>, relays: seq<Relay>, all: seq<Relay>, a: Account, local: nat)
    requires (now.Some? ==> Readable(now.value)) && Foreign(all, local) && forall r :: r in relays ==> r in all
    ensures var end := Passed(now, relays, a, local);
            if now.Some? && Registrar(now.value) == local then end == now
            else end.Some? ==> Registrar(end.value) != local
    decreases |relays|
  {
    if relays != [] {
      assert relays[0] in relays && forall x :: x in relays[1..] ==> x in relays;
      PassedOrigin(Merge(now, Offered(relays[0], a), local), relays[1..], all, a, local);
    }
  }

  /** Whatever runs came before, one sweep over all relays from the highest id to the lowest leaves
      every account with the chain's own information, else with that of the lowest relay offering
      it. The id 0 does no harm here. */
  lemma DescendingSweepConverges(chain: Chain, history: seq<Relay>, sweep: seq<Relay>, local: nat)
    requires LocalOnly(chain, local) && Foreign(sweep, local) && Descending(sweep)
    requires forall r :: r in history ==> r in sweep
    ensures Runs(chain, history + sweep, local).Ok?
    ensures forall a :: Info(Runs(chain, history + sweep, local).value, a) == Expected(chain, sweep, a)
  {
    RunsPointwise(chain, history + sweep, local);
    var end := Runs(chain, history + sweep, local).value;
    forall a
      ensures Info(end, a) == Expected(chain, sweep, a)
    {
      var start := Lookup(chain, a);
      var middle := Passed(start, history, a, local);
      PassedAppend(start, history, sweep, a, local);
      PassedTraceable(start, history, sweep, a, local);
      PassedOrigin(start, history, sweep, a, local);
      assert sweep[0..] == sweep;
      SweepSettles(sweep, 0, a, local, middle);
      LastOfferNone(sweep, a);
    }
  }

  // ----- when every order gives the same -----

  /** The relays visited are these, each at least once. */
  ghost predicate Visits(runs: seq<Relay>, relays: seq<Relay>) {
    (forall r :: r in relays ==> r in runs) && (forall r :: r in runs ==> r in relays)
  }

  /** Every sequence of runs against these relays ends with the expected information. */
  ghost predicate Converges(chain: Chain, relays: seq<Relay>, local: nat) {
    forall runs :: Visits(runs, relays) ==>
      && Runs(chain, runs, local).Ok?
      && forall a :: Info(Runs(chain, runs, local).value, a) == Expected(chain, relays, a)
  }

  /** What a relay says about an account, if anything. */
  function Word(relay: Relay, a: Account): Option<string> {
    if Offered(relay, a).Some? then Some(Offered(relay, a).value.info) else None
  }

  /** Every relay that says the same as the lowest one offering the account outranks every relay
      that says something else: its id is smaller, and not 0. */
  ghost predicate Prevails(relays: seq<Relay>, a: Account) {
    var last := LastOffer(relays, a);
    last.Some? ==> forall p, q ::
      (p in relays && q in relays && Word(p, a) == Some(last.value.info)
       && Word(q, a).Some? && Word(q, a) != Word(p, a)) ==>
        0 < p.id < q.id
  }

  ghost predicate From(now: Option<Identity>, all: seq<Relay>, a: Account) {
    now.None? || exists r :: r in all && now == Offered(r, a)
  }

  lemma {:induction false} LastOfferIndex(relays: seq<Relay>, a: Account) returns (k: nat)
    requires LastOffer(relays, a).Some?
    ensures k < |relays| && LastOffer(relays, a) == Offered(relays[k], a) && LastOffer(relays[k + 1..], a).None?
    decreases |relays|
  {
    if LastOffer(relays[1..], a).Some? {
      var m := LastOfferIndex(relays[1..], a);
      assert relays[1..][m + 1..] == relays[m + 2..];
      k := m + 1;
    } else {
      k := 0;
    }
  }

  /** An entry with the prevailing information is never replaced again. */
  lemma {:induction false} PrevailingStays(
      all: seq<Relay>, runs: seq<Relay>, a: Account, local: nat, now: Option<Identity>)
    requires Foreign(all, local) && Prevails(all, a) && LastOffer(all, a).Some?
    requires From(now, all, a) && now.Some? && now.value.info == LastOffer(all, a).value.info
    requires forall r :: r in runs ==> r in all
    ensures Passed(now, runs, a, local) == now
    decreases |runs|
  {
    if runs != [] {
      var r := runs[0];
      assert r in runs && forall x :: x in runs[1..] ==> x in runs;
      var p :| p in all && now == Offered(p, a);
      assert Word(p, a) == Some(now.value.info);
      assert Merge(now, Offered(r, a), local) == now;
      PrevailingStays(all, runs[1..], a, local, now);
    }
  }

  lemma {:induction false} VisitedLowestPrevails(all: seq<Relay>, k: nat, runs: seq<Relay>, a: Account, local: nat,
                                                 now: Option<Identity>)
    requires Descending(all) && Foreign(all, local) && Prevails(all, a)
    requires k < |all| && LastOffer(all, a).Some? && LastOffer(all, a) == Offered(all[k], a)
    requires LastOffer(all[k + 1..], a).None?
    requires From(now, all, a) && all[k] in runs && forall r :: r in runs ==> r in all
    ensures var end := Passed(now, runs, a, local); end.Some? && end.value.info == LastOffer(all, a).value.info
    decreases |runs|
  {
    var r, rest := runs[0], runs[1..];
    assert runs == [r] + rest;
    assert r in runs && forall x :: x in rest ==> x in runs;
    var next := Merge(now, Offered(r, a), local);
    assert From(next, all, a);
    if r == all[k] {
      if now.Some? {
        var p :| p in all && now == Offered(p, a);
      }
      LowestOffererWins(all, k, a, local, now);
      PrevailingStays(all, rest, a, local, next);
    } else {
      VisitedLowestPrevails(all, k, rest, a, local, next);
    }
  }

  lemma {:induction false} NobodyOffers(
      all: seq<Relay>, runs: seq<Relay>, a: Account, local: nat, now: Option<Identity>)
    requires LastOffer(all, a).None? && forall r :: r in runs ==> r in all
    requires now.Some? ==> Readable(now.value)
    ensures Passed(now, runs, a, local) == now
    decreases |runs|
  {
    LastOfferNone(all, a);
    if runs != [] {
      assert runs[0] in runs && forall x :: x in runs[1..] ==> x in runs;
      NobodyOffers(all, runs[1..], a, local, now);
    }
  }

  lemma PrevailingConverges(chain: Chain, relays: seq<Relay>, local: nat)
    requires LocalOnly(chain, local) && Foreign(relays, local) && Descending(relays)
    requires forall a :: a !in chain ==> Prevails(relays, a)
    ensures Converges(chain, relays, local)
  {
    forall runs | Visits(runs, relays)
      ensures Runs(chain, runs, local).Ok?
      ensures forall a :: Info(Runs(chain, runs, local).value, a) == Expected(chain, relays, a)
    {
      RunsPointwise(chain, runs, local);
      var end := Runs(chain, runs, local).value;
      forall a ensures Info(end, a) == Expected(chain, relays, a) {
        var start := Lookup(chain, a);
        if start.Some? {
          PassedOrigin(start, runs, relays, a, local);
        } else if LastOffer(relays, a).None? {
          NobodyOffers(relays, runs, a, local, start);
        } else {
          var k := LastOfferIndex(relays, a);
          assert relays[k] in relays;
          VisitedLowestPrevails(relays, k, runs, a, local, start);
        }
      }
    }
  }

  // ----- when some order gives something else -----

  /** The relays that say `word` about the account, or those that do not. */
  function Saying(relays: seq<Relay>, a: Account, word: Option<string>, same: bool): seq<Relay>
    decreases |relays|
  {
    if relays == [] then []
    else (if (Word(relays[0], a) == word) == same then [relays[0]] else []) + Saying(relays[1..], a, word, same)
  }

  lemma {:induction false} SayingMembers(relays: seq<Relay>, a: Account, word: Option<string>, same: bool)
    ensures forall r :: r in Saying(relays, a, word, same) <==> r in relays && (Word(r, a) == word) == same
    decreases |relays|
  {
    if relays != [] {
      SayingMembers(relays[1..], a, word, same);
      assert relays == [relays[0]] + relays[1..];
    }
  }

  lemma {:induction false} SameWordKeeps(runs: seq<Relay>, a: Account, local: nat, now: Option<Identity>)
    requires now.Some? && Readable(now.value)
    requires forall r :: r in runs ==> Word(r, a) == Some(now.value.info)
    ensures Passed(now, runs, a, local) == now
    decreases |runs|
  {
    if runs != [] {
      assert runs[0] in runs && forall x :: x in runs[1..] ==> x in runs;
      SameWordKeeps(runs[1..], a, local, now);
    }
  }

  lemma {:induction false} OtherWordsStay(runs: seq<Relay>, a: Account, local: nat, now: Option<Identity>, word: string)
    requires now.Some? && Readable(now.value) && now.value.info != word
    requires forall r :: r in runs ==> Word(r, a) != Some(word)
    ensures var end := Passed(now, runs, a, local); end.Some? && end.value.info != word
    decreases |runs|
  {
    if runs != [] {
      assert runs[0] in runs && forall x :: x in runs[1..] ==> x in runs;
      OtherWordsStay(runs[1..], a, local, Merge(now, Offered(runs[0], a), local), word);
    }
  }

  /** A relay that agrees with the lowest one but does not outrank a dissenter spoils it: visited
      first, it holds the entry while all that agree pass by, and the dissenter then takes over. */
  lemma DissenterTakesOver(relays: seq<Relay>, a: Account, local: nat, p: Relay, q: Relay) returns (runs: seq<Relay>)
    requires Foreign(relays, local) && p in relays && q in relays && p.id != q.id
    requires Word(p, a).Some? && Word(q, a).Some? && Word(q, a) != Word(p, a) && !(0 < p.id < q.id)
    ensures Visits(runs, relays)
    ensures var end := Passed(None, runs, a, local); end.Some? && Some(end.value.info) != Word(p, a)
  {
    hide Passed, Saying;
    var word := Word(p, a);
    var agreeing, others := Saying(relays, a, word, true), Saying(relays, a, word, false);
    SayingMembers(relays, a, word, true);
    SayingMembers(relays, a, word, false);
    runs := [p] + agreeing + [q] + others;
    PassedAppend(None, [p] + agreeing + [q], others, a, local);
    PassedAppend(None, [p] + agreeing, [q], a, local);
    PassedAppend(None, [p], agreeing, a, local);
    PassedOne(None, p, a, local);
    SameWordKeeps(agreeing, a, local, Offered(p, a));
    PassedOne(Offered(p, a), q, a, local);
    OtherWordsStay(others, a, local, Offered(q, a), word.value);
  }

  lemma PassedOne(now: Option<Identity>, r: Relay, a: Account, local: nat)
    requires now.Some? ==> Readable(now.value)
    ensures Passed(now, [r], a, local) == Merge(now, Offered(r, a), local)
  {
    assert [r][1..] == [];
  }

  lemma DescendingIds(relays: seq<Relay>, p: Relay, q: Relay)
    requires Descending(relays) && p in relays && q in relays && p != q
    ensures p.id != q.id
  {
    var i :| 0 <= i < |relays| && relays[i] == p;
    var j :| 0 <= j < |relays| && relays[j] == q;
  }

  /** The exact condition under which the order of runs does not matter, for any number of relays
      (listed from the highest id to the lowest): about every account the chain does not know, the
      relays that agree with the lowest one offering it outrank all that dissent. */
  lemma OrderIndependenceExact(chain: Chain, relays: seq<Relay>, local: nat)
    requires LocalOnly(chain, local) && Foreign(relays, local) && Descending(relays)
    ensures Converges(chain, relays, local) <==> forall a :: a !in chain ==> Prevails(relays, a)
  {
    if forall a :: a !in chain ==> Prevails(relays, a) {
      PrevailingConverges(chain, relays, local);
    } else {
      var a :| a !in chain && !Prevails(relays, a);
      SomeOrderDiffers(chain, relays, local, a);
    }
  }

  lemma SomeOrderDiffers(chain: Chain, relays: seq<Relay>, local: nat, a: Account)
    requires LocalOnly(chain, local) && Foreign(relays, local) && Descending(relays)
    requires a !in chain && !Prevails(relays, a)
    ensures !Converges(chain, relays, local)
  {
    hide Offered, LastOffer, Passed, Runs;
    var word := Some(LastOffer(relays, a).value.info);
    var p, q :| p in relays && q in relays && Word(p, a) == word && Word(q, a).Some? && Word(q, a) != Word(p, a)
      && !(0 < p.id < q.id);
    DescendingIds(relays, p, q);
    var runs := DissenterTakesOver(relays, a, local, p, q);
    RunsPointwise(chain, runs, local);
    assert Lookup(chain, a) == None;
    assert Info(Runs(chain, runs, local).value, a) != Expected(chain, relays, a);
  }

  // ----- two and three relays -----

  /** The relays do not contradict each other about accounts the chain does not know. */
  ghost predicate Agree(chain: Chain, low: Relay, high: Relay) {
    forall a :: a !in chain && Offered(low, a).Some? && Offered(high, a).Some? ==> Word(low, a) == Word(high, a)
  }

  /** For two relays the order does not matter exactly when the lower id is not 0, which the priority
      rule takes for "no data", or the relays do not contradict each other. */
  lemma TwoRelaysExact(chain: Chain, low: Relay, high: Relay, local: nat)
    requires LocalOnly(chain, local) && Foreign([high, low], local) && low.id < high.id
    ensures Converges(chain, [high, low], local) <==> low.id != 0 || Agree(chain, low, high)
  {
    var relays := [high, low];
    OrderIndependenceExact(chain, relays, local);
    forall a ensures Prevails(relays, a) <==>
      low.id != 0 || (Offered(low, a).Some? && Offered(high, a).Some? ==> Word(low, a) == Word(high, a))
    {
      PrevailsForTwo(low, high, a);
    }
  }

  lemma PrevailsForTwo(low: Relay, high: Relay, a: Account)
    requires low.id < high.id
    ensures Prevails([high, low], a) <==>
      low.id != 0 || (Offered(low, a).Some? && Offered(high, a).Some? ==> Word(low, a) == Word(high, a))
  {
    hide Offered;
    var relays := [high, low];
    assert relays[1..] == [low] && [low][1..] == [];
    assert LastOffer([low], a) == Offered(low, a);
    assert LastOffer(relays, a) == if Offered(low, a).Some? then Offered(low, a) else Offered(high, a);
    assert low in relays && high in relays;
  }

  /** Three relays can disagree in effect even without id 0: when the lowest and the highest agree
      against the middle one, the middle one wins or loses depending on the order of the runs. */
  lemma ThreeRelaysDependOnOrder(chain: Chain, low: Relay, middle: Relay, high: Relay, local: nat, a: Account)
    requires LocalOnly(chain, local) && Foreign([high, middle, low], local)
    requires low.id < middle.id < high.id && a !in chain
    requires Word(low, a).Some? && Word(middle, a).Some? && Word(high, a) == Word(low, a) != Word(middle, a)
    ensures var r := Runs(chain, [high, low, middle], local);
            r.Ok? && Info(r.value, a) == Word(middle, a)
    ensures var r := Runs(chain, [high, middle, low], local);
            r.Ok? && Info(r.value, a) == Word(low, a)
  {
    hide Offered, Passed, Runs;
    assert low in [high, middle, low] && middle in [high, middle, low] && high in [high, middle, low];
    assert forall r :: r in [high, low, middle] ==> r in [high, middle, low];
    RunsPointwise(chain, [high, low, middle], local);
    RunsPointwise(chain, [high, middle, low], local);
    assert Lookup(chain, a) == None;
    PassedThree(None, high, low, middle, a, local);
    PassedThree(None, high, middle, low, a, local);
  }

  lemma PassedThree(now: Option<Identity>, r: Relay, s: Relay, t: Relay, a: Account, local: nat)
    requires now.Some? ==> Readable(now.value)
    ensures Passed(now, [r, s, t], a, local) ==
            Merge(Merge(Merge(now, Offered(r, a), local), Offered(s, a), local), Offered(t, a), local)
  {
    assert [r, s, t][1..] == [s, t] && [s, t][1..] == [t];
    PassedOne(Merge(Merge(now, Offered(r, a), local), Offered(s, a), local), t, a, local);
  }
}
