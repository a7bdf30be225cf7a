/** Copying identities from relay chains (js-packages/scripts/identitySetter.ts): confirmed
    identities of a relay are compared with those on the local chain, and the ones that are new,
    changed or more important are inserted.

    An account stands for its address in any address format. `info` stands for the JSON text the
    script compares. Registrar ids are the chains' address format numbers. */
module Identities {
  import opened Common

  type Account = string

  datatype Verdict = Unknown | FeePaid | Reasonable | KnownGood | OutOfDate | LowQuality | Erroneous

  datatype Judgement = Judgement(registrar: nat, verdict: Verdict)

  datatype Identity = Identity(info: string, judgements: seq<Judgement>)

  datatype Entry = Entry(account: Account, identity: Identity)

  type Chain = map<Account, Identity>

  /** Reading `judgements[0][0]` of an identity without judgements. */
  datatype Fault = NoJudgement(account: Account)

  // ----- the relay's side -----

  predicate Judged(identity: Identity, verdict: Verdict) {
    exists j :: j in identity.judgements && j.verdict == verdict
  }

  /** A confirmed identity as it is copied: one judgement, from the relay itself. */
  function Stamped(identity: Identity, relay: nat): Identity {
    identity.(judgements := [Judgement(relay, if Judged(identity, KnownGood) then KnownGood else Reasonable)])
  }

  function Vetted(e: Entry, relay: nat): seq<Entry> {
    if Judged(e.identity, Reasonable) || Judged(e.identity, KnownGood)
    then [Entry(e.account, Stamped(e.identity, relay))] else []
  }

  /** What a relay offers: its identities with a good verdict, KnownGood winning, in order. */
  function Confirmed(identities: seq<Entry>, relay: nat): seq<Entry> {
    if identities == [] then [] else Vetted(identities[0], relay) + Confirmed(identities[1..], relay)
  }

  /** The two flags set while walking over the judgements. */
  method ScanJudgements(identity: Identity) returns (knownGood: bool, reasonable: bool)
    ensures knownGood == Judged(identity, KnownGood) && reasonable == Judged(identity, Reasonable)
  {
    knownGood, reasonable := false, false;
    for k := 0 to |identity.judgements|
      invariant knownGood <==> exists j :: j in identity.judgements[..k] && j.verdict == KnownGood
      invariant reasonable <==> exists j :: j in identity.judgements[..k] && j.verdict == Reasonable
    {
      var judgement := identity.judgements[k];
      assert identity.judgements[..k + 1] == identity.judgements[..k] + [judgement];
      if judgement.verdict == KnownGood {
        knownGood := true;
      }
      if judgement.verdict == Reasonable {
        reasonable := true;
      }
    }
    assert identity.judgements[..|identity.judgements|] == identity.judgements;
  }

  /** The loop over the relay's identities. */
  method CollectConfirmed(identities: seq<Entry>, relay: nat) returns (kept: seq<Entry>)
    ensures kept == Confirmed(identities, relay)
  {
    hide Judged, Confirmed;
    kept := [];
    assert identities[0..] == identities;
    for i := 0 to |identities|
      invariant kept + Confirmed(identities[i..], relay) == Confirmed(identities, relay)
    {
      var Entry(account, identity) := identities[i];
      ghost var before := kept;
      var knownGood, reasonable := ScanJudgements(identity);
      if reasonable || knownGood {
        var verdict := if knownGood then KnownGood else Reasonable;
        kept := kept + [Entry(account, identity.(judgements := [Judgement(relay, verdict)]))];
      }
      ConfirmedStep(identities, i, relay);
      assert kept == before + Vetted(identities[i], relay);
    }
    ConfirmedEnd(identities[|identities|..], relay);
  }

  lemma ConfirmedStep(identities: seq<Entry>, i: nat, relay: nat)
    requires i < |identities|
    ensures Confirmed(identities[i..], relay) == Vetted(identities[i], relay) + Confirmed(identities[i + 1..], relay)
  {
  }

  lemma ConfirmedEnd(identities: seq<Entry>, relay: nat)
    requires identities == []
    ensures Confirmed(identities, relay) == []
  {
  }

  // ----- the local chain's side -----

  /** `isCurrentChainDataPriority`; the id 0 counts as no id at all. */
  predicate HasPriority(current: Option<nat>, local: nat, relay: nat) {
    current.Some? && current.value != 0 && (current.value == local || current.value < relay)
  }

  function Find(entries: seq<Entry>, account: Account): Option<Identity> {
    if entries == [] then None
    else if entries[0].account == account then Some(entries[0].identity)
    else Find(entries[1..], account)
  }

  function Lookup(chain: Chain, account: Account): Option<Identity> {
    if account in chain then Some(chain[account]) else None
  }

  predicate Readable(identity: Identity) {
    identity.judgements != []
  }

  function Registrar(identity: Identity): nat
    requires Readable(identity)
  {
    identity.judgements[0].registrar
  }

  /** Whether the identity on the chain stays although the relay offers `incoming`. */
  predicate Keeps(current: Identity, incoming: Identity, local: nat)
    requires Readable(current) && Readable(incoming)
  {
    HasPriority(Some(Registrar(current)), local, Registrar(incoming)) || incoming.info == current.info
  }

  predicate AllReadable(entries: seq<Entry>) {
    forall e :: e in entries ==> Readable(e.identity)
  }

  /** `identitiesToAdd`: the offered entries that are new or not kept out. */
  function ToAdd(chain: Chain, offered: seq<Entry>, local: nat): Result<seq<Entry>, Fault>
    requires AllReadable(offered)
  {
    if offered == [] then Ok([])
    else
      var e := offered[0];
      assert e in offered && forall x :: x in offered[1..] ==> x in offered;
      var current := Lookup(chain, e.account);
      if current.Some? && !Readable(current.value) then Err(NoJudgement(e.account))
      else
        var rest := ToAdd(chain, offered[1..], local);
        if current.Some? && Keeps(current.value, e.identity, local) then rest else Prefixed([e], rest)
  }

  function Prefixed(p: seq<Entry>, r: Result<seq<Entry>, Fault>): Result<seq<Entry>, Fault> {
    if r.Ok? then Ok(p + r.value) else r
  }

  lemma PrefixedTwice(p: seq<Entry>, e: Entry, r: Result<seq<Entry>, Fault>)
    ensures Prefixed(p, Prefixed([e], r)) == Prefixed(p + [e], r)
  {
    if r.Ok? {
      assert p + ([e] + r.value) == (p + [e]) + r.value;
    }
  }

  /** `entries` lists the chain, in any order. */
  ghost predicate Lists(entries: seq<Entry>, chain: Chain) {
    forall account :: Find(entries, account) == Lookup(chain, account)
  }

  /** The cross-referencing loop. It also remembers the registrar of every offered account that
      was found. */
  method CrossReference(offered: seq<Entry>, onChain: seq<Entry>, ghost chain: Chain, local: nat)
    returns (r: Result<seq<Entry>, Fault>, registrars: map<Account, nat>)
    requires AllReadable(offered) && Lists(onChain, chain)
    ensures r == ToAdd(chain, offered, local)
    ensures r.Ok? ==> forall a ::
              && (a in registrars <==> a in chain && Find(offered, a).Some?)
              && (a in registrars ==>
                    chain[a].judgements != [] && registrars[a] == chain[a].judgements[0].registrar)
  {
    hide HasPriority, Find;
    var toAdd: seq<Entry> := [];
    registrars := map[];
    NothingFound();
    assert offered[0..] == offered;
    ghost var all := ToAdd(chain, offered, local);
    assert all.Ok? ==> toAdd + all.value == all.value;
    for i := 0 to |offered|
      invariant AllReadable(offered[i..])
      invariant ToAdd(chain, offered, local) == Prefixed(toAdd, ToAdd(chain, offered[i..], local))
      invariant forall a :: a in registrars <==> a in chain && Find(offered[..i], a).Some?
      invariant forall a :: a in registrars ==> Readable(chain[a]) && registrars[a] == Registrar(chain[a])
    {
      var e := offered[i];
      assert e in offered && offered[i..][1..] == offered[i + 1..];
      PrefixedTwice(toAdd, e, ToAdd(chain, offered[i + 1..], local));
      FindAppend(offered[..i], e);
      assert offered[..i + 1] == offered[..i] + [e];
      var identity := Find(onChain, e.account);
      var skip := false;
      if identity.Some? {
        if identity.value.judgements == [] {
          return Err(NoJudgement(e.account)), registrars;
        }
        var registrar := identity.value.judgements[0].registrar;
        registrars := registrars[e.account := registrar];
        if HasPriority(Some(registrar), local, e.identity.judgements[0].registrar)
           || e.identity.info == identity.value.info {
          skip := true;
        }
      }
      if !skip {
        toAdd := toAdd + [e];
      }
    }
    assert offered[..|offered|] == offered;
    assert toAdd + [] == toAdd;
    r := Ok(toAdd);
  }

  lemma NothingFound()
    ensures forall a :: Find([], a) == None
  {
  }

  lemma {:induction false} FindAppend(entries: seq<Entry>, e: Entry)
    ensures forall a :: Find(entries + [e], a).Some? <==> Find(entries, a).Some? || e.account == a
  {
    if entries == [] {
      assert entries + [e] == [e];
      forall a ensures Find([e], a).Some? <==> e.account == a {
        assert [e][1..] == [];
      }
    } else {
      assert (entries + [e])[1..] == entries[1..] + [e];
      FindAppend(entries[1..], e);
    }
  }

  // ----- one synchronisation run -----

  /** `force_insert_identities`: the entries are written one after another. */
  function Insert(chain: Chain, entries: seq<Entry>): Chain
    decreases |entries|
  {
    if entries == [] then chain
    else Insert(chain[entries[0].account := entries[0].identity], entries[1..])
  }

  /** A relay chain with its address format number and its identities. */
  datatype Relay = Relay(id: nat, identities: seq<Entry>)

  ghost predicate DistinctAccounts(entries: seq<Entry>) {
    forall i, j :: 0 <= i < j < |entries| ==> entries[i].account != entries[j].account
  }

  function Offer(relay: Relay): (offered: seq<Entry>)
    ensures AllReadable(offered)
  {
    ConfirmedFacts(relay.identities, relay.id);
    Confirmed(relay.identities, relay.id)
  }

  lemma {:induction false} ConfirmedFacts(identities: seq<Entry>, relay: nat)
    ensures forall e :: e in Confirmed(identities, relay) ==>
              && Readable(e.identity) && Registrar(e.identity) == relay
              && exists x :: x in identities && x.account == e.account
    ensures DistinctAccounts(identities) ==> DistinctAccounts(Confirmed(identities, relay))
  {
    if identities != [] {
      var rest := identities[1..];
      ConfirmedFacts(rest, relay);
      assert identities == [identities[0]] + rest;
      if DistinctAccounts(identities) {
        DistinctHead(identities);
      }
    }
  }

  /** An account is offered exactly when the relay holds a confirmed identity for it, with the same
      information, one judgement in the relay's own name, and KnownGood before Reasonable. */
  lemma OfferExactly(relay: Relay, a: Account)
    requires DistinctAccounts(relay.identities)
    ensures Find(Offer(relay), a).Some? <==>
            Find(relay.identities, a).Some? &&
            exists j :: j in Find(relay.identities, a).value.judgements && j.verdict in {Reasonable, KnownGood}
    ensures Find(Offer(relay), a).Some? ==>
              var theirs, ours := Find(relay.identities, a).value, Find(Offer(relay), a).value;
              && ours.info == theirs.info
              && |ours.judgements| == 1 && ours.judgements[0].registrar == relay.id
              && ours.judgements[0].verdict in {Reasonable, KnownGood}
              && (ours.judgements[0].verdict == KnownGood <==>
                  exists j :: j in theirs.judgements && j.verdict == KnownGood)
  {
    ConfirmedAt(relay.identities, relay.id, a);
  }

  lemma {:induction false} ConfirmedAt(identities: seq<Entry>, relay: nat, a: Account)
    requires DistinctAccounts(identities)
    ensures var theirs := Find(identities, a);
            Find(Confirmed(identities, relay), a) ==
            if theirs.Some? && (Judged(theirs.value, Reasonable) || Judged(theirs.value, KnownGood))
            then Some(Stamped(theirs.value, relay)) else None
  {
    if identities != [] {
      hide Judged;
      var e, rest := identities[0], identities[1..];
      ConfirmedAt(rest, relay, a);
      FindMember(rest, a);
      DistinctHead(identities);
      assert (Vetted(e, relay) + Confirmed(rest, relay))[|Vetted(e, relay)|..] == Confirmed(rest, relay);
    }
  }

  lemma DistinctHead(entries: seq<Entry>)
    requires entries != [] && DistinctAccounts(entries)
    ensures DistinctAccounts(entries[1..]) && forall x :: x in entries[1..] ==> x.account != entries[0].account
  {
  }

  /** One run of the script against one relay, with its preimage carried out. */
  function Sync(chain: Chain, relay: Relay, local: nat): Result<Chain, Fault> {
    var add :- ToAdd(chain, Offer(relay), local);
    Ok(Insert(chain, add))
  }

  /** What one account's entry becomes. */
  function Merge(current: Option<Identity>, incoming: Option<Identity>, local: nat): Option<Identity>
    requires incoming.Some? ==> Readable(incoming.value) && (current.Some? ==> Readable(current.value))
  {
    if incoming.None? then current
    else if current.Some? && Keeps(current.value, incoming.value, local) then current
    else incoming
  }

  lemma {:induction false} FindMember(entries: seq<Entry>, a: Account)
    ensures Find(entries, a).Some? ==> Entry(a, Find(entries, a).value) in entries
    ensures Find(entries, a).None? ==> forall e :: e in entries ==> e.account != a
    ensures DistinctAccounts(entries) ==>
              forall e :: e in entries && e.account == a ==> Find(entries, a) == Some(e.identity)
  {
    if entries != [] {
      FindMember(entries[1..], a);
      assert entries == [entries[0]] + entries[1..];
    }
  }

  lemma {:induction false} InsertAt(chain: Chain, entries: seq<Entry>, a: Account)
    requires DistinctAccounts(entries)
    ensures Lookup(Insert(chain, entries), a) ==
            if Find(entries, a).Some? then Find(entries, a) else Lookup(chain, a)
    decreases |entries|
  {
    if entries != [] {
      InsertAt(chain[entries[0].account := entries[0].identity], entries[1..], a);
      FindMember(entries[1..], a);
    }
  }

  /** The offered accounts found on the chain all carry a judgement. */
  ghost predicate NoFault(chain: Chain, offered: seq<Entry>) {
    forall e :: e in offered && e.account in chain ==> Readable(chain[e.account])
  }

  lemma {:induction false} ToAddFaults(chain: Chain, offered: seq<Entry>, local: nat)
    requires AllReadable(offered)
    ensures ToAdd(chain, offered, local).Ok? <==> NoFault(chain, offered)
  {
    if offered != [] {
      hide Keeps, Readable;
      assert offered == [offered[0]] + offered[1..];
      ToAddFaults(chain, offered[1..], local);
    }
  }

  /** An offered entry that is new, or not kept out by the one on the chain. */
  predicate Wanted(chain: Chain, e: Entry, local: nat)
    requires Readable(e.identity) && (e.account in chain ==> Readable(chain[e.account]))
  {
    !(e.account in chain && Keeps(chain[e.account], e.identity, local))
  }

  lemma {:induction false} ToAddMembers(chain: Chain, offered: seq<Entry>, local: nat)
    requires AllReadable(offered) && NoFault(chain, offered)
    ensures ToAdd(chain, offered, local).Ok?
    ensures forall e :: e in ToAdd(chain, offered, local).value <==> e in offered && Wanted(chain, e, local)
  {
    ToAddFaults(chain, offered, local);
    if offered != [] {
      hide Keeps;
      var e, rest := offered[0], offered[1..];
      assert offered == [e] + rest;
      ToAddMembers(chain, rest, local);
      var current := Lookup(chain, e.account);
      assert Wanted(chain, e, local) <==> !(current.Some? && Keeps(current.value, e.identity, local));
    }
  }

  lemma {:induction false} ToAddDistinct(chain: Chain, offered: seq<Entry>, local: nat)
    requires AllReadable(offered) && NoFault(chain, offered) && DistinctAccounts(offered)
    ensures ToAdd(chain, offered, local).Ok? && DistinctAccounts(ToAdd(chain, offered, local).value)
  {
    ToAddMembers(chain, offered, local);
    if offered != [] {
      hide Keeps, Readable, Wanted;
      var e, rest := offered[0], offered[1..];
      assert offered == [e] + rest;
      ToAddMembers(chain, rest, local);
      ToAddDistinct(chain, rest, local);
      DistinctHead(offered);
      DistinctCons(e, ToAdd(chain, rest, local).value);
    }
  }

  lemma DistinctCons(e: Entry, rest: seq<Entry>)
    requires DistinctAccounts(rest) && forall x :: x in rest ==> x.account != e.account
    ensures DistinctAccounts([e] + rest)
  {
  }

  ghost predicate WellFormed(relay: Relay) {
    DistinctAccounts(relay.identities)
  }

  /** A run fails exactly when it meets an unjudged identity; otherwise every account's entry is
      merged on its own. */
  lemma SyncPointwise(chain: Chain, relay: Relay, local: nat)
    requires WellFormed(relay)
    ensures Sync(chain, relay, local).Ok? <==> NoFault(chain, Offer(relay))
    ensures Sync(chain, relay, local).Ok? ==> forall a ::
              var current, incoming := Lookup(chain, a), Find(Offer(relay), a);
              && (incoming.Some? ==> Readable(incoming.value) && (current.Some? ==> Readable(current.value)))
              && Lookup(Sync(chain, relay, local).value, a) == Merge(current, incoming, local)
  {
    var offered := Offer(relay);
    ConfirmedFacts(relay.identities, relay.id);
    ToAddFaults(chain, offered, local);
    if NoFault(chain, offered) {
      ToAddMembers(chain, offered, local);
      ToAddDistinct(chain, offered, local);
      var add := ToAdd(chain, offered, local).value;
      forall a
        ensures var current, incoming := Lookup(chain, a), Find(offered, a);
              && (incoming.Some? ==> Readable(incoming.value) && (current.Some? ==> Readable(current.value)))
              && Lookup(Insert(chain, add), a) == Merge(current, incoming, local)
      {
        InsertAt(chain, add, a);
        FindMember(add, a);
        FindMember(offered, a);
      }
    }
  }

  lemma NonEmptyHasMember(entries: seq<Entry>)
    ensures entries != [] ==> exists e :: e in entries
  {
    if entries != [] {
      assert entries[0] in entries;
    }
  }

  /** What a run does to an account the relay offers, written out: the offer is taken exactly when the
      account is new, or its information differs and its first judgement comes from id 0, or from
      neither the local chain nor an id below the relay's. */
  lemma SyncExactly(chain: Chain, relay: Relay, local: nat, a: Account)
    requires WellFormed(relay) && Sync(chain, relay, local).Ok? && Find(Offer(relay), a).Some?
    ensures var offered, after := Find(Offer(relay), a).value, Lookup(Sync(chain, relay, local).value, a);
            if a !in chain then after == Some(offered)
            else
              && chain[a].judgements != []
              && var registrar := chain[a].judgements[0].registrar;
                 if chain[a].info != offered.info && (registrar == 0 || (registrar != local && relay.id <= registrar))
                 then after == Some(offered) else after == Some(chain[a])
  {
    SyncPointwise(chain, relay, local);
    ConfirmedFacts(relay.identities, relay.id);
    FindMember(Offer(relay), a);
    var current := Lookup(chain, a);
    assert current.Some? ==> Readable(current.value);
  }

  /** An account the relay does not offer keeps its entry. */
  lemma SyncElsewhere(chain: Chain, relay: Relay, local: nat, a: Account)
    requires WellFormed(relay) && Sync(chain, relay, local).Ok? && Find(Offer(relay), a).None?
    ensures Lookup(Sync(chain, relay, local).value, a) == Lookup(chain, a)
  {
    SyncPointwise(chain, relay, local);
  }

  /** The selection goes through the offers one after another: what is added for a list is what is
      added for its parts, in order. */
  lemma {:induction false} ToAddInOrder(chain: Chain, p: seq<Entry>, q: seq<Entry>, local: nat)
    requires AllReadable(p) && AllReadable(q) && NoFault(chain, p) && NoFault(chain, q)
    ensures AllReadable(p + q) && ToAdd(chain, p + q, local).Ok?
    ensures ToAdd(chain, p, local).Ok? && ToAdd(chain, q, local).Ok?
    ensures ToAdd(chain, p + q, local).value == ToAdd(chain, p, local).value + ToAdd(chain, q, local).value
    decreases |p|
  {
    hide AllReadable, NoFault, Wanted, ToAdd;
    Together(chain, p, q);
    ToAddFaults(chain, p + q, local);
    ToAddFaults(chain, p, local);
    ToAddFaults(chain, q, local);
    var back := ToAdd(chain, q, local).value;
    if p == [] {
      ToAddNothing(chain, p, local);
      assert p + q == q && [] + back == back;
    } else {
      var e, rest := p[0], p[1..];
      assert p + q == [e] + (rest + q) && p == [e] + rest;
      Apart(chain, e, rest);
      Together(chain, rest, q);
      ToAddInOrder(chain, rest, q, local);
      ToAddFirst(chain, e, rest, local);
      ToAddFirst(chain, e, rest + q, local);
      var first := if Wanted(chain, e, local) then [e] else [];
      var front := ToAdd(chain, rest, local).value;
      assert first + (front + back) == (first + front) + back;
    }
  }

  lemma Together(chain: Chain, p: seq<Entry>, q: seq<Entry>)
    requires AllReadable(p) && AllReadable(q) && NoFault(chain, p) && NoFault(chain, q)
    ensures AllReadable(p + q) && NoFault(chain, p + q)
  {
  }

  lemma Apart(chain: Chain, e: Entry, rest: seq<Entry>)
    requires AllReadable([e] + rest) && NoFault(chain, [e] + rest)
    ensures Readable(e.identity) && (e.account in chain ==> Readable(chain[e.account]))
    ensures AllReadable(rest) && NoFault(chain, rest)
  {
    assert e in [e] + rest;
  }

  lemma ToAddNothing(chain: Chain, none: seq<Entry>, local: nat)
    requires none == []
    ensures AllReadable(none) && ToAdd(chain, none, local) == Ok([])
  {
  }

  lemma ToAddFirst(chain: Chain, e: Entry, rest: seq<Entry>, local: nat)
    requires AllReadable([e] + rest) && NoFault(chain, [e] + rest)
    ensures AllReadable(rest) && ToAdd(chain, [e] + rest, local).Ok? && ToAdd(chain, rest, local).Ok?
    ensures Readable(e.identity) && (e.account in chain ==> Readable(chain[e.account]))
    ensures ToAdd(chain, [e] + rest, local).value ==
            (if Wanted(chain, e, local) then [e] else []) + ToAdd(chain, rest, local).value
  {
    hide Keeps;
    ToAddFaults(chain, [e] + rest, local);
    assert ([e] + rest)[1..] == rest && e in [e] + rest;
    ToAddFaults(chain, rest, local);
    assert [] + ToAdd(chain, rest, local).value == ToAdd(chain, rest, local).value;
  }

  /** Likewise for what a relay offers. */
  lemma {:induction false} ConfirmedInOrder(p: seq<Entry>, q: seq<Entry>, relay: nat)
    ensures Confirmed(p + q, relay) == Confirmed(p, relay) + Confirmed(q, relay)
    decreases |p|
  {
    hide Vetted;
    if p == [] {
      assert p + q == q;
    } else {
      assert (p + q)[0] == p[0] && (p + q)[1..] == p[1..] + q;
      ConfirmedInOrder(p[1..], q, relay);
      var first, front, back := Vetted(p[0], relay), Confirmed(p[1..], relay), Confirmed(q, relay);
      assert first + (front + back) == (first + front) + back;
    }
  }

  /** Repeating a run against the same relay finds nothing left to add. */
  lemma SyncIdempotent(chain: Chain, relay: Relay, local: nat)
    requires WellFormed(relay) && Sync(chain, relay, local).Ok?
    ensures ToAdd(Sync(chain, relay, local).value, Offer(relay), local) == Ok([])
    ensures Sync(Sync(chain, relay, local).value, relay, local) == Sync(chain, relay, local)
  {
    var offered, after := Offer(relay), Sync(chain, relay, local).value;
    ConfirmedFacts(relay.identities, relay.id);
    SyncPointwise(chain, relay, local);
    forall e | e in offered
      ensures e.account in after && Readable(after[e.account]) && Keeps(after[e.account], e.identity, local)
    {
      FindMember(offered, e.account);
      assert Lookup(after, e.account).Some?;
    }
    ToAddMembers(after, offered, local);
    NonEmptyHasMember(ToAdd(after, offered, local).value);
  }

  /** A run never replaces local data, nor data from a more important relay: a non-zero registrar
      id can only give way to a smaller or equal one. */
  lemma SyncMonotone(chain: Chain, relay: Relay, local: nat, a: Account)
    requires WellFormed(relay) && Sync(chain, relay, local).Ok?
    requires a in chain && Readable(chain[a])
    ensures var after := Sync(chain, relay, local).value;
            && a in after && Readable(after[a])
            && (local != 0 && Registrar(chain[a]) == local ==> after[a] == chain[a])
            && (Registrar(chain[a]) != 0 ==> Registrar(after[a]) <= Registrar(chain[a]))
            && (after[a] == chain[a] || after[a].info != chain[a].info)
  {
    SyncPointwise(chain, relay, local);
    ConfirmedFacts(relay.identities, relay.id);
    FindMember(Offer(relay), a);
    assert Lookup(chain, a).Some?;
    assert Lookup(Sync(chain, relay, local).value, a).Some?;
  }
}
