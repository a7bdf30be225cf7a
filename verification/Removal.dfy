/** Removing failed accounts by index, as `distributeBalance` of
    js-packages/scripts/transfer.nload.ts does it: the recorded indices are walked backwards and
    each is spliced out of the array as it then is. */
module Removal {
  import opened Common

  /** `array.splice(i, 1)`; an index past the end removes nothing. */
  function Splice<T>(s: seq<T>, i: nat): seq<T> {
    if i < |s| then s[..i] + s[i + 1..] else s
  }

  function SpliceAll<T>(s: seq<T>, indices: seq<nat>): seq<T>
    decreases |indices|
  {
    if indices == [] then s else SpliceAll(Splice(s, indices[0]), indices[1..])
  }

  function Reversed<T>(s: seq<T>): seq<T> {
    seq(|s|, i requires 0 <= i < |s| => s[|s| - 1 - i])
  }

  /** The closing loop of `distributeBalance`. */
  method RemoveFailed<T>(accounts: seq<T>, failed: seq<nat>) returns (left: seq<T>)
    ensures left == SpliceAll(accounts, Reversed(failed))
  {
    var order := Reversed(failed);
    left := accounts;
    for k := 0 to |order|
      invariant SpliceAll(left, order[k..]) == SpliceAll(accounts, order)
    {
      assert order[k..][1..] == order[k + 1..];
      left := Splice(left, order[k]);
    }
  }

  // ----- what the loop is meant to compute -----

  /** The elements of `s` that do not occur in `drop`, in order. */
  function Without(s: seq<nat>, drop: seq<nat>): seq<nat> {
    if s == [] then [] else (if s[0] in drop then [] else [s[0]]) + Without(s[1..], drop)
  }

  function Indices(n: nat): seq<nat> {
    seq(n, i => i)
  }

  predicate Below(s: seq<nat>, n: nat) {
    forall k :: 0 <= k < |s| ==> s[k] < n
  }

  function Select<T>(s: seq<T>, indices: seq<nat>): seq<T>
    requires Below(indices, |s|)
  {
    seq(|indices|, k requires 0 <= k < |indices| => s[indices[k]])
  }

  /** The accounts whose index was not recorded, in order. */
  function Survivors<T>(accounts: seq<T>, failed: seq<nat>): seq<T> {
    WithoutBelow(Indices(|accounts|), failed, |accounts|);
    Select(accounts, Without(Indices(|accounts|), failed))
  }

  ghost predicate Decreasing(s: seq<nat>) {
    forall i, j :: 0 <= i < j < |s| ==> s[i] > s[j]
  }

  lemma {:induction false} WithoutBelow(s: seq<nat>, drop: seq<nat>, n: nat)
    requires Below(s, n)
    ensures Below(Without(s, drop), n)
  {
    if s != [] {
      WithoutBelow(s[1..], drop, n);
    }
  }

  // ----- splicing commutes with selecting -----

  lemma {:induction false} SpliceAllBelow(s: seq<nat>, indices: seq<nat>, n: nat)
    requires Below(s, n)
    ensures Below(SpliceAll(s, indices), n)
    decreases |indices|
  {
    if indices != [] {
      SpliceAllBelow(Splice(s, indices[0]), indices[1..], n);
    }
  }

  lemma {:induction false} SpliceAllSelects<T>(s: seq<T>, keep: seq<nat>, indices: seq<nat>)
    requires Below(keep, |s|)
    ensures Below(SpliceAll(keep, indices), |s|)
    ensures SpliceAll(Select(s, keep), indices) == Select(s, SpliceAll(keep, indices))
    decreases |indices|
  {
    SpliceAllBelow(keep, indices, |s|);
    if indices != [] {
      var i := indices[0];
      assert Splice(Select(s, keep), i) == Select(s, Splice(keep, i));
      SpliceAllSelects(s, Splice(keep, i), indices[1..]);
    }
  }

  lemma SpliceAllByIndex<T>(s: seq<T>, indices: seq<nat>)
    ensures Below(SpliceAll(Indices(|s|), indices), |s|)
    ensures SpliceAll(s, indices) == Select(s, SpliceAll(Indices(|s|), indices))
  {
    assert Select(s, Indices(|s|)) == s;
    SpliceAllSelects(s, Indices(|s|), indices);
  }

  // ----- removing from the back is right -----

  lemma {:induction false} WithoutAppend(p: seq<nat>, q: seq<nat>, drop: seq<nat>)
    ensures Without(p + q, drop) == Without(p, drop) + Without(q, drop)
    decreases |p|
  {
    if p == [] {
      assert p + q == q;
    } else {
      assert (p + q)[1..] == p[1..] + q;
      WithoutAppend(p[1..], q, drop);
    }
  }

  lemma {:induction false} WithoutNone(s: seq<nat>, drop: seq<nat>)
    requires forall x :: x in s ==> x !in drop
    ensures Without(s, drop) == s
  {
    if s != [] {
      assert s[0] in s;
      assert forall x :: x in s[1..] ==> x in s;
      WithoutNone(s[1..], drop);
    }
  }

  lemma {:induction false} WithoutTwice(s: seq<nat>, h: nat, t: seq<nat>)
    ensures Without(Without(s, [h]), t) == Without(s, [h] + t)
  {
    if s != [] {
      WithoutTwice(s[1..], h, t);
      var first := if s[0] in [h] then [] else [s[0]];
      WithoutAppend(first, Without(s[1..], [h]), t);
      if s[0] != h {
        assert Without([s[0]], t) == if s[0] in t then [] else [s[0]];
      }
    }
  }

  /** Dropping the value at position i of a duplicate-free list is splicing at i. */
  lemma {:induction false} WithoutOne(s: seq<nat>, i: nat)
    requires Distinct(s) && i < |s|
    ensures Without(s, [s[i]]) == Splice(s, i)
    decreases i
  {
    if i == 0 {
      WithoutNone(s[1..], [s[0]]);
    } else {
      WithoutOne(s[1..], i - 1);
      assert s[0] != s[i] && s[1..][i - 1] == s[i];
      assert [s[0]] + Splice(s[1..], i - 1) == Splice(s, i);
    }
  }

  /** The elements up to position n are their own positions. */
  ghost predicate FrontIntact(s: seq<nat>, n: nat) {
    n < |s| && forall i :: 0 <= i <= n ==> s[i] == i
  }

  lemma SpliceKeepsFront(s: seq<nat>, h: nat)
    requires Increasing(s) && h < |s|
    ensures Increasing(Splice(s, h))
    ensures FrontIntact(s, h) ==> forall n :: 0 <= n < h ==> FrontIntact(Splice(s, h), n)
  {
  }

  lemma DecreasingTail(r: seq<nat>)
    requires Decreasing(r) && r != []
    ensures Decreasing(r[1..]) && (r[1..] != [] ==> r[1..][0] < r[0])
  {
  }

  lemma {:induction false} SpliceAllFromTheBack(s: seq<nat>, r: seq<nat>)
    requires Increasing(s) && Decreasing(r)
    requires r != [] ==> FrontIntact(s, r[0])
    ensures SpliceAll(s, r) == Without(s, r)
    decreases |r|
  {
    if r == [] {
      WithoutNone(s, r);
    } else {
      var h, t := r[0], r[1..];
      assert r == [h] + t && s[h] == h;
      DecreasingTail(r);
      SpliceKeepsFront(s, h);
      IncreasingIsDistinct(s);
      hide Splice, Without, Increasing, Decreasing, Distinct, FrontIntact;
      WithoutOne(s, h);
      WithoutTwice(s, h, t);
      SpliceAllFromTheBack(Splice(s, h), t);
    }
  }

  lemma IncreasingIsDistinct(s: seq<nat>)
    requires Increasing(s)
    ensures Distinct(s)
  {
  }

  // ----- any other order is wrong -----

  function Sum(s: seq<nat>): nat {
    if s == [] then 0 else s[0] + Sum(s[1..])
  }

  lemma {:induction false} SumAppend(p: seq<nat>, q: seq<nat>)
    ensures Sum(p + q) == Sum(p) + Sum(q)
    decreases |p|
  {
    if p == [] {
      assert p + q == q;
    } else {
      assert (p + q)[1..] == p[1..] + q;
      SumAppend(p[1..], q);
    }
  }

  lemma SumSplice(s: seq<nat>, i: nat)
    requires i < |s|
    ensures Sum(Splice(s, i)) + s[i] == Sum(s)
  {
    SumAppend(s[..i], s[i + 1..]);
    SumAppend(s[..i], s[i..]);
    assert s == s[..i] + s[i..];
    assert s[i..][1..] == s[i + 1..];
  }

  lemma SpliceDistinct(s: seq<nat>, i: nat)
    requires Distinct(s) && i < |s|
    ensures Distinct(Splice(s, i))
  {
  }

  lemma MembersLeft(s: seq<nat>, i: nat, r: seq<nat>)
    requires Distinct(r) && i < |s| && r != [] && s[i] == r[0]
    requires forall x :: x in r ==> x in s
    ensures forall x :: x in r[1..] ==> x in Splice(s, i)
  {
    forall x | x in r[1..] ensures x in Splice(s, i) {
      assert x in r && x != r[0];
      var k :| 0 <= k < |s| && s[k] == x;
      assert Splice(s, i)[if k < i then k else k - 1] == x;
    }
  }

  /** Dropping distinct members shortens a list, and lowers its sum, by exactly what is dropped. */
  lemma {:induction false} WithoutMeasures(s: seq<nat>, r: seq<nat>)
    requires Distinct(s) && Distinct(r) && forall x :: x in r ==> x in s
    ensures |Without(s, r)| + |r| == |s|
    ensures Sum(Without(s, r)) + Sum(r) == Sum(s)
    decreases |r|
  {
    if r == [] {
      WithoutNone(s, r);
    } else {
      var h, t := r[0], r[1..];
      assert r == [h] + t && h in r;
      assert Distinct(t);
      var i :| 0 <= i < |s| && s[i] == h;
      hide Without, Distinct;
      WithoutOne(s, i);
      WithoutTwice(s, h, t);
      SumSplice(s, i);
      SpliceDistinct(s, i);
      MembersLeft(s, i, r);
      WithoutMeasures(Splice(s, i), t);
    }
  }

  /** Increasing, so no element is smaller than its position. */
  ghost predicate Spread(s: seq<nat>) {
    Increasing(s) && forall i :: 0 <= i < |s| ==> i <= s[i]
  }

  lemma SpliceSpread(s: seq<nat>, h: nat)
    requires Spread(s) && h < |s|
    ensures Spread(Splice(s, h))
    ensures forall k :: h <= k < |s| - 1 ==> k < Splice(s, h)[k]
  {
  }

  /** A splice removes a value no smaller than its index. If all of them take effect and together
      remove exactly the sum of the indices, the indices came in decreasing order. */
  lemma {:induction false} SpliceAllMeasures(s: seq<nat>, r: seq<nat>)
    requires Spread(s)
    requires |SpliceAll(s, r)| + |r| <= |s|
    ensures Sum(SpliceAll(s, r)) + Sum(r) <= Sum(s)
    ensures Sum(SpliceAll(s, r)) + Sum(r) == Sum(s) ==>
              Decreasing(r) && (r != [] ==> r[0] < |s| && s[r[0]] == r[0])
    decreases |r|
  {
    if r != [] {
      var h, t := r[0], r[1..];
      SpliceAllLength(Splice(s, h), t);
      assert h < |s|;
      SumSplice(s, h);
      SpliceSpread(s, h);
      SpliceAllMeasures(Splice(s, h), t);
      if Decreasing(t) && (t != [] ==> t[0] < h) {
        DecreasingCons(h, t);
        assert r == [h] + t;
      }
    }
  }

  lemma DecreasingCons(h: nat, t: seq<nat>)
    requires Decreasing(t) && (t != [] ==> t[0] < h)
    ensures Decreasing([h] + t)
  {
  }

  lemma {:induction false} SpliceAllLength<T>(s: seq<T>, r: seq<nat>)
    ensures |SpliceAll(s, r)| + |r| >= |s|
    decreases |r|
  {
    if r != [] {
      SpliceAllLength(Splice(s, r[0]), r[1..]);
    }
  }

  // ----- the exact condition -----

  lemma ReversedOrder(s: seq<nat>)
    ensures Increasing(s) <==> Decreasing(Reversed(s))
  {
    var r := Reversed(s);
    if Decreasing(r) {
      forall i, j | 0 <= i < j < |s| ensures s[i] < s[j] {
        assert r[|s| - 1 - j] == s[j] && r[|s| - 1 - i] == s[i];
      }
    }
  }

  lemma {:induction false} WithoutSameMembers(s: seq<nat>, d: seq<nat>, e: seq<nat>)
    requires forall x :: x in d <==> x in e
    ensures Without(s, d) == Without(s, e)
  {
    if s != [] {
      WithoutSameMembers(s[1..], d, e);
    }
  }

  lemma ReversedMembers(s: seq<nat>)
    ensures forall x :: x in Reversed(s) <==> x in s
    ensures Distinct(s) ==> Distinct(Reversed(s))
  {
    var r := Reversed(s);
    forall x | x in s ensures x in r {
      var i :| 0 <= i < |s| && s[i] == x;
      assert r[|s| - 1 - i] == x;
    }
  }

  /** When the failures were recorded in increasing order, exactly they are removed. */
  lemma RemovalInOrder<T>(accounts: seq<T>, failed: seq<nat>)
    requires Increasing(failed) && Below(failed, |accounts|)
    ensures SpliceAll(accounts, Reversed(failed)) == Survivors(accounts, failed)
  {
    var all, r := Indices(|accounts|), Reversed(failed);
    SpliceAllByIndex(accounts, r);
    ReversedOrder(failed);
    ReversedMembers(failed);
    WithoutSameMembers(all, r, failed);
    if r != [] {
      assert r[0] in r;
    }
    SpliceAllFromTheBack(all, r);
  }

  lemma SelectInjective<T>(s: seq<T>, p: seq<nat>, q: seq<nat>)
    requires Distinct(s)
    requires Below(p, |s|) && Below(q, |s|)
    requires Select(s, p) == Select(s, q)
    ensures p == q
  {
    assert |p| == |Select(s, p)| == |Select(s, q)| == |q|;
    forall k | 0 <= k < |p| ensures p[k] == q[k] {
      assert Select(s, p)[k] == s[p[k]] && Select(s, q)[k] == s[q[k]];
    }
  }

  lemma IndexRemovalExact(n: nat, r: seq<nat>)
    requires Distinct(r) && Below(r, n)
    requires SpliceAll(Indices(n), r) == Without(Indices(n), r)
    ensures Decreasing(r)
  {
    var all := Indices(n);
    forall x | x in r ensures x in all {
      assert all[x] == x;
    }
    WithoutMeasures(all, r);
    SpliceAllMeasures(all, r);
  }

  lemma SameBelow(r: seq<nat>, s: seq<nat>, n: nat)
    requires Below(s, n) && forall x :: x in r <==> x in s
    ensures Below(r, n)
  {
    forall k | 0 <= k < |r| ensures r[k] < n {
      assert r[k] in r && r[k] in s;
    }
  }

  /** With distinct accounts that order is also necessary: recorded in any other order, the loop
      removes the wrong accounts. */
  lemma RemovalExact<T>(accounts: seq<T>, failed: seq<nat>)
    requires Distinct(accounts) && Distinct(failed) && Below(failed, |accounts|)
    ensures SpliceAll(accounts, Reversed(failed)) == Survivors(accounts, failed) <==> Increasing(failed)
  {
    hide SpliceAll, Without, Select, Increasing, Decreasing, Distinct, Reversed;
    if Increasing(failed) {
      RemovalInOrder(accounts, failed);
    }
    var all, r := Indices(|accounts|), Reversed(failed);
    if SpliceAll(accounts, r) == Survivors(accounts, failed) {
      SpliceAllByIndex(accounts, r);
      ReversedMembers(failed);
      WithoutSameMembers(all, r, failed);
      WithoutBelow(all, failed, |accounts|);
      SameBelow(r, failed, |accounts|);
      SelectInjective(accounts, SpliceAll(all, r), Without(all, failed));
      IndexRemovalExact(|accounts|, r);
      ReversedOrder(failed);
    }
  }
}
