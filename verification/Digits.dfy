/** Positional notation as JavaScript's `toString(radix)` prints it. */
module Digits {
  import opened Common

  function DigitChar(d: nat): char
    requires d < 16
  {
    "0123456789abcdef"[d]
  }

  /** `parseInt` of one hexadecimal digit, in either case; anything else counts as 0. */
  function DigitValue(c: char): nat {
    if '0' <= c <= '9' then c as nat - '0' as nat
    else if 'a' <= c <= 'f' then c as nat - 'a' as nat + 10
    else if 'A' <= c <= 'F' then c as nat - 'A' as nat + 10
    else 0
  }

  predicate IsLowerDigit(c: char, base: nat) {
    if '0' <= c <= '9' then c as nat - '0' as nat < base
    else 'a' <= c <= 'f' && c as nat - 'a' as nat + 10 < base
  }

  predicate AllDigits(s: string, base: nat) {
    forall i :: 0 <= i < |s| ==> IsLowerDigit(s[i], base)
  }

  function Show(n: nat, base: nat): string
    requires 2 <= base <= 16
  {
    if n < base then [DigitChar(n)]
    else
      SmallerQuotient(n, base);
      Show(n / base, base) + [DigitChar(n % base)]
  }

  /** `v` followed by something worth `d` that takes up a factor `scale`. */
  function Joined(v: nat, scale: nat, d: nat): nat {
    v * scale + d
  }

  function Read(s: string, base: nat): nat {
    if s == [] then 0 else Joined(Read(s[..|s| - 1], base), base, DigitValue(s[|s| - 1]))
  }

  function Zeros(k: nat): string {
    seq(k, _ => '0')
  }

  lemma SmallerQuotient(n: nat, base: nat)
    requires 2 <= base <= n
    ensures 0 < n / base < n
  {
  }

  lemma DigitRoundTrip(d: nat, base: nat)
    requires d < base <= 16
    ensures DigitValue(DigitChar(d)) == d && IsLowerDigit(DigitChar(d), base)
  {
  }

  lemma {:induction false} ReadShow(n: nat, base: nat)
    requires 2 <= base <= 16
    ensures Read(Show(n, base), base) == n
    ensures AllDigits(Show(n, base), base) && Show(n, base) != []
  {
    if n < base {
      DigitRoundTrip(n, base);
      assert Show(n, base)[..0] == [];
    } else {
      hide DigitValue, DigitChar, IsLowerDigit, Joined;
      SmallerQuotient(n, base);
      ReadShow(n / base, base);
      DigitRoundTrip(n % base, base);
      JoinedQuotient(n, base);
      assert Show(n, base)[..|Show(n, base)| - 1] == Show(n / base, base);
    }
  }

  /** No leading zeros. */
  lemma {:induction false} ShowFirst(n: nat, base: nat)
    requires 2 <= base <= 16
    ensures Show(n, base) != [] && (Show(n, base)[0] == '0' ==> n == 0 && Show(n, base) == "0")
  {
    if n < base {
      DigitRoundTrip(n, base);
    } else {
      SmallerQuotient(n, base);
      ShowFirst(n / base, base);
    }
  }

  lemma {:induction false} ReadAppend(p: string, q: string, base: nat)
    ensures Read(p + q, base) == Joined(Read(p, base), Pow(base, |q|), Read(q, base))
    decreases |q|
  {
    if q == [] {
      assert p + q == p;
    } else {
      hide DigitValue, Joined;
      var init, last := q[..|q| - 1], q[|q| - 1];
      assert (p + q)[..|p + q| - 1] == p + init;
      ReadAppend(p, init, base);
      JoinedTwice(Read(p, base), Pow(base, |init|), Read(init, base), base, DigitValue(last), Pow(base, |q|));
    }
  }

  lemma JoinedQuotient(n: nat, base: nat)
    requires 0 < base
    ensures Joined(n / base, base, n % base) == n
  {
  }

  lemma JoinedTwice(v: nat, scale: nat, w: nat, base: nat, d: nat, scale': nat)
    requires scale' == base * scale
    ensures Joined(Joined(v, scale, w), base, d) == Joined(v, scale', Joined(w, base, d))
  {
  }

  lemma JoinedZero(scale: nat, d: nat)
    ensures Joined(0, scale, d) == d
  {
  }

  lemma {:induction false} ReadZeros(k: nat, base: nat)
    ensures Read(Zeros(k), base) == 0
  {
    if k != 0 {
      assert Zeros(k)[..k - 1] == Zeros(k - 1);
      ReadZeros(k - 1, base);
    }
  }

  /** A number needs at most k digits exactly when it is below base^k. */
  lemma {:induction false} ShowLength(n: nat, base: nat, k: nat)
    requires 2 <= base <= 16 && 0 < k
    ensures |Show(n, base)| <= k <==> n < Pow(base, k)
    decreases k
  {
    PowPositive(base, k - 1);
    var p := Pow(base, k - 1);
    if n < base {
      ReadShow(n, base);
      MulMonotone(base, 1, p);
    } else {
      SmallerQuotient(n, base);
      ReadShow(n / base, base);
      QuotientBelow(n, base, p);
      if k != 1 {
        ShowLength(n / base, base, k - 1);
      } else {
        assert Pow(base, 1) == base * Pow(base, 0) == base;
      }
    }
  }

  lemma QuotientBelow(n: nat, base: nat, p: nat)
    requires 0 < base
    ensures n / base < p <==> n < base * p
  {
    var q := n / base;
    assert n == base * q + n % base;
    if q < p {
      MulMonotone(base, q + 1, p);
    } else {
      MulMonotone(base, p, q);
    }
  }

  lemma {:induction false} ReadBelow(s: string, base: nat)
    requires 0 < base <= 16 && AllDigits(s, base)
    ensures Read(s, base) < Pow(base, |s|)
  {
    if s != [] {
      var init := s[..|s| - 1];
      hide Joined, DigitValue, IsLowerDigit;
      ReadBelow(init, base);
      DigitBelow(s[|s| - 1], base);
      JoinedBelow(Read(init, base), base, DigitValue(s[|s| - 1]), Pow(base, |init|));
    }
  }

  lemma DigitBelow(c: char, base: nat)
    requires IsLowerDigit(c, base)
    ensures DigitValue(c) < base
  {
  }

  lemma JoinedBelow(v: nat, base: nat, d: nat, p: nat)
    requires v < p && d < base
    ensures Joined(v, base, d) < base * p
  {
    MulMonotone(base, v + 1, p);
  }
}
