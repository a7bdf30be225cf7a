/** `bigIntToDecimals` of js-packages/playgrounds/unique.ts: printing a token amount with a fixed
    number of decimals. */
module Decimals {
  import opened Common
  import opened Digits

  /** BigInt's `toString()`. */
  function ShowInt(n: int): string {
    if n < 0 then "-" + Show(-n, 10) else Show(n, 10)
  }

  function BigIntToDecimals(number: int, decimals: nat): string {
    WithDot(ShowInt(number), decimals)
  }

  /** Puts the dot `decimals` places from the end. */
  function WithDot(numberStr: string, decimals: nat): string {
    var dotPos := |numberStr| - decimals;
    if dotPos <= 0 then "0." + Zeros(-dotPos) + numberStr
    else numberStr[..dotPos] + "." + numberStr[dotPos..]
  }

  /** Position of the first dot, or the length when there is none. */
  function DotIndex(s: string): (k: nat)
    ensures k <= |s|
  {
    if s == [] || s[0] == '.' then 0 else 1 + DotIndex(s[1..])
  }

  function Whole(s: string): string {
    s[..DotIndex(s)]
  }

  function Fraction(s: string): string {
    if DotIndex(s) < |s| then s[DotIndex(s) + 1..] else ""
  }

  lemma SplitAtDot(whole: string, fraction: string)
    requires AllDigits(whole, 10)
    ensures Whole(whole + "." + fraction) == whole && Fraction(whole + "." + fraction) == fraction
  {
    var s := whole + "." + fraction;
    DotAfterDigits(whole, "." + fraction);
    assert s == whole + ("." + fraction);
  }

  lemma {:induction false} DotAfterDigits(digits: string, tail: string)
    requires AllDigits(digits, 10) && tail != [] && tail[0] == '.'
    ensures DotIndex(digits + tail) == |digits|
  {
    if digits == [] {
      assert digits + tail == tail;
    } else {
      assert (digits + tail)[1..] == digits[1..] + tail;
      DotAfterDigits(digits[1..], tail);
    }
  }

  lemma ZerosAreDigits(k: nat)
    ensures AllDigits(Zeros(k), 10) && AllDigits("0", 10)
  {
  }

  /** A printed amount reads back: it has a whole part and exactly `decimals` fractional digits,
      and the two together, scaled by 10^decimals, are the number printed. */
  lemma DecimalsRoundTrip(n: nat, decimals: nat)
    ensures var s := BigIntToDecimals(n, decimals);
            && s == Whole(s) + "." + Fraction(s)
            && Whole(s) != "" && AllDigits(Whole(s), 10) && (Whole(s)[0] == '0' ==> Whole(s) == "0")
            && |Fraction(s)| == decimals && AllDigits(Fraction(s), 10)
            && Joined(Read(Whole(s), 10), Pow(10, decimals), Read(Fraction(s), 10)) == n
  {
    hide Joined, Read, DotIndex, Whole, Fraction, IsLowerDigit, Show;
    var str := Show(n, 10);
    ReadShow(n, 10);
    var dotPos := |str| - decimals;
    if dotPos <= 0 {
      var fraction := Zeros(-dotPos) + str;
      assert BigIntToDecimals(n, decimals) == "0" + "." + fraction;
      ZerosAreDigits(0);
      SplitAtDot("0", fraction);
      ReadAppend(Zeros(-dotPos), str, 10);
      ReadZeros(-dotPos, 10);
      ReadZeros(1, 10);
      assert Zeros(1) == "0";
      JoinedZero(Pow(10, |str|), Read(str, 10));
      JoinedZero(Pow(10, decimals), n);
      ZerosAreDigits(-dotPos);
    } else {
      SplitAtDot(str[..dotPos], str[dotPos..]);
      ShowFirst(n, 10);
      ReadAppend(str[..dotPos], str[dotPos..], 10);
      assert str == str[..dotPos] + str[dotPos..];
    }
  }

  /** Reading determines the parts: the whole part is the quotient by 10^decimals, the fraction
      the remainder. */
  lemma DecimalsAreQuotientAndRemainder(n: nat, decimals: nat)
    ensures 0 < Pow(10, decimals)
    ensures var s := BigIntToDecimals(n, decimals);
            && Read(Whole(s), 10) == n / Pow(10, decimals)
            && Read(Fraction(s), 10) == n % Pow(10, decimals)
  {
    var s := BigIntToDecimals(n, decimals);
    PowPositive(10, decimals);
    DecimalsRoundTrip(n, decimals);
    ReadBelow(Fraction(s), 10);
    DivUnique(n, Pow(10, decimals), Read(Whole(s), 10), Read(Fraction(s), 10));
  }

  /** Negative amounts come out as a minus sign before the printed absolute value exactly when that
      value is at least one whole token; smaller ones are garbled. */
  lemma NegativeAmountsExact(m: int, decimals: nat)
    requires 0 < m
    ensures BigIntToDecimals(-m, decimals) == "-" + BigIntToDecimals(m, decimals) <==> Pow(10, decimals) <= m
  {
    hide WithDot, Show;
    var str := Show(m, 10);
    ReadShow(m, 10);
    SignedDot(str, decimals);
    if decimals != 0 {
      ShowLength(m, 10, decimals);
    }
  }

  lemma SignedDot(str: string, decimals: nat)
    requires str != ""
    ensures WithDot("-" + str, decimals) == "-" + WithDot(str, decimals) <==> decimals < |str|
  {
    var signed, dotPos := "-" + str, |str| - decimals;
    if decimals < |str| {
      assert signed[..dotPos + 1] == "-" + str[..dotPos] && signed[dotPos + 1..] == str[dotPos..];
      assert WithDot(signed, decimals) == ("-" + str[..dotPos]) + "." + str[dotPos..];
    } else if decimals == |str| {
      assert WithDot(signed, decimals)[1] == '.' && WithDot(str, decimals)[0] == '0';
    } else {
      assert WithDot(signed, decimals)[0] == '0';
    }
  }
}
