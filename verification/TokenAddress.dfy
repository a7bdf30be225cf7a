/** Token addresses (`nesting.toChecksumAddress` and `nesting.tokenIdToAddress` of
    js-packages/playgrounds/unique.ts). The hash function is a parameter: nothing below depends on
    what it computes. */
module TokenAddress {
  import opened Common
  import opened Digits

  datatype Fault = InvalidAddress

  const TOKEN_PREFIX := "f8238ccfff8ed887463fd5e0"

  predicate IsHex(c: char) {
    '0' <= c <= '9' || 'a' <= c <= 'f' || 'A' <= c <= 'F'
  }

  predicate AllHex(s: string) {
    forall i :: 0 <= i < |s| ==> IsHex(s[i])
  }

  function LowerChar(c: char): char {
    if 'A' <= c <= 'Z' then (c as int - 'A' as int + 'a' as int) as char else c
  }

  function UpperChar(c: char): char {
    if 'a' <= c <= 'z' then (c as int - 'a' as int + 'A' as int) as char else c
  }

  function Lower(s: string): string {
    seq(|s|, i requires 0 <= i < |s| => LowerChar(s[i]))
  }

  predicate HasPrefix(s: string) {
    2 <= |s| && s[0] == '0' && (s[1] == 'x' || s[1] == 'X')
  }

  function Strip(s: string): string {
    if HasPrefix(s) then s[2..] else s
  }

  /** The format test: forty hexadecimal digits, with or without "0x". */
  predicate IsAddress(s: string) {
    (|s| == 40 && AllHex(s)) || (|s| == 42 && HasPrefix(s) && AllHex(s[2..]))
  }

  /** The i-th digit of a lower-case address, capitalised when the hash asks for it. */
  function Cased(digits: string, hash: string, i: nat): char
    requires i < |digits|
  {
    if i < |hash| && DigitValue(hash[i]) > 7 then UpperChar(digits[i]) else digits[i]
  }

  function Casing(digits: string, hash: string): string {
    seq(|digits|, i requires 0 <= i < |digits| => Cased(digits, hash, i))
  }

  function Checksum(address: string, hash: string -> string): Result<string, Fault> {
    if !IsAddress(address) then Err(InvalidAddress)
    else
      var digits := Strip(Lower(address));
      Ok("0x" + Casing(digits, hash(digits)))
  }

  /** `toChecksumAddress`, character by character; an absent address gives the empty string. */
  method ToChecksumAddress(given: Option<string>, hash: string -> string) returns (r: Result<string, Fault>)
    ensures r == if given.None? then Ok("") else Checksum(given.value, hash)
  {
    if given.None? {
      return Ok("");
    }
    if !IsAddress(given.value) {
      return Err(InvalidAddress);
    }
    var address := Strip(Lower(given.value));
    var addressHash := hash(address);
    var checksumAddress := "0x";
    ghost var cased := Casing(address, addressHash);
    for i := 0 to |address|
      invariant checksumAddress == "0x" + cased[..i]
    {
      assert cased[..i + 1] == cased[..i] + [Cased(address, addressHash, i)];
      if i < |addressHash| && DigitValue(addressHash[i]) > 7 {
        checksumAddress := checksumAddress + [UpperChar(address[i])];
      } else {
        checksumAddress := checksumAddress + [address[i]];
      }
    }
    assert cased[..|address|] == cased;
    r := Ok(checksumAddress);
  }

  // ----- casing carries no information -----

  lemma HexCases(c: char)
    requires IsHex(c)
    ensures IsHex(LowerChar(c)) && IsHex(UpperChar(c)) && LowerChar(UpperChar(LowerChar(c))) == LowerChar(c)
    ensures DigitValue(LowerChar(c)) == DigitValue(c) && LowerChar(LowerChar(c)) == LowerChar(c)
    ensures c != 'x' && c != 'X'
  {
  }

  /** Lower-case digits of a valid address: forty of them. */
  lemma StripLower(address: string)
    requires IsAddress(address)
    ensures var d := Strip(Lower(address)); |d| == 40 && AllHex(d) && d == Lower(Strip(address)) && Lower(d) == d
  {
    if |address| == 40 {
      HexCases(address[1]);
    }
    var digits := Strip(address);
    assert |digits| == 40 && AllHex(digits);
    assert HasPrefix(Lower(address)) <==> HasPrefix(address);
    assert Strip(Lower(address)) == Lower(digits);
    forall i | 0 <= i < 40
      ensures IsHex(Lower(digits)[i]) && Lower(Lower(digits))[i] == Lower(digits)[i]
    {
      HexCases(digits[i]);
    }
  }

  lemma CasingKeepsDigits(digits: string, hash: string)
    requires AllHex(digits) && Lower(digits) == digits
    ensures AllHex(Casing(digits, hash)) && Lower(Casing(digits, hash)) == digits
  {
    forall i | 0 <= i < |digits|
      ensures IsHex(Casing(digits, hash)[i]) && Lower(Casing(digits, hash))[i] == digits[i]
    {
      HexCases(digits[i]);
      assert digits[i] == Lower(digits)[i] == LowerChar(digits[i]);
    }
  }

  lemma {:induction false} ReadLower(s: string)
    requires AllHex(s)
    ensures Read(Lower(s), 16) == Read(s, 16)
  {
    if s != [] {
      hide DigitValue, LowerChar, Joined;
      var init := s[..|s| - 1];
      assert Lower(s)[..|s| - 1] == Lower(init);
      ReadLower(init);
      HexCases(s[|s| - 1]);
    }
  }

  /** The checksum accepts exactly the well-formed addresses, and its result is again a
      well-formed address with the same digits up to case. */
  lemma ChecksumKeepsAddress(address: string, hash: string -> string)
    ensures Checksum(address, hash).Ok? <==> IsAddress(address)
    ensures Checksum(address, hash).Ok? ==>
              var r := Checksum(address, hash).value;
              && IsAddress(r) && |r| == 42
              && Lower(r[2..]) == Lower(Strip(address))
  {
    if IsAddress(address) {
      var digits := Strip(Lower(address));
      StripLower(address);
      CasingKeepsDigits(digits, hash(digits));
      assert Checksum(address, hash).value[2..] == Casing(digits, hash(digits));
    }
  }

  /** Which texts are accepted, written out: forty hexadecimal digits of either case after "0x", "0X"
      or nothing. The result starts with "0x". */
  lemma AcceptedExactly(address: string, hash: string -> string)
    ensures Checksum(address, hash).Ok? <==>
            || (|address| == 40 && forall i :: 0 <= i < 40 ==> address[i] in "0123456789abcdefABCDEF")
            || (|address| == 42 && address[..2] in {"0x", "0X"}
                && forall i :: 2 <= i < 42 ==> address[i] in "0123456789abcdefABCDEF")
    ensures Checksum(address, hash).Ok? ==> "0x" <= Checksum(address, hash).value
  {
    forall i | 0 <= i < |address|
      ensures IsHex(address[i]) <==> address[i] in "0123456789abcdefABCDEF"
    {
      HexLetters(address[i]);
    }
    if |address| == 42 {
      PrefixLetters(address);
      assert forall i :: 2 <= i < 42 ==> address[i] == address[2..][i - 2];
    }
  }

  lemma HexLetters(c: char)
    ensures IsHex(c) <==> c in "0123456789abcdefABCDEF"
  {
    assert "0123456789abcdefABCDEF" ==
      ['0', '1', '2', '3', '4', '5', '6', '7', '8', '9', 'a', 'b', 'c', 'd', 'e', 'f', 'A', 'B', 'C', 'D', 'E', 'F'];
  }

  lemma PrefixLetters(s: string)
    requires 2 <= |s|
    ensures HasPrefix(s) <==> s[..2] in {"0x", "0X"}
  {
    assert s[..2] == [s[0], s[1]];
  }

  /** Addresses that differ only in case and prefix have the same checksummed form, for any hash;
      in particular checksumming twice is checksumming once. */
  lemma ChecksumCanonical(x: string, y: string, hash: string -> string)
    requires IsAddress(x) && IsAddress(y)
    ensures Lower(Strip(x)) == Lower(Strip(y)) <==> Checksum(x, hash) == Checksum(y, hash)
    ensures Checksum(Checksum(x, hash).value, hash) == Checksum(x, hash)
  {
    StripLower(x);
    StripLower(y);
    ChecksumKeepsAddress(x, hash);
    ChecksumKeepsAddress(y, hash);
    var r := Checksum(x, hash).value;
    StripLower(r);
    assert Strip(r) == r[2..];
  }

  /** Which letters are capital is decided by the hash of the lower-case digits: those whose hash
      digit is 8 or more. */
  lemma CapitalsFollowHash(address: string, hash: string -> string, i: nat)
    requires IsAddress(address) && i < 40
    ensures var d := Lower(Strip(address));
            var r := Checksum(address, hash).value;
            && |r| == 42 && |d| == 40
            && ('A' <= r[2 + i] <= 'F' <==> 'a' <= d[i] <= 'f' && i < |hash(d)| && hash(d)[i] in "89abcdefABCDEF")
  {
    StripLower(address);
    var d := Strip(Lower(address));
    assert Checksum(address, hash).value[2 + i] == Cased(d, hash(d), i);
    HexCases(d[i]);
    assert LowerChar(d[i]) == Lower(d)[i];
    if i < |hash(d)| {
      HighDigit(hash(d)[i]);
    }
  }

  lemma HighDigit(c: char)
    ensures DigitValue(c) > 7 <==> c in "89abcdefABCDEF"
  {
    assert "89abcdefABCDEF" == ['8', '9', 'a', 'b', 'c', 'd', 'e', 'f', 'A', 'B', 'C', 'D', 'E', 'F'];
  }

  // ----- token addresses -----

  /** `n.toString(16).padStart(8, '0')`. */
  function Padded(n: int): string {
    var s := if n < 0 then "-" + Show(-n, 16) else Show(n, 16);
    if |s| < 8 then Zeros(8 - |s|) + s else s
  }

  function TokenIdToAddress(collection: int, token: int, hash: string -> string): Result<string, Fault> {
    Checksum("0x" + TOKEN_PREFIX + Padded(collection) + Padded(token), hash)
  }

  predicate IsU32(n: int) {
    0 <= n < 0x1_0000_0000
  }

  lemma PaddedU32(n: int)
    requires IsU32(n)
    ensures |Padded(n)| == 8 && AllHex(Padded(n)) && Lower(Padded(n)) == Padded(n) && Read(Padded(n), 16) == n
  {
    hide Show, Read, Joined, IsLowerDigit, LowerChar, IsHex;
    var s := Show(n, 16);
    ReadShow(n, 16);
    Pow16();
    ShowLength(n, 16, 8);
    var zeros := Zeros(8 - |s|);
    assert Padded(n) == zeros + s;
    ReadAppend(zeros, s, 16);
    ReadZeros(8 - |s|, 16);
    JoinedZero(Pow(16, |s|), n);
    forall i | 0 <= i < 8
      ensures IsHex(Padded(n)[i]) && LowerChar(Padded(n)[i]) == Padded(n)[i]
    {
      LowerDigitIsHex(if i < |zeros| then '0' else s[i - |zeros|]);
    }
  }

  lemma LowerDigitIsHex(c: char)
    requires c == '0' || IsLowerDigit(c, 16)
    ensures IsHex(c) && LowerChar(c) == c
  {
  }

  lemma Pow16()
    ensures Pow(16, 8) == 0x1_0000_0000
  {
  }

  /** An id that does not fit spoils the format: too many digits, or a minus sign. */
  lemma PaddedOther(n: int)
    requires !IsU32(n)
    ensures |Padded(n)| >= 8 && (|Padded(n)| == 8 ==> !AllHex(Padded(n)))
  {
    if n < 0 {
      var s := "-" + Show(-n, 16);
      var k := if |s| < 8 then 8 - |s| else 0;
      assert Padded(n)[k] == '-';
    } else {
      Pow16();
      ShowLength(n, 16, 8);
    }
  }

  lemma TokenDigits(c: string, t: string)
    requires |c| >= 8 && |t| >= 8
    ensures var s := "0x" + TOKEN_PREFIX + c + t;
            && Strip(s) == TOKEN_PREFIX + c + t
            && (IsAddress(s) <==> |c| == 8 && |t| == 8 && AllHex(c) && AllHex(t))
  {
    var s, d := "0x" + TOKEN_PREFIX + c + t, TOKEN_PREFIX + c + t;
    assert s == "0x" + d;
    assert s[2..] == d;
    assert AllHex(TOKEN_PREFIX);
    if AllHex(d) {
      assert forall i :: 0 <= i < |c| ==> c[i] == d[24 + i];
      assert forall i :: 0 <= i < |t| ==> t[i] == d[24 + |c| + i];
    }
  }

  /** A token has an address exactly when both ids are 32-bit, and the last sixteen digits of the
      address, read in either case, give both ids back. */
  lemma TokenAddressRoundTrip(collection: int, token: int, hash: string -> string)
    ensures TokenIdToAddress(collection, token, hash).Ok? <==> IsU32(collection) && IsU32(token)
    ensures TokenIdToAddress(collection, token, hash).Ok? ==>
              var r := TokenIdToAddress(collection, token, hash).value;
              && |r| == 42 && r[..2] == "0x" && Lower(r[2..26]) == "f8238ccfff8ed887463fd5e0"
              && Read(r[26..34], 16) == collection && Read(r[34..42], 16) == token
  {
    var c, t := Padded(collection), Padded(token);
    if IsU32(collection) { PaddedU32(collection); } else { PaddedOther(collection); }
    if IsU32(token) { PaddedU32(token); } else { PaddedOther(token); }
    var s := "0x" + TOKEN_PREFIX + c + t;
    TokenDigits(c, t);
    if IsAddress(s) {
      ChecksumKeepsAddress(s, hash);
      var r := Checksum(s, hash).value;
      TokenDigitsRead(r, c, t);
    }
  }

  lemma TokenDigitsRead(r: string, c: string, t: string)
    requires |r| == 42 && AllHex(r[2..]) && |c| == 8 && |t| == 8
    requires Lower(c) == c && Lower(t) == t
    requires Lower(r[2..]) == Lower(TOKEN_PREFIX + c + t)
    ensures Lower(r[2..26]) == "f8238ccfff8ed887463fd5e0"
    ensures Read(r[26..34], 16) == Read(c, 16) && Read(r[34..42], 16) == Read(t, 16)
  {
    var d := TOKEN_PREFIX + c + t;
    assert d[24..32] == c && d[32..40] == t;
    assert r[2..][24..32] == r[26..34] && r[2..][32..40] == r[34..42];
    LowerSlice(r[2..], 0, 24);
    LowerSlice(d, 0, 24);
    assert d[0..24] == TOKEN_PREFIX && r[2..][0..24] == r[2..26];
    PrefixIsLower();
    PartRead(r[2..], d, 24, c);
    PartRead(r[2..], d, 32, t);
  }

  lemma PrefixIsLower()
    ensures Lower(TOKEN_PREFIX) == "f8238ccfff8ed887463fd5e0"
  {
  }

  lemma PartRead(r: string, d: string, at: nat, part: string)
    requires AllHex(r) && Lower(r) == Lower(d) && at + 8 <= |r| == |d|
    requires d[at..at + 8] == part && Lower(part) == part
    ensures Read(r[at..at + 8], 16) == Read(part, 16)
  {
    LowerSlice(r, at, at + 8);
    LowerSlice(d, at, at + 8);
    ReadLower(r[at..at + 8]);
  }

  lemma LowerSlice(s: string, lo: nat, hi: nat)
    requires lo <= hi <= |s|
    ensures Lower(s[lo..hi]) == Lower(s)[lo..hi]
  {
  }
}
