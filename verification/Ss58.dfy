/** JavaScript's bitwise operators on non-negative integers. */
module Bits {
  import opened Common

  function And(x: nat, y: nat): nat {
    if x == 0 || y == 0 then 0 else (if x % 2 == 1 && y % 2 == 1 then 1 else 0) + 2 * And(x / 2, y / 2)
  }

  function Or(x: nat, y: nat): nat {
    if x == 0 then y
    else if y == 0 then x
    else (if x % 2 == 1 || y % 2 == 1 then 1 else 0) + 2 * Or(x / 2, y / 2)
  }

  function ShiftRight(x: nat, k: nat): nat {
    PowPositive(2, k);
    x / Pow(2, k)
  }

  function ShiftLeft(x: nat, k: nat): nat {
    x * Pow(2, k)
  }

  lemma AndEven(x: nat, y: nat)
    ensures And(x, 2 * y) == 2 * And(x / 2, y)
  {
    assert (2 * y) / 2 == y && (2 * y) % 2 == 0;
  }

  lemma AndOdd(x: nat, y: nat)
    ensures And(x, 2 * y + 1) == x % 2 + 2 * And(x / 2, y)
  {
    assert (2 * y + 1) / 2 == y && (2 * y + 1) % 2 == 1;
  }

  /** Masking with k ones keeps the last k bits. */
  lemma {:induction false} AndOnes(x: nat, k: nat)
    ensures 0 < Pow(2, k) && And(x, Pow(2, k) - 1) == x % Pow(2, k)
    decreases k
  {
    hide And;
    PowPositive(2, k);
    if k == 0 {
      AndZero(x);
    } else {
      AndOnes(x / 2, k - 1);
      AndOdd(x, Pow(2, k - 1) - 1);
      LastBits(x, Pow(2, k - 1));
    }
  }

  lemma AndZero(x: nat)
    ensures And(x, 0) == 0
  {
  }

  lemma LastBits(x: nat, p: nat)
    requires 0 < p
    ensures x % (2 * p) == x % 2 + 2 * (x / 2 % p)
  {
    var q, r := x / 2 / p, x / 2 % p;
    assert x / 2 == p * q + r;
    assert x == (2 * p) * q + (x % 2 + 2 * r) by { assert (2 * p) * q == 2 * (p * q); }
    DivUnique(x, 2 * p, q, x % 2 + 2 * r);
  }

  /** Numbers without a common bit: "or" is addition. */
  lemma {:induction false} OrDisjoint(x: nat, y: nat, k: nat)
    requires x < Pow(2, k)
    ensures Or(x, Pow(2, k) * y) == x + Pow(2, k) * y
  {
    if k != 0 {
      hide Or;
      OrDisjoint(x / 2, y, k - 1);
      Doubled(Pow(2, k - 1), y, Pow(2, k));
      OrEven(x, Pow(2, k - 1) * y);
    }
  }

  lemma Doubled(p: nat, y: nat, p': nat)
    requires p' == 2 * p
    ensures p' * y == 2 * (p * y)
  {
  }

  lemma OrEven(x: nat, z: nat)
    ensures Or(x, 2 * z) == x % 2 + 2 * Or(x / 2, z)
  {
  }
}

/** Substrate address encoding (`encodeSubstrateAddress` of js-packages/playgrounds/unique.ts), up
    to the bytes handed to base58. The checksum hash is a parameter. */
module Ss58 {
  import opened Common
  import opened Bits

  type byte = n: nat | n < 256

  datatype Fault = InvalidFormat | InvalidKeyLength

  const KEY_LENGTHS: seq<nat> := [1, 2, 4, 8, 32, 33]

  /** The one- or two-byte network prefix. */
  function Prefix(format: int): seq<byte>
    requires 0 <= format <= 16383
  {
    if format < 64 then [format]
    else
      PackedBytes(format);
      [First(format), Second(format)]
  }

  function First(format: nat): nat {
    Or(ShiftRight(And(format, 0xfc), 2), 0x40)
  }

  function Second(format: nat): nat {
    Or(ShiftRight(format, 8), ShiftLeft(And(format, 0x03), 6))
  }

  /** In arithmetic: six middle bits behind a marker, then the two low bits in front of the high
      ones. */
  lemma PackedBytes(format: nat)
    requires format <= 16383
    ensures First(format) == 64 + format / 4 % 64
    ensures Second(format) == format / 256 + 64 * (format % 4)
    ensures First(format) < 128 && Second(format) < 256
  {
    hide And, Or, Pow;
    Powers();
    AndEven(format, 126);
    AndEven(format / 2, 63);
    assert format / 2 / 2 == format / 4;
    AndOnes(format / 4, 6);
    AndOnes(format, 2);
    OrDisjoint(format / 4 % 64, 1, 6);
    OrDisjoint(format / 256, format % 4, 6);
  }

  lemma Powers()
    ensures Pow(2, 2) == 4 && Pow(2, 6) == 64 && Pow(2, 8) == 256
  {
  }

  function ChecksumLength(keyLength: nat): nat {
    if keyLength == 32 || keyLength == 33 then 2 else 1
  }

  predicate Permitted(format: int) {
    0 <= format <= 16383 && format != 46 && format != 47
  }

  /** The bytes passed to base58. */
  function Payload(key: seq<byte>, format: int, hash: seq<byte> -> seq<byte>): Result<seq<byte>, Fault> {
    if format < 0 || format > 16383 || format in [46, 47] then Err(InvalidFormat)
    else if |key| !in KEY_LENGTHS then Err(InvalidKeyLength)
    else
      var input := Prefix(format) + key;
      var n := ChecksumLength(|key|);
      var h := hash(input);
      Ok(input + (if n <= |h| then h[..n] else h))
  }

  // ----- reading a payload back -----

  /** The key length that leaves `rest` bytes for key and checksum together. */
  function KeyLength(rest: int): Option<nat> {
    if rest == 2 then Some(1)
    else if rest == 3 then Some(2)
    else if rest == 5 then Some(4)
    else if rest == 9 then Some(8)
    else if rest == 34 then Some(32)
    else if rest == 35 then Some(33)
    else None
  }

  function TwoByteFormat(first: byte, second: byte): int {
    256 * (second % 64) + 4 * (first - 64) + second / 64
  }

  datatype Decoded = Decoded(format: int, key: seq<byte>)

  /** A reference decoder: the first byte tells the prefix length, the total length the rest. */
  function Decode(payload: seq<byte>): Option<Decoded> {
    if |payload| < 2 then None
    else
      var n := if payload[0] < 64 then 1 else 2;
      var format := if n == 1 then payload[0] else TwoByteFormat(payload[0], payload[1]);
      var k := KeyLength(|payload| - n);
      if k.None? then None else Some(Decoded(format, payload[n..n + k.value]))
  }

  ghost predicate IsHash(hash: seq<byte> -> seq<byte>) {
    forall x :: |hash(x)| == 32
  }

  /** One- and two-byte prefixes never overlap, and both determine the format. */
  lemma PrefixDecodes(format: int)
    requires 0 <= format <= 16383
    ensures var p := Prefix(format);
            if format < 64 then |p| == 1 && p[0] < 64 && p[0] == format
            else |p| == 2 && 64 <= p[0] && TwoByteFormat(p[0], p[1]) == format
  {
    hide First, Second;
    if 64 <= format {
      PackedBytes(format);
      SplitFormat(format);
    }
  }

  lemma SplitFormat(n: nat)
    requires n <= 16383
    ensures 256 * ((n / 256 + 64 * (n % 4)) % 64) + 4 * (n / 4 % 64) + (n / 256 + 64 * (n % 4)) / 64 == n
  {
    var h, l := n / 256, n % 4;
    DivUnique(h + 64 * l, 64, l, h);
    assert n / 4 / 64 == h;
    assert n == 4 * (n / 4) + l && n / 4 == 64 * h + n / 4 % 64;
  }

  lemma KeyLengthExact(k: nat)
    requires k in KEY_LENGTHS
    ensures KeyLength(k + ChecksumLength(k)) == Some(k)
  {
  }

  /** Whatever the hash, a payload exists exactly for permitted formats and key lengths, determines
      both format and key, and ends with the hash of all that precedes. */
  lemma PayloadDecodes(key: seq<byte>, format: int, hash: seq<byte> -> seq<byte>)
    requires IsHash(hash)
    ensures Payload(key, format, hash).Ok? <==> Permitted(format) && |key| in KEY_LENGTHS
    ensures Payload(key, format, hash).Ok? ==>
              Decode(Payload(key, format, hash).value) == Some(Decoded(format, key))
    ensures Payload(key, format, hash).Ok? ==>
              var p := Payload(key, format, hash).value;
              var n := ChecksumLength(|key|);
              n <= |p| && p[|p| - n..] == hash(p[..|p| - n])[..n]
  {
    if Permitted(format) && |key| in KEY_LENGTHS {
      hide TwoByteFormat, Prefix;
      PrefixDecodes(format);
      KeyLengthExact(|key|);
      var p := Prefix(format);
      var payload := Payload(key, format, hash).value;
      assert |hash(p + key)| == 32;
      assert |payload| == |p| + |key| + ChecksumLength(|key|);
      assert payload[..|p| + |key|] == p + key;
      assert payload[0] == p[0] && (|p| == 2 ==> payload[1] == p[1]);
      assert payload[|p|..|p| + |key|] == key;
      assert payload[|p| + |key|..] == hash(p + key)[..ChecksumLength(|key|)];
    }
  }

  /** The bytes of a payload, written out: the format in one byte below 64 and in two packed ones from
      64 on, then the key, then one checksum byte, or two for keys of 32 and 33 bytes. */
  lemma PayloadLayout(key: seq<byte>, format: int, hash: seq<byte> -> seq<byte>)
    requires IsHash(hash)
    ensures var r := Payload(key, format, hash);
            && (r == Err(InvalidFormat) <==> format < 0 || 16383 < format || format == 46 || format == 47)
            && (r == Err(InvalidKeyLength) <==>
                  0 <= format <= 16383 && format !in {46, 47} && |key| !in {1, 2, 4, 8, 32, 33})
            && (r.Ok? ==>
                  var prefix, sum := if format < 64 then 1 else 2, if |key| in {32, 33} then 2 else 1;
                  && |r.value| == prefix + |key| + sum
                  && (format < 64 ==> r.value[0] == format)
                  && (64 <= format ==>
                        r.value[0] == 64 + format / 4 % 64 && r.value[1] == format / 256 + 64 * (format % 4))
                  && r.value[prefix..prefix + |key|] == key
                  && r.value[prefix + |key|..] == hash(r.value[..prefix + |key|])[..sum])
  {
    hide First, Second;
    assert KEY_LENGTHS == [1, 2, 4, 8, 32, 33];
    if Payload(key, format, hash).Ok? {
      PackedBytes(format);
      var input, payload := Prefix(format) + key, Payload(key, format, hash).value;
      assert |hash(input)| == 32;
      assert payload[..|input|] == input;
      assert payload[|input|..] == hash(input)[..ChecksumLength(|key|)];
      assert input[|Prefix(format)|..] == key;
    }
  }

  /** Two addresses with the same payload have the same format and key, even under different
      checksum functions. */
  lemma PayloadInjective(key: seq<byte>, format: int, hash: seq<byte> -> seq<byte>,
                         key': seq<byte>, format': int, hash': seq<byte> -> seq<byte>)
    requires IsHash(hash) && IsHash(hash')
    requires Payload(key, format, hash).Ok? && Payload(key, format, hash) == Payload(key', format', hash')
    ensures key == key' && format == format'
  {
    PayloadDecodes(key, format, hash);
    PayloadDecodes(key', format', hash');
  }
}
