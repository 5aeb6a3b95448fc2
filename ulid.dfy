/**
 * The ULID generator: a 48-bit millisecond timestamp written as 10
 * Crockford Base32 characters, most significant first, followed by 80
 * random bits written as 16 characters.
 *
 * `Date.now()` and `crypto.getRandomValues` are not called here: the
 * timestamp and the random bytes are parameters.
 */
module Ulid {
  import opened Js
  import opened Arith

  /** Crockford's Base32 alphabet: digits, then upper-case letters without I, L, O and U. */
  const ENCODING: string := "0123456789ABCDEFGHJKMNPQRSTVWXYZ"
  const ENCODING_LEN: nat := 32
  /** Characters of the time component (48 bits fit in 50). */
  const TIME_LEN: nat := 10
  /** Characters of the random component (80 bits). */
  const RANDOM_LEN: nat := 16

  predicate InAlphabet(s: string)
  {
    forall i :: 0 <= i < |s| ==> IsBase32Char(s[i])
  }

  /** A character of the alphabet, by code point range. */
  predicate IsBase32Char(c: char)
  {
    ('0' <= c <= '9') || ('A' <= c <= 'Z' && c != 'I' && c != 'L' && c != 'O' && c != 'U')
  }

  /**
   * The `d`-th character of the alphabet, by code point range: the spec
   * functions below use this and `EncodingLetters` ties it to `ENCODING`.
   */
  function Letter(d: nat): (c: char)
    requires d < ENCODING_LEN
    ensures IsBase32Char(c)
  {
    if d < 10 then ('0' as int + d) as char
    else if d < 18 then ('A' as int + d - 10) as char
    else if d < 20 then ('J' as int + d - 18) as char
    else if d < 22 then ('M' as int + d - 20) as char
    else if d < 27 then ('P' as int + d - 22) as char
    else ('V' as int + d - 27) as char
  }

  /** `ENCODING` is the alphabet `Letter` describes, position by position. */
  lemma EncodingLetters()
    ensures |ENCODING| == ENCODING_LEN
    ensures forall d :: 0 <= d < ENCODING_LEN ==> ENCODING[d] == Letter(d)
  {
  }

  lemma EncodingAt(d: nat)
    requires d < ENCODING_LEN
    ensures ENCODING[d] == Letter(d)
  {
    EncodingLetters();
  }

  /** The alphabet is in strictly ascending character order. */
  lemma LetterAscending(i: nat, j: nat)
    requires i < j < ENCODING_LEN
    ensures Letter(i) < Letter(j)
  {
  }

  /* ---------------------------------------------------------------------- */
  /* Fixed-width Base32 numbers and their decoding                           */
  /* ---------------------------------------------------------------------- */

  /**
   * The `w` low base-32 digits of `x`, most significant first: the string
   * `encodeTime` builds for `w == TIME_LEN`.
   */
  function Base32(x: nat, w: nat): (r: string)
    ensures |r| == w && InAlphabet(r)
  {
    if w == 0 then "" else Base32(x / ENCODING_LEN, w - 1) + [Letter(x % ENCODING_LEN)]
  }

  /** The value of one Base32 character. */
  function DigitValue(c: char): (d: nat)
    requires IsBase32Char(c)
    ensures d < ENCODING_LEN && Letter(d) == c
  {
    if c <= '9' then (c - '0') as nat
    else if c <= 'H' then (c - 'A') as nat + 10
    else if c <= 'K' then (c - 'J') as nat + 18
    else if c <= 'N' then (c - 'M') as nat + 20
    else if c <= 'T' then (c - 'P') as nat + 22
    else (c - 'V') as nat + 27
  }

  lemma DigitValueOfDigit(d: nat)
    requires d < ENCODING_LEN
    ensures DigitValue(Letter(d)) == d
  {
  }

  /** Reading a Base32 string back as a number, most significant digit first. */
  function Base32Value(s: string): nat
    requires InAlphabet(s)
  {
    if s == [] then 0 else ENCODING_LEN * Base32Value(s[..|s| - 1]) + DigitValue(s[|s| - 1])
  }

  /** Decoding a `w`-character encoding gives the number modulo `32^w`. */
  lemma {:induction false} Base32RoundTrip(x: nat, w: nat)
    ensures Base32Value(Base32(x, w)) == x % Pow2(5 * w)
  {
    if w == 0 {
      assert x % 1 == 0;
    } else {
      var p := Pow2(5 * (w - 1));
      var s := Base32(x, w);
      assert s[..|s| - 1] == Base32(x / 32, w - 1);
      Base32RoundTrip(x / 32, w - 1);
      DigitValueOfDigit(x % 32);
      assert Base32Value(s) == 32 * ((x / 32) % p) + x % 32;
      Pow2Add(5, 5 * (w - 1));
      assert Pow2(5) == 32;
      assert Pow2(5 * w) == 32 * p;
      DivDiv(x, 32, p);
      ModMod(x, 32, p);
      var y := x % (32 * p);
      assert y == 32 * (y / 32) + y % 32;
    }
  }

  /** Encoding a decoded string gives the string back. */
  lemma {:induction false} Base32OfValue(s: string)
    requires InAlphabet(s)
    ensures Base32(Base32Value(s), |s|) == s
  {
    if s != [] {
      var p, c := s[..|s| - 1], s[|s| - 1];
      var v, d := Base32Value(p), DigitValue(c);
      var x := Base32Value(s);
      assert x == 32 * v + d;
      Base32SnocDigit(v, d, |p|);
      Base32OfValue(p);
      assert |s| == |p| + 1;
      var e := Base32(x, |s|);
      assert e == Base32(32 * v + d, |p| + 1);
      assert e == Base32(v, |p|) + [Letter(d)];
      assert e == p + [Letter(d)];
      assert Letter(d) == c;
      assert e == p + [c];
      assert s == p + [c];
    }
  }

  lemma Base32SnocDigit(v: nat, d: nat, w: nat)
    requires d < 32
    ensures Base32(32 * v + d, w + 1) == Base32(v, w) + [Letter(d)]
  {
    DivModUnique(32 * v + d, 32, v, d);
    Base32Snoc(32 * v + d, w);
  }

  /* ---------------------------------------------------------------------- */
  /* Lexicographic order (JavaScript's `<` on strings)                       */
  /* ---------------------------------------------------------------------- */

  predicate LexLess(a: string, b: string)
  {
    if a == [] then b != []
    else b != [] && (a[0] < b[0] || (a[0] == b[0] && LexLess(a[1..], b[1..])))
  }

  lemma {:induction false} LexLessAppend(a: string, b: string, c: string, d: string)
    requires |a| == |b| && LexLess(a, b)
    ensures LexLess(a + c, b + d)
  {
    if a[0] == b[0] && LexLess(a[1..], b[1..]) {
      LexLessAppend(a[1..], b[1..], c, d);
      assert (a + c)[1..] == a[1..] + c;
      assert (b + d)[1..] == b[1..] + d;
    }
  }

  lemma {:induction false} LexLessLast(p: string, x: char, y: char)
    requires x < y
    ensures LexLess(p + [x], p + [y])
  {
    if p != [] {
      LexLessLast(p[1..], x, y);
      assert (p + [x])[1..] == p[1..] + [x];
      assert (p + [y])[1..] == p[1..] + [y];
    }
  }

  /** Larger numbers below `32^w` have lexicographically larger encodings. */
  lemma {:induction false} Base32Monotone(x: nat, y: nat, w: nat)
    requires x < y < Pow2(5 * w)
    ensures LexLess(Base32(x, w), Base32(y, w))
  {
    if w == 0 {
      assert false;
    }
    var p := Pow2(5 * (w - 1));
    Pow2Add(5, 5 * (w - 1));
    assert Pow2(5) == 32;
    DivDiv(y, 32, p);
    assert y / 32 < p;
    if x / 32 == y / 32 {
      LetterAscending(x % 32, y % 32);
      LexLessLast(Base32(x / 32, w - 1), Letter(x % 32), Letter(y % 32));
    } else {
      Base32Monotone(x / 32, y / 32, w - 1);
      LexLessAppend(Base32(x / 32, w - 1), Base32(y / 32, w - 1), [Letter(x % 32)], [Letter(y % 32)]);
    }
  }

  /* ---------------------------------------------------------------------- */
  /* encodeTime                                                              */
  /* ---------------------------------------------------------------------- */

  /** Prepending the next more significant digit extends the encoding by one. */
  lemma {:induction false} Base32Prepend(x: nat, i: nat)
    ensures Base32(x, i + 1) == [Letter((x / Pow2(5 * i)) % 32)] + Base32(x, i)
  {
    if i > 0 {
      Base32Prepend(x / 32, i - 1);
      Pow2Add(5, 5 * (i - 1));
      assert Pow2(5) == 32;
      DivDiv(x, 32, Pow2(5 * (i - 1)));
    }
  }

  /**
   * `encodeTime(now)`: ten characters, most significant first, by repeated
   * division by 32; timestamps from `32^10` on are silently reduced modulo
   * `32^10`.
   */
  method EncodeTime(now: nat) returns (str: string)
    ensures str == Base32(now, TIME_LEN)
  {
    str := "";
    var time := now;
    for i := 0 to TIME_LEN
      invariant time == now / Pow2(5 * i)
      invariant str == Base32(now, i)
    {
      Base32Prepend(now, i);
      EncodingAt(time % ENCODING_LEN);
      str := [ENCODING[time % ENCODING_LEN]] + str;
      Pow2Add(5 * i, 5);
      assert Pow2(5) == 32;
      DivDiv(now, Pow2(5 * i), 32);
      time := time / ENCODING_LEN;
    }
  }

  /** Every timestamp below `32^10` (in particular every 48-bit one) is recovered from its encoding. */
  lemma TimeRoundTrip(now: nat)
    requires now < Pow2(5 * TIME_LEN)
    ensures Base32Value(Base32(now, TIME_LEN)) == now
  {
    Base32RoundTrip(now, TIME_LEN);
    ModSmall(now, Pow2(5 * TIME_LEN));
  }

  /* ---------------------------------------------------------------------- */
  /* encodeRandom                                                            */
  /* ---------------------------------------------------------------------- */

  /** The bytes read as one big-endian number. */
  function BigEndian(bytes: seq<byte>): nat
  {
    if bytes == [] then 0 else 256 * BigEndian(bytes[..|bytes| - 1]) + bytes[|bytes| - 1] as int
  }

  /** The `n` low bytes of `x`, big-endian. */
  function BytesOf(x: nat, n: nat): (r: seq<byte>)
    ensures |r| == n
  {
    if n == 0 then [] else BytesOf(x / 256, n - 1) + [(x % 256) as byte]
  }

  lemma {:induction false} BigEndianBound(bytes: seq<byte>)
    ensures BigEndian(bytes) < Pow2(8 * |bytes|)
  {
    if bytes != [] {
      var p := bytes[..|bytes| - 1];
      BigEndianBound(p);
      Pow2Add(8, 8 * |p|);
      assert Pow2(8) == 256;
      MulLe(BigEndian(p), Pow2(8 * |p|) - 1, 256);
    }
  }

  lemma {:induction false} BytesOfBigEndian(bytes: seq<byte>)
    ensures BytesOf(BigEndian(bytes), |bytes|) == bytes
  {
    if bytes != [] {
      var p := bytes[..|bytes| - 1];
      DivModUnique(BigEndian(bytes), 256, BigEndian(p), bytes[|bytes| - 1] as int);
      BytesOfBigEndian(p);
    }
  }

  /**
   * The 5-bit groups of the byte stream, most significant bits first; a
   * final group with fewer than 5 bits has its bits moved to the top and
   * zeros below. Its length is `ceil(8 * |bytes| / 5)`.
   */
  function Groups(bytes: seq<byte>): (r: string)
    ensures |r| == (8 * |bytes| + 4) / 5 && InAlphabet(r)
  {
    var n := BigEndian(bytes);
    var total := 8 * |bytes|;
    var rem := total % 5;
    var full := Base32(Shr(n, rem), total / 5);
    if rem == 0 then full else full + [Letter(TopAligned(n, rem))]
  }

  /** The low `k` bits of `n` as the top bits of a 5-bit group. */
  function TopAligned(n: nat, k: nat): (v: nat)
    requires 0 < k < 5
    ensures v < 32
  {
    LowBitsShifted(n, k);
    (n % Pow2(k)) * Pow2(5 - k)
  }

  /** The groups cut or padded with `'0'` to exactly `RANDOM_LEN` characters. */
  function RandomPart(bytes: seq<byte>): (r: string)
    ensures |r| == RANDOM_LEN && InAlphabet(r)
  {
    var g := Groups(bytes);
    if |g| < RANDOM_LEN then g + Repeat(Letter(0), RANDOM_LEN - |g|) else g[..RANDOM_LEN]
  }

  /** Ten bytes are eighty bits: exactly sixteen whole groups, nothing left over, nothing padded. */
  lemma RandomPartOfTenBytes(bytes: seq<byte>)
    requires |bytes| == 10
    ensures Groups(bytes) == RandomPart(bytes) == Base32(BigEndian(bytes), RANDOM_LEN)
  {
    var n := BigEndian(bytes);
    assert 8 * |bytes| == 80;
    assert 80 % 5 == 0 && 80 / 5 == 16;
    assert Pow2(0) == 1;
    assert n / 1 == n;
    var g := Groups(bytes);
    assert g == Base32(n, 16);
    assert g[..16] == g;
  }

  /** Decoding the sixteen random characters gives back the ten random bytes. */
  lemma RandomRoundTrip(bytes: seq<byte>)
    requires |bytes| == 10
    ensures BytesOf(Base32Value(RandomPart(bytes)), 10) == bytes
  {
    RandomPartOfTenBytes(bytes);
    var n := BigEndian(bytes);
    Base32RoundTrip(n, RANDOM_LEN);
    BigEndianBound(bytes);
    ModSmall(n, Pow2(80));
    BytesOfBigEndian(bytes);
  }

  /** One byte more at the end of the stream: the number is shifted left by eight bits. */
  lemma BigEndianSnoc(bytes: seq<byte>, i: nat)
    requires i < |bytes|
    ensures BigEndian(bytes[..i + 1]) == BigEndian(bytes[..i]) * 256 + bytes[i] as int
  {
    assert bytes[..i + 1][..i] == bytes[..i];
  }

  /**
   * What `encodeRandom` knows between steps: `str` holds the complete
   * groups of the `n` read so far and the low `bitCount` bits of `bits`
   * are the bits of `n` not yet written.
   */
  predicate Pending(bits: nat, n: nat, bitCount: nat, str: string)
  {
    bits % Pow2(bitCount) == n % Pow2(bitCount) && str == Base32(Shr(n, bitCount), |str|)
  }

  /** Writing one 5-bit group off the top of the pending bits keeps `Pending`. */
  lemma EmitStep(bits: nat, n: nat, bitCount: nat, str: string)
    requires 5 <= bitCount && Pending(bits, n, bitCount, str)
    ensures Pending(bits, n, bitCount - 5, str + [Letter(Shr(bits, bitCount - 5) % 32)])
  {
    var k := bitCount - 5;
    EmitArith(bits, n, k);
    var p := Pow2(k);
    assert p > 0;
    var y := n / p;
    assert y >= 0;
    Base32Snoc(y, |str|);
  }

  lemma EmitArith(bits: nat, n: nat, k: nat)
    requires bits % Pow2(k + 5) == n % Pow2(k + 5)
    ensures (bits / Pow2(k)) % 32 == (n / Pow2(k)) % 32
    ensures bits % Pow2(k) == n % Pow2(k)
    ensures n / Pow2(k) / 32 == n / Pow2(k + 5)
  {
    Pow2Add(k, 5);
    assert Pow2(5) == 32;
    DivDiv(bits, Pow2(k), 32);
    DivDiv(n, Pow2(k), 32);
    ModPow2Smaller(bits, k, k + 5);
    ModPow2Smaller(n, k, k + 5);
  }

  lemma Base32Snoc(x: nat, w: nat)
    ensures Base32(x, w + 1) == Base32(x / 32, w) + [Letter(x % 32)]
  {
  }

  /** Shifting one byte into the 32-bit accumulator keeps `Pending` for the longer stream. */
  lemma ShiftStep(bits: nat, n: nat, bitCount: nat, b: nat, str: string)
    requires bitCount < 5 && b < 256 && Pending(bits, n, bitCount, str)
    ensures Pending((bits * 256 + b) % U32, n * 256 + b, bitCount + 8, str)
  {
    Pow2Of32();
    ModPow2Smaller(bits * 256 + b, bitCount + 8, 32);
    ShiftInCongruent(bits, n, bitCount, b);
    Pow2Add(8, bitCount);
    assert Pow2(8) == 256;
    DivDiv(n * 256 + b, 256, Pow2(bitCount));
    DivModUnique(n * 256 + b, 256, n, b);
  }

  /**
   * After the last byte: the fewer than five pending bits, if any, moved
   * to the top of one more group, complete the groups of the stream.
   */
  lemma LastGroup(bytes: seq<byte>, bits: nat, bitCount: nat, str: string)
    requires bitCount < 5 && 8 * |bytes| == 5 * |str| + bitCount
    requires Pending(bits, BigEndian(bytes[..|bytes|]), bitCount, str)
    ensures bitCount == 0 ==> str == Groups(bytes)
    ensures bitCount > 0 ==>
      str + [Letter(Shl32(bits, 5 - bitCount) % 32)] == Groups(bytes)
  {
    assert bytes[..|bytes|] == bytes;
    DivModUnique(8 * |bytes|, 5, |str|, bitCount);
    if bitCount > 0 {
      LastGroupValue(bits, BigEndian(bytes), bitCount);
    }
  }

  lemma LastGroupValue(bits: nat, n: nat, k: nat)
    requires 0 < k < 5 && bits % Pow2(k) == n % Pow2(k)
    ensures Shl32(bits, 5 - k) % 32 == TopAligned(n, k)
  {
    Pow2Of32();
    assert Pow2(5) == 32;
    LowBitsShifted(bits, k);
    ModPow2Smaller(bits * Pow2(5 - k), 5, 32);
  }

  /**
   * The packing loop of `encodeRandom()` and its handling of the remaining
   * bits. `bits` is kept as the 32-bit pattern JavaScript's `<<` and `|`
   * leave behind (`% 2^32`); `>>` and `<<` by fewer than 8 places followed
   * by `& 0x1f` only read bits below position 12 of it, where the signed
   * and unsigned readings agree.
   */
  method EncodeGroups(bytes: seq<byte>) returns (str: string)
    ensures str == Groups(bytes)
  {
    str := "";
    var bits: nat := 0;
    var bitCount: nat := 0;
    for i := 0 to |bytes|
      invariant bitCount < 5
      invariant 8 * i == 5 * |str| + bitCount
      invariant Pending(bits, BigEndian(bytes[..i]), bitCount, str)
    {
      BigEndianSnoc(bytes, i);
      ShiftStep(bits, BigEndian(bytes[..i]), bitCount, bytes[i] as int, str);
      bits := (bits * 256 + bytes[i] as int) % U32;
      bitCount := bitCount + 8;
      while bitCount >= 5
        invariant 8 * (i + 1) == 5 * |str| + bitCount
        invariant Pending(bits, BigEndian(bytes[..i + 1]), bitCount, str)
      {
        EmitStep(bits, BigEndian(bytes[..i + 1]), bitCount, str);
        var value := Shr(bits, bitCount - 5) % 32;
        EncodingAt(value);
        str := str + [ENCODING[value]];
        bitCount := bitCount - 5;
      }
    }
    LastGroup(bytes, bits, bitCount, str);
    if bitCount > 0 {
      var value := Shl32(bits, 5 - bitCount) % 32;
      EncodingAt(value);
      str := str + [ENCODING[value]];
    }
  }

  /** `encodeRandom()` over the given bytes: the groups, padded with `'0'` and cut to sixteen characters. */
  method EncodeRandom(bytes: seq<byte>) returns (str: string)
    ensures str == RandomPart(bytes)
  {
    str := EncodeGroups(bytes);
    EncodingAt(0);
    ghost var g := str;
    while |str| < RANDOM_LEN
      invariant |g| <= |str| && str == g + Repeat(Letter(0), |str| - |g|)
      invariant |str| <= RANDOM_LEN || str == g
    {
      RepeatSnoc(Letter(0), |str| - |g|);
      str := str + [ENCODING[0]];
    }
    PaddedGroups(bytes, g, str);
    str := str[..RANDOM_LEN];
  }

  /** Padding the groups with `'0'` up to `RANDOM_LEN` characters and cutting there is `RandomPart`. */
  lemma PaddedGroups(bytes: seq<byte>, g: string, str: string)
    requires g == Groups(bytes) && |g| <= |str| && RANDOM_LEN <= |str|
    requires str == g + Repeat(Letter(0), |str| - |g|)
    requires |str| <= RANDOM_LEN || str == g
    ensures str[..RANDOM_LEN] == RandomPart(bytes)
  {
  }

  /* ---------------------------------------------------------------------- */
  /* generateUlid                                                            */
  /* ---------------------------------------------------------------------- */

  /**
   * The ULID for a timestamp and ten random bytes: 26 characters of the
   * alphabet, the first ten fixed by the timestamp alone and the last
   * sixteen by the random bytes alone.
   */
  function UlidOf(now: nat, random: seq<byte>): (r: string)
    ensures |r| == TIME_LEN + RANDOM_LEN == 26 && InAlphabet(r)
    ensures r[..TIME_LEN] == Base32(now, TIME_LEN) && r[TIME_LEN..] == RandomPart(random)
  {
    Base32(now, TIME_LEN) + RandomPart(random)
  }

  /** `generateUlid()` with `Date.now()` and the ten random bytes passed in. */
  method GenerateUlid(now: nat, random: seq<byte>) returns (ulid: string)
    requires |random| == 10
    ensures ulid == UlidOf(now, random)
  {
    var timePart := EncodeTime(now);
    var randomPart := EncodeRandom(random);
    ulid := timePart + randomPart;
  }

  /**
   * ULIDs sort by creation time: a later timestamp (below `32^10`) gives a
   * lexicographically larger ULID whatever random bytes either one drew.
   */
  lemma UlidOrder(t1: nat, t2: nat, r1: seq<byte>, r2: seq<byte>)
    requires t1 < t2 < Pow2(5 * TIME_LEN)
    ensures LexLess(UlidOf(t1, r1), UlidOf(t2, r2))
  {
    Base32Monotone(t1, t2, TIME_LEN);
    LexLessAppend(Base32(t1, TIME_LEN), Base32(t2, TIME_LEN), RandomPart(r1), RandomPart(r2));
  }

  /** A ULID gives back its timestamp and its random bytes. */
  lemma UlidRoundTrip(now: nat, random: seq<byte>)
    requires now < Pow2(5 * TIME_LEN) && |random| == 10
    ensures Base32Value(UlidOf(now, random)[..TIME_LEN]) == now
    ensures BytesOf(Base32Value(UlidOf(now, random)[TIME_LEN..]), 10) == random
  {
    TimeRoundTrip(now);
    RandomRoundTrip(random);
  }
}
