/**
 * The handful of JavaScript built-ins the tools rely on, stated as Dafny
 * functions: whitespace and `trim`, `split` on a one-character separator,
 * `join`, `substr`, `replace` of a single character with the `g` flag,
 * `Number.prototype.toString` in radix 10 and 16, `padStart`, and
 * `parseInt(s, 16)` followed by the store into a `Uint8Array` cell.
 *
 * JavaScript strings are sequences of UTF-16 code units; here a string is a
 * `seq<char>` of Unicode scalar values, so lone surrogates cannot occur.
 * The tokens, JSON keys and names the tools take may hold any character,
 * and the operations modelled give the same results in both views. `trim`,
 * `split('.')` and the single-character `replace` match only BMP characters,
 * which are one code unit and one scalar value alike. `sanitizeName`'s
 * character class keeps only ASCII, and drops both halves of a surrogate
 * pair just as it drops the one scalar value. `TextEncoder` encodes scalar
 * values. The one length taken of such text, the base64 padding, is of a
 * string that `atob` rejects whenever it holds a non-ASCII character.
 */
module Js {

  datatype Option<+T> = None | Some(value: T)

  datatype Result<+T, +E> = Ok(value: T) | Err(error: E)

  /** One cell of a `Uint8Array`. */
  newtype byte = x: int | 0 <= x < 256

  /* ---------------------------------------------------------------------- */
  /* Whitespace and trimming                                                 */
  /* ---------------------------------------------------------------------- */

  /** ECMAScript WhiteSpace or LineTerminator: what `trim` and `parseInt` skip. */
  predicate IsWhitespace(c: char)
  {
    var n := c as int;
    n == 0x09 || n == 0x0A || n == 0x0B || n == 0x0C || n == 0x0D || n == 0x20 ||
    n == 0xA0 || n == 0x1680 || (0x2000 <= n <= 0x200A) || n == 0x2028 ||
    n == 0x2029 || n == 0x202F || n == 0x205F || n == 0x3000 || n == 0xFEFF
  }

  predicate AllWhitespace(s: string)
  {
    forall i :: 0 <= i < |s| ==> IsWhitespace(s[i])
  }

  /** `String.prototype.trimStart`: drops the longest whitespace prefix. */
  function TrimStart(s: string): (r: string)
    ensures |r| <= |s| && AllWhitespace(s[..|s| - |r|])
    ensures r == [] || !IsWhitespace(r[0])
  {
    if s != [] && IsWhitespace(s[0]) then TrimStart(s[1..]) else s
  }

  /** What `trimStart` keeps is a suffix of its input. */
  lemma {:induction false} TrimStartSuffix(s: string)
    ensures TrimStart(s) == s[|s| - |TrimStart(s)|..]
  {
    if s != [] && IsWhitespace(s[0]) {
      TrimStartSuffix(s[1..]);
    }
  }

  /** `String.prototype.trimEnd`: drops the longest whitespace suffix. */
  function TrimEnd(s: string): (r: string)
    ensures |r| <= |s| && r == s[..|r|]
    ensures AllWhitespace(s[|r|..])
    ensures r == [] || !IsWhitespace(r[|r| - 1])
  {
    if s != [] && IsWhitespace(s[|s| - 1]) then TrimEnd(s[..|s| - 1]) else s
  }

  /** `String.prototype.trim`. */
  function Trim(s: string): string
  {
    TrimEnd(TrimStart(s))
  }

  /** `!s.trim()` holds exactly when every character of `s` is whitespace. */
  lemma TrimEmptyIff(s: string)
    ensures Trim(s) == [] <==> AllWhitespace(s)
  {
    var t := TrimStart(s);
    TrimStartSuffix(s);
    if Trim(s) == [] {
      assert AllWhitespace(t[|TrimEnd(t)|..]);
      assert t == [];
      forall i | 0 <= i < |s| ensures IsWhitespace(s[i]) {
        assert s[i] == s[..|s| - |t|][i];
      }
    }
  }

  /* ---------------------------------------------------------------------- */
  /* split / join                                                            */
  /* ---------------------------------------------------------------------- */

  /** Number of occurrences of `c` in `s`. */
  function Count(s: string, c: char): nat
  {
    if s == [] then 0 else (if s[0] == c then 1 else 0) + Count(s[1..], c)
  }

  /** `parts.join(sep)`. */
  function Join(parts: seq<string>, sep: string): string
  {
    if parts == [] then ""
    else if |parts| == 1 then parts[0]
    else parts[0] + sep + Join(parts[1..], sep)
  }

  /**
   * `s.split(sep)` for a one-character separator: one more part than there
   * are separators, no part contains the separator, and joining the parts
   * back with the separator gives `s` again.
   */
  function Split(s: string, sep: char): (parts: seq<string>)
    ensures |parts| == Count(s, sep) + 1
    ensures forall i :: 0 <= i < |parts| ==> sep !in parts[i]
    ensures Join(parts, [sep]) == s
  {
    if s == [] then [""]
    else
      var rest := Split(s[1..], sep);
      if s[0] == sep then [""] + rest
      else
        var parts := [[s[0]] + rest[0]] + rest[1..];
        assert parts[1..] == rest[1..];
        parts
  }

  /** A string without the separator is split into itself. */
  lemma SplitNoSep(s: string, sep: char)
    requires sep !in s
    ensures Split(s, sep) == [s]
  {
    CountZero(s, sep);
  }

  lemma CountZero(s: string, c: char)
    ensures Count(s, c) == 0 <==> c !in s
  {
    if s != [] {
      CountZero(s[1..], c);
      assert s == [s[0]] + s[1..];
    }
  }

  /** Splitting `x + [sep] + last` adds `last` as a final part. */
  lemma {:induction false} SplitLast(x: string, sep: char, last: string)
    requires sep !in last
    ensures Split(x + [sep] + last, sep) == Split(x, sep) + [last]
  {
    if x == [] {
      assert x + [sep] + last == [sep] + last;
      assert ([sep] + last)[1..] == last;
      SplitNoSep(last, sep);
    } else {
      assert (x + [sep] + last)[1..] == x[1..] + [sep] + last;
      SplitLast(x[1..], sep, last);
    }
  }

  /* ---------------------------------------------------------------------- */
  /* replace, substr, repeat                                                 */
  /* ---------------------------------------------------------------------- */

  /** `s.replace(/c/g, to)` for a single character `c`. */
  function ReplaceAll(s: string, c: char, to: string): string
  {
    if s == [] then ""
    else (if s[0] == c then to else [s[0]]) + ReplaceAll(s[1..], c, to)
  }

  /** A string without `c` is left unchanged. */
  lemma {:induction false} ReplaceAllAbsent(s: string, c: char, to: string)
    requires c !in s
    ensures ReplaceAll(s, c, to) == s
  {
    if s != [] {
      ReplaceAllAbsent(s[1..], c, to);
    }
  }

  /** The parts one after another, with nothing in between. */
  function Concat(parts: seq<string>): string
  {
    if parts == [] then "" else parts[0] + Concat(parts[1..])
  }

  /** Removing `c` from `x + [c] + y` when `x` has no `c`. */
  lemma {:induction false} ReplaceAllDrop(x: string, y: string, c: char)
    requires c !in x
    ensures ReplaceAll(x + [c] + y, c, "") == x + ReplaceAll(y, c, "")
  {
    if x == [] {
      assert x + [c] + y == [c] + y && ([c] + y)[1..] == y;
    } else {
      assert (x + [c] + y)[0] == x[0] && (x + [c] + y)[1..] == x[1..] + [c] + y;
      ReplaceAllDrop(x[1..], y, c);
      assert x == [x[0]] + x[1..];
    }
  }

  /**
   * Removing the separator from parts joined by it gives the parts run
   * together, as long as no part holds the separator itself.
   */
  lemma {:induction false} ReplaceAllJoin(parts: seq<string>, c: char)
    requires forall i :: 0 <= i < |parts| ==> c !in parts[i]
    ensures ReplaceAll(Join(parts, [c]), c, "") == Concat(parts)
  {
    if |parts| == 1 {
      ReplaceAllAbsent(parts[0], c, "");
      assert Concat(parts) == parts[0] + Concat([]);
    } else if |parts| > 1 {
      ReplaceAllDrop(parts[0], Join(parts[1..], [c]), c);
      ReplaceAllJoin(parts[1..], c);
    }
  }

  /** `s.substr(start, len)` for non-negative arguments: clamped to the end. */
  function Substr(s: string, start: nat, len: nat): (r: string)
    ensures start + len <= |s| ==> r == s[start..start + len]
    ensures |r| <= len
  {
    var a := if start <= |s| then start else |s|;
    var b := if start + len <= |s| then start + len else |s|;
    s[a..b]
  }

  /** `c.repeat(n)`, also `new Array(n + 1).join(c)`. */
  function Repeat(c: char, n: nat): (r: string)
    ensures |r| == n && forall i :: 0 <= i < n ==> r[i] == c
  {
    if n == 0 then "" else [c] + Repeat(c, n - 1)
  }

  lemma RepeatSnoc(c: char, n: nat)
    ensures Repeat(c, n + 1) == Repeat(c, n) + [c]
  {
    assert Repeat(c, n + 1) == Repeat(c, n) + [c];
  }

  /* ---------------------------------------------------------------------- */
  /* Number.prototype.toString for radix 10 and 16                           */
  /* ---------------------------------------------------------------------- */

  predicate IsDecimalDigit(c: char) { '0' <= c <= '9' }

  predicate IsLowerHexDigit(c: char) { '0' <= c <= '9' || 'a' <= c <= 'f' }

  /** A hex digit in either case, as `[0-9a-f]` with the `i` flag accepts. */
  predicate IsHexDigit(c: char) { '0' <= c <= '9' || 'a' <= c <= 'f' || 'A' <= c <= 'F' }

  /** The decimal digit for `d`. */
  function DecimalDigit(d: nat): (c: char)
    requires d < 10
    ensures IsDecimalDigit(c)
  {
    ('0' as int + d) as char
  }

  /** The lower-case hex digit for `d`. */
  function HexDigit(d: nat): (c: char)
    requires d < 16
    ensures IsLowerHexDigit(c) && HexValue(c) == d
  {
    if d < 10 then ('0' as int + d) as char else ('a' as int + d - 10) as char
  }

  /** The value of a hex digit, in either case. */
  function HexValue(c: char): (d: nat)
    requires IsHexDigit(c)
    ensures d < 16
  {
    if '0' <= c <= '9' then c as int - '0' as int
    else if 'a' <= c <= 'f' then c as int - 'a' as int + 10
    else c as int - 'A' as int + 10
  }

  /** Printing the value of a hex digit gives the digit back, lower-cased. */
  lemma HexDigitOfValue(c: char)
    requires IsHexDigit(c)
    ensures HexDigit(HexValue(c)) == ToLowerAscii(c)
  {
  }

  /** Lower-casing of an ASCII letter; everything else is left alone. */
  function ToLowerAscii(c: char): (r: char)
    ensures 'A' <= c <= 'Z' ==> 'a' <= r <= 'z'
  {
    if 'A' <= c <= 'Z' then (c as int - 'A' as int + 'a' as int) as char else c
  }

  /** `s.toLowerCase()` restricted to ASCII letters. */
  function LowerAscii(s: string): string
  {
    seq(|s|, i requires 0 <= i < |s| => ToLowerAscii(s[i]))
  }

  /** Upper-casing of an ASCII letter; everything else is left alone. */
  function ToUpperAscii(c: char): (r: char)
    ensures 'a' <= c <= 'z' ==> 'A' <= r <= 'Z'
    ensures !('a' <= c <= 'z') ==> r == c
  {
    if 'a' <= c <= 'z' then (c as int - 'a' as int + 'A' as int) as char else c
  }

  /** `n.toString(10)` for a natural number: no leading zeros. */
  function DecimalString(n: nat): (r: string)
    ensures 1 <= |r| && (n >= 10 <==> |r| >= 2)
    ensures forall i :: 0 <= i < |r| ==> IsDecimalDigit(r[i])
  {
    if n < 10 then [DecimalDigit(n)]
    else DecimalString(n / 10) + [DecimalDigit(n % 10)]
  }

  /** Different numbers print differently. */
  lemma {:induction false} DecimalStringInjective(a: nat, b: nat)
    requires DecimalString(a) == DecimalString(b)
    ensures a == b
  {
    var s := DecimalString(a);
    assert s[|s| - 1] == DecimalDigit(a % 10) == DecimalDigit(b % 10);
    assert a % 10 == b % 10;
    if a >= 10 {
      assert DecimalString(a / 10) == s[..|s| - 1] == DecimalString(b / 10);
      DecimalStringInjective(a / 10, b / 10);
    }
  }

  /** `n.toString(16)` for a natural number: lower case, no leading zeros. */
  function HexString(n: nat): (r: string)
    ensures 1 <= |r| && (n >= 16 <==> |r| >= 2)
    ensures forall i :: 0 <= i < |r| ==> IsLowerHexDigit(r[i])
  {
    if n < 16 then [HexDigit(n)] else HexString(n / 16) + [HexDigit(n % 16)]
  }

  /** `s.padStart(n, c)`. */
  function PadStart(s: string, n: nat, c: char): (r: string)
    ensures |r| == if |s| >= n then |s| else n
  {
    if |s| >= n then s else Repeat(c, n - |s|) + s
  }

  /** The two lower-case hex digits of a byte, most significant first. */
  function ByteHex(b: byte): (r: string)
    ensures |r| == 2 && IsLowerHexDigit(r[0]) && IsLowerHexDigit(r[1])
    ensures 16 * HexValue(r[0]) + HexValue(r[1]) == b as int
  {
    [HexDigit(b as int / 16), HexDigit(b as int % 16)]
  }

  /** `b.toString(16).padStart(2, '0')` is the two-digit rendering. */
  lemma PaddedHexIsByteHex(b: byte)
    ensures PadStart(HexString(b as int), 2, '0') == ByteHex(b)
  {
    var n := b as int;
    if n >= 16 {
      assert HexString(n / 16) == [HexDigit(n / 16)];
    }
  }

  /** `('00' + n.toString(16)).slice(-2)`: the last two hex digits of `n`. */
  function LastTwoHex(n: nat): (r: string)
    ensures |r| == 2
  {
    var s := "00" + HexString(n);
    s[|s| - 2..]
  }

  lemma LastTwoHexOfByte(b: byte)
    ensures LastTwoHex(b as int) == ByteHex(b)
  {
    var n := b as int;
    if n >= 16 {
      assert HexString(n / 16) == [HexDigit(n / 16)];
    }
  }

  /* ---------------------------------------------------------------------- */
  /* parseInt(s, 16), stored into a Uint8Array cell                          */
  /* ---------------------------------------------------------------------- */

  /** Length of the longest prefix of `s` made of hex digits. */
  function HexPrefixLength(s: string): (n: nat)
    ensures n <= |s|
    ensures forall i :: 0 <= i < n ==> IsHexDigit(s[i])
    ensures n < |s| ==> !IsHexDigit(s[n])
  {
    if s != [] && IsHexDigit(s[0]) then 1 + HexPrefixLength(s[1..]) else 0
  }

  /** The number written by a string of hex digits, most significant first. */
  function HexNumber(s: string): nat
    requires forall i :: 0 <= i < |s| ==> IsHexDigit(s[i])
  {
    if s == [] then 0 else 16 * HexNumber(s[..|s| - 1]) + HexValue(s[|s| - 1])
  }

  /**
   * `parseInt(s, 16)`: leading whitespace is skipped, one sign is accepted,
   * a `0x`/`0X` prefix is dropped, then the longest run of hex digits is
   * read; `None` stands for NaN (no digit at all).
   */
  function ParseIntHex(s: string): Option<int>
  {
    var t := TrimStart(s);
    var negative := t != [] && t[0] == '-';
    var v := DropHexPrefix(DropSign(t));
    var n := HexPrefixLength(v);
    if n == 0 then None
    else if negative then Some(-(HexNumber(v[..n]) as int))
    else Some(HexNumber(v[..n]))
  }

  function DropSign(t: string): string
  {
    if t != [] && (t[0] == '-' || t[0] == '+') then t[1..] else t
  }

  function DropHexPrefix(u: string): string
  {
    if |u| >= 2 && u[0] == '0' && (u[1] == 'x' || u[1] == 'X') then u[2..] else u
  }

  /** Storing a number into a `Uint8Array` cell: NaN becomes 0, others wrap modulo 256. */
  function ToUint8(x: Option<int>): byte
  {
    match x
    case None => 0
    case Some(n) => (n % 256) as byte
  }

  /** Two hex digits parse to the byte they denote. */
  lemma ParseTwoHexDigits(s: string)
    requires |s| == 2 && IsHexDigit(s[0]) && IsHexDigit(s[1])
    ensures ToUint8(ParseIntHex(s)) as int == 16 * HexValue(s[0]) + HexValue(s[1])
  {
    ParseHexDigitsOnly(s);
    TwoDigitNumber(s);
    var n: int := HexNumber(s);
    Uint8OfSmall(n);
  }

  lemma Uint8OfSmall(n: int)
    requires 0 <= n < 256
    ensures ToUint8(Some(n)) as int == n
  {
  }

  lemma ParseHexDigitsOnly(s: string)
    requires |s| == 2 && IsHexDigit(s[0]) && IsHexDigit(s[1])
    ensures ParseIntHex(s) == Some(HexNumber(s))
  {
    assert !IsWhitespace(s[0]) && s[0] != '-';
    assert TrimStart(s) == s;
    assert DropHexPrefix(DropSign(s)) == s;
    assert s[1..][1..] == [];
    assert HexPrefixLength(s[1..]) == 1;
    assert HexPrefixLength(s) == 2;
    assert s[..2] == s;
  }

  lemma TwoDigitNumber(s: string)
    requires |s| == 2 && IsHexDigit(s[0]) && IsHexDigit(s[1])
    ensures HexNumber(s) == 16 * HexValue(s[0]) + HexValue(s[1]) < 256
  {
    var p := s[..1];
    assert p == [s[0]] && p[..0] == [];
    assert HexNumber(p) == HexValue(s[0]);
    assert s[..|s| - 1] == p;
  }

  /* ---------------------------------------------------------------------- */
  /* TextEncoder: UTF-8                                                      */
  /* ---------------------------------------------------------------------- */

  /**
   * The UTF-8 bytes of one character, in the shortest form of the table in
   * section 3 of RFC 3629: one byte below U+0080, two below U+0800, three
   * below U+10000, four above; every byte after the first is `10xxxxxx`.
   */
  function Utf8Char(c: char): (r: seq<byte>)
    ensures |r| == if c as int < 0x80 then 1 else if c as int < 0x800 then 2 else if c as int < 0x10000 then 3 else 4
    ensures |r| == 1 ==> r[0] < 0x80
    ensures |r| == 2 ==> 0xC0 <= r[0] < 0xE0
    ensures |r| == 3 ==> 0xE0 <= r[0] < 0xF0
    ensures |r| == 4 ==> 0xF0 <= r[0] < 0xF8
    ensures forall i :: 1 <= i < |r| ==> 0x80 <= r[i] < 0xC0
  {
    var n := c as int;
    if n < 0x80 then [n as byte]
    else if n < 0x800 then [(0xC0 + n / 64) as byte, (0x80 + n % 64) as byte]
    else if n < 0x10000 then [(0xE0 + n / 0x1000) as byte, (0x80 + n / 64 % 64) as byte, (0x80 + n % 64) as byte]
    else [(0xF0 + n / 0x4_0000) as byte, (0x80 + n / 0x1000 % 64) as byte, (0x80 + n / 64 % 64) as byte, (0x80 + n % 64) as byte]
  }

  /** The code point one to four UTF-8 bytes stand for: the payload bits, most significant first. */
  function Utf8Value(b: seq<byte>): int
    requires 1 <= |b| <= 4
  {
    if |b| == 1 then b[0] as int
    else if |b| == 2 then (b[0] as int - 0xC0) * 64 + (b[1] as int - 0x80)
    else if |b| == 3 then (b[0] as int - 0xE0) * 0x1000 + (b[1] as int - 0x80) * 64 + (b[2] as int - 0x80)
    else (b[0] as int - 0xF0) * 0x4_0000 + (b[1] as int - 0x80) * 0x1000 + (b[2] as int - 0x80) * 64 + (b[3] as int - 0x80)
  }

  /** Reading the payload bits of a character's encoding gives the character back. */
  lemma Utf8CharRoundTrip(c: char)
    ensures Utf8Value(Utf8Char(c)) == c as int
  {
    var n := c as int;
    if n >= 0x80 {
      assert n == n / 64 * 64 + n % 64;
      if n >= 0x800 {
        var m := n / 64;
        assert m == m / 64 * 64 + m % 64;
        DivDiv64(n);
        if n >= 0x10000 {
          var k := n / 0x1000;
          assert k == k / 64 * 64 + k % 64;
          DivDiv4096(n);
        }
      }
    }
  }

  lemma DivDiv64(n: nat)
    ensures n / 64 / 64 == n / 0x1000
  {
    var q, r := n / 0x1000, n % 0x1000;
    assert n == q * 0x1000 + r;
    assert n / 64 == q * 64 + r / 64;
  }

  lemma DivDiv4096(n: nat)
    ensures n / 0x1000 / 64 == n / 0x4_0000
  {
    var q, r := n / 0x4_0000, n % 0x4_0000;
    assert n == q * 0x4_0000 + r;
    assert n / 0x1000 == q * 64 + r / 0x1000;
  }

  /** `new TextEncoder().encode(s)`: the characters' encodings one after another. */
  function Utf8(s: string): (r: seq<byte>)
    ensures |s| <= |r| <= 4 * |s|
  {
    if s == [] then [] else Utf8Char(s[0]) + Utf8(s[1..])
  }
}
