/**
 * The password generator: a charset assembled from the enabled character
 * classes, and one character per position drawn by rejection sampling over
 * random bytes, so that every character of the charset is equally likely.
 *
 * The random bytes `crypto.getRandomValues` would deliver are a parameter:
 * the generator reads them in order and fails only when they run out.
 */
module Password {
  import opened Js
  import opened Arith

  const UppercaseChars: string := "ABCDEFGHIJKLMNOPQRSTUVWXYZ"
  const LowercaseChars: string := "abcdefghijklmnopqrstuvwxyz"
  const NumberChars: string := "0123456789"
  const SymbolChars: string := "!@#$%^&*()_+-=[]{}|;:,.<>?"

  datatype Options = Options(
    length: int,
    includeUppercase: bool,
    includeLowercase: bool,
    includeNumbers: bool,
    includeSymbols: bool)

  /** The enabled classes, in the order uppercase, lowercase, digits, symbols. */
  function CharsetOf(options: Options): string
  {
    (if options.includeUppercase then UppercaseChars else "")
    + (if options.includeLowercase then LowercaseChars else "")
    + (if options.includeNumbers then NumberChars else "")
    + (if options.includeSymbols then SymbolChars else "")
  }

  /* ---------------------------------------------------------------------- */
  /* the character classes                                                   */
  /* ---------------------------------------------------------------------- */

  /** The `n` consecutive characters from `first` on. */
  function CharRange(first: char, n: nat): (r: string)
    requires first as int + n <= 0xD800
    ensures |r| == n
    ensures forall i :: 0 <= i < n ==> r[i] as int == first as int + i
  {
    seq(n, i requires 0 <= i < n => (first as int + i) as char)
  }

  lemma UppercaseIsRange()
    ensures UppercaseChars == CharRange('A', 26)
  {
  }

  lemma LowercaseIsRange()
    ensures LowercaseChars == CharRange('a', 26)
  {
  }

  lemma NumbersIsRange()
    ensures NumberChars == CharRange('0', 10)
  {
  }

  predicate Distinct(s: string)
  {
    forall i, j :: 0 <= i < j < |s| ==> s[i] != s[j]
  }

  /** The symbols are 26 different characters, none a letter or a digit. */
  lemma SymbolsDistinct()
    ensures |SymbolChars| == 26 && Distinct(SymbolChars)
    ensures forall c :: c in SymbolChars ==> !('A' <= c <= 'Z' || 'a' <= c <= 'z' || '0' <= c <= '9')
  {
  }

  /** A range holds exactly the characters between its bounds, each once. */
  lemma RangeMembers(first: char, n: nat)
    requires first as int + n <= 0xD800
    ensures forall c :: c in CharRange(first, n) <==> first <= c && (c as int) < first as int + n
    ensures Distinct(CharRange(first, n))
  {
    var r := CharRange(first, n);
    forall c ensures c in r <==> first <= c && (c as int) < first as int + n {
      if first <= c && (c as int) < first as int + n {
        assert r[c as int - first as int] == c;
      }
    }
  }

  lemma DistinctAppend(a: string, b: string)
    requires Distinct(a) && Distinct(b)
    requires forall c :: c in a ==> c !in b
    ensures Distinct(a + b)
  {
    forall i, j | 0 <= i < j < |a + b| ensures (a + b)[i] != (a + b)[j] {
      if i < |a| && j >= |a| {
        assert (a + b)[i] in a && (a + b)[j] == b[j - |a|];
      }
    }
  }

  /** The three ranges: letters of each case and the digits. */
  lemma ClassMembers()
    ensures forall c :: c in UppercaseChars <==> 'A' <= c <= 'Z'
    ensures forall c :: c in LowercaseChars <==> 'a' <= c <= 'z'
    ensures forall c :: c in NumberChars <==> '0' <= c <= '9'
    ensures Distinct(UppercaseChars) && Distinct(LowercaseChars) && Distinct(NumberChars)
  {
    UppercaseIsRange();
    LowercaseIsRange();
    NumbersIsRange();
    RangeMembers('A', 26);
    RangeMembers('a', 26);
    RangeMembers('0', 10);
  }

  /** A character is in the charset exactly when its class is enabled. */
  lemma CharsetMembers(options: Options)
    ensures forall c :: c in CharsetOf(options) <==>
      (options.includeUppercase && 'A' <= c <= 'Z')
      || (options.includeLowercase && 'a' <= c <= 'z')
      || (options.includeNumbers && '0' <= c <= '9')
      || (options.includeSymbols && c in SymbolChars)
  {
    ClassMembers();
  }

  /**
   * The classes do not overlap, so no character occurs twice and the
   * charset is as long as the enabled classes together: at most 88.
   */
  lemma CharsetDistinct(options: Options)
    ensures Distinct(CharsetOf(options))
    ensures |CharsetOf(options)|
      == (if options.includeUppercase then 26 else 0) + (if options.includeLowercase then 26 else 0)
       + (if options.includeNumbers then 10 else 0) + (if options.includeSymbols then 26 else 0)
  {
    ClassMembers();
    SymbolsDistinct();
    var u := if options.includeUppercase then UppercaseChars else "";
    var l := if options.includeLowercase then LowercaseChars else "";
    var n := if options.includeNumbers then NumberChars else "";
    var s := if options.includeSymbols then SymbolChars else "";
    DistinctAppend(u, l);
    DistinctAppend(u + l, n);
    DistinctAppend(u + l + n, s);
  }

  /* ---------------------------------------------------------------------- */
  /* rejection sampling                                                      */
  /* ---------------------------------------------------------------------- */

  /** `Math.floor(256 / n) * n`: the byte values below it are accepted. */
  function MaxValid(n: nat): nat
    requires n > 0
  {
    (256 / n) * n
  }

  /** `MaxValid(n)` is the largest multiple of `n` that is at most 256. */
  lemma MaxValidLargest(n: nat)
    requires 0 < n <= 256
    ensures 0 < MaxValid(n) <= 256 && MaxValid(n) % n == 0
    ensures 256 - n < MaxValid(n)
  {
    DivModUnique(256, n, 256 / n, 256 % n);
    DivModUnique(MaxValid(n), n, 256 / n, 0);
  }

  /** The bytes the rejection loop keeps, in order: those below `maxValid`. */
  function Accepted(bytes: seq<byte>, maxValid: int): (acc: seq<byte>)
    ensures |acc| <= |bytes|
    ensures forall i :: 0 <= i < |acc| ==> acc[i] as int < maxValid
  {
    if bytes == [] then []
    else
      var last := bytes[|bytes| - 1];
      Accepted(bytes[..|bytes| - 1], maxValid) + (if (last as int) < maxValid then [last] else [])
  }

  /** What the bytes up to some point accept is the start of what all of them accept. */
  lemma {:induction false} AcceptedPrefix(bytes: seq<byte>, p: nat, maxValid: int)
    requires p <= |bytes|
    ensures Accepted(bytes[..p], maxValid) <= Accepted(bytes, maxValid)
    decreases |bytes|
  {
    if p < |bytes| {
      var init := bytes[..|bytes| - 1];
      assert init[..p] == bytes[..p];
      AcceptedPrefix(init, p, maxValid);
    } else {
      assert bytes[..p] == bytes;
    }
  }

  /** One more byte is accepted exactly when it is below `maxValid`. */
  lemma AcceptedStep(bytes: seq<byte>, p: nat, maxValid: int)
    requires p < |bytes|
    ensures Accepted(bytes[..p + 1], maxValid)
         == Accepted(bytes[..p], maxValid) + (if (bytes[p] as int) < maxValid then [bytes[p]] else [])
  {
    assert bytes[..p + 1][..p] == bytes[..p];
  }

  /**
   * What `generatePassword` sets: the empty string when no class is
   * enabled; otherwise the first `length` accepted bytes, each taken modulo
   * the charset length as an index. `None` when the bytes run out first.
   */
  function PasswordOf(options: Options, random: seq<byte>): (r: Option<string>)
    ensures r.Some? ==> forall i :: 0 <= i < |r.value| ==> r.value[i] in CharsetOf(options)
    ensures r.Some? && CharsetOf(options) != "" ==> |r.value| == (if options.length < 0 then 0 else options.length)
    ensures CharsetOf(options) == "" || options.length <= 0 ==> r == Some("")
  {
    var charset := CharsetOf(options);
    if |charset| == 0 then Some("")
    else
      var acc := Accepted(random, MaxValid(|charset|));
      var n := if options.length < 0 then 0 else options.length;
      if n <= |acc| then Some(seq(n, i requires 0 <= i < n => charset[acc[i] as int % |charset|]))
      else None
  }

  /** The number of values `v` in `[0, m)` with `v % n == c`. */
  function Hits(n: nat, c: nat, m: nat): nat
    requires n > 0
  {
    if m == 0 then 0 else Hits(n, c, m - 1) + (if (m - 1) % n == c then 1 else 0)
  }

  lemma {:induction false} HitsBlocks(n: nat, c: nat, q: nat, j: nat)
    requires 0 <= c < n && j <= n
    ensures Hits(n, c, q * n + j) == q + (if c < j then 1 else 0)
    decreases q, j
  {
    if j > 0 {
      HitsBlocks(n, c, q, j - 1);
      DivModUnique(q * n + j - 1, n, q, j - 1);
    } else if q > 0 {
      HitsBlocks(n, c, q - 1, n);
      assert (q - 1) * n + n == q * n;
    }
  }

  /**
   * No bias: every index below `n` is hit by exactly `256 / n` of the
   * accepted byte values, so with uniform bytes every charset character
   * is equally likely.
   */
  lemma NoBias(n: nat, c: nat)
    requires 0 < n <= 256 && c < n
    ensures Hits(n, c, MaxValid(n)) == 256 / n
  {
    HitsBlocks(n, c, 256 / n, 0);
  }

  /**
   * The `do … while (randomValue >= maxValid)` loop: bytes are read from
   * `pos` on until one is below `maxValid`. It fails when the bytes run
   * out, and then no byte from `pos` on would have been accepted.
   */
  method DrawAccepted(random: seq<byte>, pos: nat, maxValid: int) returns (ok: bool, randomValue: int, next: nat)
    requires pos <= |random| && maxValid <= 256
    ensures ok ==> (pos < next <= |random| && 0 <= randomValue < maxValid
      && Accepted(random[..next], maxValid) == Accepted(random[..pos], maxValid) + [randomValue as byte])
    ensures !ok ==> Accepted(random, maxValid) == Accepted(random[..pos], maxValid)
  {
    next := pos;
    randomValue := 256;
    while randomValue >= maxValid
      invariant pos <= next <= |random|
      invariant randomValue >= maxValid ==> Accepted(random[..next], maxValid) == Accepted(random[..pos], maxValid)
      invariant randomValue < maxValid ==> (pos < next && 0 <= randomValue
        && Accepted(random[..next], maxValid) == Accepted(random[..pos], maxValid) + [randomValue as byte])
      decreases |random| - next, if randomValue >= maxValid then 1 else 0
    {
      if next == |random| {
        assert random[..next] == random;
        return false, randomValue, next;
      }
      AcceptedStep(random, next, maxValid);
      randomValue := random[next] as int;
      next := next + 1;
    }
    ok := true;
  }

  /** The charset as `generatePassword` assembles it with `+=`. */
  method BuildCharset(options: Options) returns (charset: string)
    ensures charset == CharsetOf(options)
  {
    charset := "";
    if options.includeUppercase { charset := charset + UppercaseChars; }
    if options.includeLowercase { charset := charset + LowercaseChars; }
    if options.includeNumbers { charset := charset + NumberChars; }
    if options.includeSymbols { charset := charset + SymbolChars; }
  }

  /** `generatePassword`, reading its random bytes from `random`. */
  method GeneratePassword(options: Options, random: seq<byte>) returns (password: Option<string>)
    ensures password == PasswordOf(options, random)
  {
    var charset := BuildCharset(options);
    if |charset| == 0 {
      return Some("");
    }

    var charsetLength := |charset|;
    var maxValid := (256 / charsetLength) * charsetLength;
    MaxValidLargest(charsetLength);
    var generated := "";
    var pos := 0;
    var i := 0;
    while i < options.length
      invariant 0 <= pos <= |random| && 0 <= i
      invariant i <= options.length || i == 0
      invariant |Accepted(random[..pos], maxValid)| == i
      invariant |generated| == i
      invariant forall k :: 0 <= k < i ==> generated[k] == charset[Accepted(random[..pos], maxValid)[k] as int % charsetLength]
      decreases options.length - i
    {
      var ok, randomValue, next := DrawAccepted(random, pos, maxValid);
      if !ok {
        return None;
      }
      pos := next;
      generated := generated + [charset[randomValue % charsetLength]];
      i := i + 1;
    }
    AcceptedPrefix(random, pos, maxValid);
    ghost var acc := Accepted(random, maxValid);
    assert forall k :: 0 <= k < i ==> acc[k] == Accepted(random[..pos], maxValid)[k];
    ghost var n := if options.length < 0 then 0 else options.length;
    assert n == i;
    assert generated == seq(n, k requires 0 <= k < n => charset[acc[k] as int % |charset|]);
    return Some(generated);
  }
}
