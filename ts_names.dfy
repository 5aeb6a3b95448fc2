/**
 * Names in the JSON-to-TypeScript converter: `sanitizeName`, the
 * capitalisation `generateInterfaceName` applies, and the numbered
 * candidates it tries when a name is taken.
 */
module TsNames {
  import opened Js

  /** The characters `[a-zA-Z0-9_$]` an identifier keeps. */
  predicate IsIdentChar(c: char)
  {
    'a' <= c <= 'z' || 'A' <= c <= 'Z' || '0' <= c <= '9' || c == '_' || c == '$'
  }

  predicate IsIdent(s: string)
  {
    forall i :: 0 <= i < |s| ==> IsIdentChar(s[i])
  }

  /** A usable type name: not empty, identifier characters only, no leading digit. */
  predicate IsTypeName(s: string)
  {
    s != [] && IsIdent(s) && !IsDecimalDigit(s[0])
  }

  /** `name.replace(/[^a-zA-Z0-9_$]/g, '')`: every other character is dropped, the rest keep their order. */
  function StripNonIdent(s: string): (r: string)
    ensures IsIdent(r) && |r| <= |s|
  {
    if s == [] then []
    else (if IsIdentChar(s[0]) then [s[0]] else []) + StripNonIdent(s[1..])
  }

  /** A string of identifier characters loses nothing. */
  lemma {:induction false} StripIdent(s: string)
    requires IsIdent(s)
    ensures StripNonIdent(s) == s
  {
    if s != [] {
      StripIdent(s[1..]);
      assert s == [s[0]] + s[1..];
    }
  }

  /**
   * `sanitizeName`: strip, then prefix `_` when nothing is left or the
   * first character is a digit. The final `|| 'Item'` can never apply,
   * since the prefixing leaves at least one character.
   */
  function SanitizeName(name: string): (r: string)
    ensures IsTypeName(r)
  {
    var stripped := StripNonIdent(name);
    var sanitized := if stripped == [] || IsDecimalDigit(stripped[0]) then "_" + stripped else stripped;
    if sanitized == [] then "Item" else sanitized
  }

  /** The names `sanitizeName` leaves unchanged are exactly the usable type names. */
  lemma SanitizeFixedPoints(s: string)
    ensures SanitizeName(s) == s <==> IsTypeName(s)
  {
    if IsTypeName(s) {
      StripIdent(s);
    }
  }

  /** Sanitising twice is sanitising once. */
  lemma SanitizeIdempotent(name: string)
    ensures SanitizeName(SanitizeName(name)) == SanitizeName(name)
  {
    SanitizeFixedPoints(SanitizeName(name));
  }

  /** `s.charAt(0).toUpperCase() + s.slice(1)` on an identifier. */
  function Capitalize(s: string): string
  {
    if s == [] then s else [ToUpperAscii(s[0])] + s[1..]
  }

  /** The name `generateInterfaceName` starts from: sanitised and capitalised. */
  function InterfaceBase(base: string): (r: string)
    ensures IsTypeName(r) && !('a' <= r[0] <= 'z')
  {
    var s := SanitizeName(base);
    var r := Capitalize(s);
    assert forall i :: 1 <= i < |r| ==> r[i] == s[i];
    r
  }

  /** A base name is its own base, so the root name survives a second pass. */
  lemma InterfaceBaseIdempotent(base: string)
    ensures InterfaceBase(InterfaceBase(base)) == InterfaceBase(base)
  {
    var r := InterfaceBase(base);
    SanitizeFixedPoints(r);
  }

  /** `${name}${counter}`. */
  function Numbered(name: string, k: nat): string
  {
    name + DecimalString(k)
  }

  lemma NumberedInjective(name: string, a: nat, b: nat)
    requires Numbered(name, a) == Numbered(name, b)
    ensures a == b
  {
    assert DecimalString(a) == Numbered(name, a)[|name|..] == Numbered(name, b)[|name|..] == DecimalString(b);
    DecimalStringInjective(a, b);
  }

  /** The first `k`, counting up from `from`, whose numbered name is free; the search stops by `|used| + 1`. */
  function FirstFree(name: string, used: set<string>, from: nat): (k: nat)
    ensures k >= from
    ensures forall j :: from <= j < k ==> Numbered(name, j) in used
    ensures from <= |used| + 1 ==> k <= |used| + 1
    ensures k <= |used| ==> Numbered(name, k) !in used
    decreases |used| + 1 - from
  {
    if from > |used| || Numbered(name, from) !in used then from
    else FirstFree(name, used, from + 1)
  }

  /** The numbered names `name1` to `name<n>`. */
  function NumberedUpTo(name: string, n: nat): set<string>
  {
    set j | 1 <= j <= n :: Numbered(name, j)
  }

  lemma {:induction false} NumberedUpToCard(name: string, n: nat)
    ensures |NumberedUpTo(name, n)| == n
  {
    if n > 0 {
      NumberedUpToCard(name, n - 1);
      var s := NumberedUpTo(name, n - 1);
      assert NumberedUpTo(name, n) == s + {Numbered(name, n)};
      if Numbered(name, n) in s {
        var j :| 1 <= j <= n - 1 && Numbered(name, j) == Numbered(name, n);
        NumberedInjective(name, j, n);
        assert false;
      }
    }
  }

  /** `n` different numbered names cannot all be taken unless there are at least `n` taken names. */
  lemma Pigeonhole(name: string, used: set<string>, n: nat)
    requires forall j :: 1 <= j <= n ==> Numbered(name, j) in used
    ensures n <= |used|
  {
    var s := NumberedUpTo(name, n);
    NumberedUpToCard(name, n);
    assert s <= used;
    assert used == s + (used - s);
    assert |used| == |s| + |used - s|;
  }

  /** The search from 1 ends on the smallest free number. */
  lemma FirstFreeIsFree(name: string, used: set<string>)
    ensures var k := FirstFree(name, used, 1);
      k >= 1 && Numbered(name, k) !in used && forall j :: 1 <= j < k ==> Numbered(name, j) in used
  {
    var k := FirstFree(name, used, 1);
    if Numbered(name, k) in used {
      Pigeonhole(name, used, k);
      assert false;
    }
  }

  /**
   * Any `k` whose numbered name is free while every smaller number from 1 is
   * taken is where the search stops: the smallest free number is unique.
   */
  lemma {:induction false} FirstFreeFinds(name: string, used: set<string>, from: nat, k: nat)
    requires 1 <= from <= k
    requires forall j :: 1 <= j < k ==> Numbered(name, j) in used
    requires Numbered(name, k) !in used
    ensures FirstFree(name, used, from) == k
    decreases k - from
  {
    if from < k {
      Pigeonhole(name, used, k - 1);
      FirstFreeFinds(name, used, from + 1, k);
    }
  }

  /**
   * The name `generateInterfaceName` returns: the base name when it is not
   * taken, otherwise the base name numbered with the smallest free `k >= 1`.
   */
  function FreshName(base: string, used: set<string>): string
  {
    var name := InterfaceBase(base);
    if name !in used then name else Numbered(name, FirstFree(name, used, 1))
  }

  /** The fresh name was not taken and is a usable type name. */
  lemma FreshNameFresh(base: string, used: set<string>)
    ensures FreshName(base, used) !in used
    ensures IsTypeName(FreshName(base, used))
  {
    var name := InterfaceBase(base);
    if name in used {
      FirstFreeIsFree(name, used);
      var r := Numbered(name, FirstFree(name, used, 1));
      var d := DecimalString(FirstFree(name, used, 1));
      assert forall i :: 0 <= i < |r| ==> IsIdentChar(r[i]) by {
        forall i | 0 <= i < |r| ensures IsIdentChar(r[i]) {
          if i >= |name| { assert r[i] == d[i - |name|]; }
        }
      }
    }
  }
}
