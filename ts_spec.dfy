/**
 * What `convertToTypeScript` computes, as functions. The multi-interface
 * mode threads the converter's state (the names in use and the interfaces
 * emitted so far) through every step; the inline mode is pure.
 */
module TsSpec {
  import opened Js
  import opened JsonData
  import opened TsNames

  /** The converter's mutable state: `usedNames` and `allInterfaces`. */
  datatype St = St(used: set<string>, interfaces: seq<string>)

  /** `'  '.repeat(indent)`. */
  function Indent(indent: nat): string
  {
    Repeat(' ', 2 * indent)
  }

  /** `typeof value` for the values that are neither null, arrays nor objects. */
  function TypeOfScalar(v: Json): string
  {
    match v
    case JBool(_) => "boolean"
    case JNumber(_) => "number"
    case JString(_) => "string"
    case _ => "object"
  }

  /** `interface ${name} {\n${properties.join('\n')}\n}`. */
  function InterfaceText(name: string, properties: seq<string>): string
  {
    "interface " + name + " {\n" + Join(properties, "\n") + "\n}"
  }

  /** `  ${sanitizeName(key)}: ${type}`: one property line of an interface. */
  function MemberLine(key: string, typ: string): string
  {
    "  " + SanitizeName(key) + ": " + typ
  }

  /* ---------------------------------------------------------------------- */
  /* multi-interface mode                                                    */
  /* ---------------------------------------------------------------------- */

  /** `generateInterfaceName`: the fresh name, now recorded as used. */
  function Generate(base: string, st: St): (string, St)
  {
    var name := FreshName(base, st.used);
    (name, st.(used := st.used + {name}))
  }

  /** `getType` with `useMultipleInterfaces` set: the type text and the new state. */
  function TypeM(v: Json, key: string, st: St): (string, St)
    decreases v, 3
  {
    match v
    case JNull => ("null", st)
    case JArray(items) =>
      if items == [] then ("unknown[]", st)
      else
        var (t, st1) := TypeM(items[0], key, st);
        (t + "[]", st1)
    case JObject(_) => Extract(v, if key == "" then "Item" else key, st)
    case _ => (TypeOfScalar(v), st)
  }

  /**
   * An object turned into an interface of its own: a name generated from
   * `base`, then its properties, then the interface pushed last.
   */
  function Extract(obj: Json, base: string, st: St): (string, St)
    requires obj.JObject?
    decreases obj, 2
  {
    var (name, st1) := Generate(base, st);
    var (text, st2) := InterfaceM(obj, name, st1);
    (name, st2.(interfaces := st2.interfaces + [text]))
  }

  /** `convertObjectToInterface`: the interface text and the new state. */
  function InterfaceM(obj: Json, name: string, st: St): (string, St)
    requires obj.JObject?
    decreases obj, 1
  {
    var (properties, st1) := PropertiesM(obj, 0, st);
    (InterfaceText(name, properties), st1)
  }

  /** The property lines of the entries from `i` on. */
  function PropertiesM(obj: Json, i: nat, st: St): (seq<string>, St)
    requires obj.JObject? && i <= |obj.entries|
    decreases obj, 0, |obj.entries| - i
  {
    if i == |obj.entries| then ([], st)
    else
      assert obj.entries[i].1 < obj.entries[i] < obj;
      var (line, st1) := PropertyM(obj.entries[i].0, obj.entries[i].1, st);
      var (rest, st2) := PropertiesM(obj, i + 1, st1);
      ([line] + rest, st2)
  }

  /**
   * One property: a nested object becomes an interface named after the key;
   * so does the first element of a non-empty array whose first element is
   * an object (typed `Name[]`); anything else gets its `getType` text.
   */
  function PropertyM(key: string, value: Json, st: St): (string, St)
    decreases value, 4
  {
    if value.JObject? then
      var (name, st1) := Extract(value, key, st);
      (MemberLine(key, name), st1)
    else if value.JArray? && |value.items| > 0 && value.items[0].JObject? then
      var (name, st1) := Extract(value.items[0], key, st);
      (MemberLine(key, name + "[]"), st1)
    else
      var (t, st1) := TypeM(value, key, st);
      (MemberLine(key, t), st1)
  }

  /* ---------------------------------------------------------------------- */
  /* inline mode                                                             */
  /* ---------------------------------------------------------------------- */

  /**
   * `getType` with `useMultipleInterfaces` off. With `asWritten` set, a
   * property whose type starts with `{` is re-indented the way the source
   * does it; without it, the property keeps its type text.
   */
  function TypeI(v: Json, indent: nat, asWritten: bool): string
    decreases v, 1
  {
    match v
    case JNull => "null"
    case JArray(items) =>
      if items == [] then "unknown[]" else TypeI(items[0], indent, asWritten) + "[]"
    case JObject(_) =>
      "{\n" + Join(PropertiesI(v, 0, indent, asWritten), "\n") + "\n" + Indent(indent) + "}"
    case _ => TypeOfScalar(v)
  }

  function PropertiesI(obj: Json, i: nat, indent: nat, asWritten: bool): seq<string>
    requires obj.JObject? && i <= |obj.entries|
    decreases obj, 0, |obj.entries| - i
  {
    if i == |obj.entries| then []
    else
      assert obj.entries[i].1 < obj.entries[i] < obj;
      [PropertyI(obj.entries[i].0, obj.entries[i].1, indent, asWritten)] + PropertiesI(obj, i + 1, indent, asWritten)
  }

  /** One property line of an inline object type at depth `indent`. */
  function PropertyI(key: string, value: Json, indent: nat, asWritten: bool): string
    decreases value, 2
  {
    var t := TypeI(value, indent + 1, asWritten);
    var shown := if asWritten && |t| > 0 && t[0] == '{' then Reformat(t, indent) else t;
    Indent(indent) + "  " + SanitizeName(key) + ": " + shown
  }

  /**
   * The source's re-formatting of a nested object type: the first and last
   * lines are dropped, every other line gains `indent + 1` more levels, and
   * a closing brace at `indent + 1` levels ends it.
   */
  function Reformat(t: string, indent: nat): string
  {
    var lines := Split(t, '\n');
    var middle := if |lines| >= 2 then lines[1..|lines| - 1] else [];
    var indented := seq(|middle|, j requires 0 <= j < |middle| => Indent(indent) + "  " + middle[j]);
    "{\n" + Join(indented, "\n") + "\n" + Indent(indent) + "  }"
  }

  /* ---------------------------------------------------------------------- */
  /* the whole conversion                                                    */
  /* ---------------------------------------------------------------------- */

  /** `Array.from(new Set(xs))` after the elements in `seen`: first occurrences, in order. */
  function DedupFrom(xs: seq<string>, seen: set<string>): (r: seq<string>)
    ensures forall i, j :: 0 <= i < j < |r| ==> r[i] != r[j]
    ensures forall i :: 0 <= i < |r| ==> r[i] in xs && r[i] !in seen
    ensures forall x :: x in xs && x !in seen ==> x in r
  {
    if xs == [] then []
    else if xs[0] in seen then DedupFrom(xs[1..], seen)
    else [xs[0]] + DedupFrom(xs[1..], seen + {xs[0]})
  }

  function Dedup(xs: seq<string>): seq<string>
  {
    DedupFrom(xs, {})
  }

  /** The index of the first occurrence of `x` in `xs`. */
  function FirstIndex(xs: seq<string>, x: string): (k: nat)
    requires x in xs
    ensures k < |xs| && xs[k] == x
    ensures forall j :: 0 <= j < k ==> xs[j] != x
  {
    if xs[0] == x then 0 else 1 + FirstIndex(xs[1..], x)
  }

  /** An element found after the head, and not the head itself, is found one step further on. */
  lemma FirstIndexTail(xs: seq<string>, y: string)
    requires xs != [] && y in xs[1..] && y != xs[0]
    ensures FirstIndex(xs, y) == 1 + FirstIndex(xs[1..], y)
  {
  }

  /** Every element of `r` occurs in `xs`, and `r` lists them in the order of their first occurrences. */
  predicate InFirstOrder(xs: seq<string>, r: seq<string>)
  {
    && (forall i :: 0 <= i < |r| ==> r[i] in xs)
    && (forall i, j :: 0 <= i < j < |r| ==> FirstIndex(xs, r[i]) < FirstIndex(xs, r[j]))
  }

  /** Order with respect to the tail carries over to the whole input, with or without the head in front. */
  lemma ShiftOrder(xs: seq<string>, tail: seq<string>, keepHead: bool)
    requires xs != [] && InFirstOrder(xs[1..], tail)
    requires forall m :: 0 <= m < |tail| ==> tail[m] != xs[0]
    ensures InFirstOrder(xs, if keepHead then [xs[0]] + tail else tail)
  {
    forall m | 0 <= m < |tail|
      ensures FirstIndex(xs, tail[m]) == 1 + FirstIndex(xs[1..], tail[m])
    {
      FirstIndexTail(xs, tail[m]);
    }
    var r := if keepHead then [xs[0]] + tail else tail;
    forall i, j | 0 <= i < j < |r|
      ensures FirstIndex(xs, r[i]) < FirstIndex(xs, r[j])
    {
      if !keepHead {
        assert FirstIndex(xs[1..], tail[i]) < FirstIndex(xs[1..], tail[j]);
      } else if i == 0 {
        assert r[i] == xs[0] && FirstIndex(xs, xs[0]) == 0;
        assert r[j] == tail[j - 1];
      } else {
        assert r[i] == tail[i - 1] && r[j] == tail[j - 1];
        assert FirstIndex(xs[1..], tail[i - 1]) < FirstIndex(xs[1..], tail[j - 1]);
      }
    }
  }

  /**
   * The kept elements appear in the order of their first occurrences in
   * the input, as the insertion order of a `Set` keeps them.
   */
  lemma {:induction false} DedupOrder(xs: seq<string>, seen: set<string>)
    ensures InFirstOrder(xs, DedupFrom(xs, seen))
  {
    if xs != [] {
      var seen' := if xs[0] in seen then seen else seen + {xs[0]};
      var tail := DedupFrom(xs[1..], seen');
      DedupOrder(xs[1..], seen');
      forall m | 0 <= m < |tail|
        ensures tail[m] != xs[0]
      {
        assert tail[m] !in seen';
      }
      ShiftOrder(xs, tail, xs[0] !in seen);
    }
  }

  /** `convertToTypeScript(data, { useMultipleInterfaces, rootName })`. */
  function TypeScriptOf(data: Json, useMultipleInterfaces: bool, rootName: string): string
  {
    var finalRootName := InterfaceBase(rootName);
    if useMultipleInterfaces then
      var (_, st) := TypeM(data, finalRootName, St({}, []));
      Join(Dedup(st.interfaces), "\n\n")
    else
      "type " + finalRootName + " = " + TypeI(data, 0, false)
  }
}
