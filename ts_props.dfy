/** Properties of the JSON-to-TypeScript conversion. */
module TsProps {
  import opened Js
  import opened JsonData
  import opened TsNames
  import opened TsSpec

  /* ---------------------------------------------------------------------- */
  /* reading an interface's name back                                        */
  /* ---------------------------------------------------------------------- */

  /** The characters before the first space. */
  function UpToSpace(s: string): (r: string)
    ensures |r| <= |s|
  {
    if s == [] || s[0] == ' ' then [] else [s[0]] + UpToSpace(s[1..])
  }

  /** The name of an interface text: what follows `interface ` up to the next space. */
  function NameOf(text: string): string
  {
    if |text| >= 10 then UpToSpace(text[10..]) else []
  }

  lemma {:induction false} UpToSpaceOf(name: string, rest: string)
    requires IsIdent(name)
    ensures UpToSpace(name + " " + rest) == name
  {
    if name != [] {
      assert (name + " " + rest)[1..] == name[1..] + " " + rest;
      UpToSpaceOf(name[1..], rest);
      assert name == [name[0]] + name[1..];
    }
  }

  /** The name an interface text was built with can be read back from it. */
  lemma NameOfInterfaceText(name: string, properties: seq<string>)
    requires IsIdent(name)
    ensures NameOf(InterfaceText(name, properties)) == name
  {
    var rest := "{\n" + Join(properties, "\n") + "\n}";
    var text := InterfaceText(name, properties);
    assert text == "interface " + (name + " " + rest);
    assert text[10..] == name + " " + rest;
    UpToSpaceOf(name, rest);
  }

  /* ---------------------------------------------------------------------- */
  /* the state invariant of multi-interface mode                             */
  /* ---------------------------------------------------------------------- */

  /** Every emitted interface is named by a used type name, and no two share a name. */
  predicate Inv(st: St)
  {
    && (forall i :: 0 <= i < |st.interfaces| ==>
          NameOf(st.interfaces[i]) in st.used && IsTypeName(NameOf(st.interfaces[i])))
    && (forall i, j :: 0 <= i < j < |st.interfaces| ==> NameOf(st.interfaces[i]) != NameOf(st.interfaces[j]))
  }

  /**
   * `st2` extends `st1`: no name is released, emitted interfaces stay in
   * place, and every newly emitted interface carries a newly used name.
   */
  predicate Grows(st1: St, st2: St)
  {
    && st1.used <= st2.used
    && |st1.interfaces| <= |st2.interfaces|
    && st2.interfaces[..|st1.interfaces|] == st1.interfaces
    && (forall i :: |st1.interfaces| <= i < |st2.interfaces| ==>
          NameOf(st2.interfaces[i]) in st2.used && NameOf(st2.interfaces[i]) !in st1.used)
  }

  lemma GrowsTrans(st1: St, st2: St, st3: St)
    requires Grows(st1, st2) && Grows(st2, st3)
    ensures Grows(st1, st3)
  {
    forall i | |st1.interfaces| <= i < |st3.interfaces|
      ensures NameOf(st3.interfaces[i]) in st3.used && NameOf(st3.interfaces[i]) !in st1.used
    {
      if i < |st2.interfaces| {
        assert st3.interfaces[i] == st3.interfaces[..|st2.interfaces|][i];
      }
    }
    assert st3.interfaces[..|st1.interfaces|] == st3.interfaces[..|st2.interfaces|][..|st1.interfaces|];
  }

  /** Pushing an interface under a name no earlier interface has keeps the invariant. */
  lemma PushKeepsInv(st: St, name: string, text: string)
    requires Inv(st) && name in st.used && IsTypeName(name) && NameOf(text) == name
    requires forall i :: 0 <= i < |st.interfaces| ==> NameOf(st.interfaces[i]) != name
    ensures Inv(st.(interfaces := st.interfaces + [text]))
  {
  }

  /** Turning an object into an interface keeps the invariant and pushes that interface last. */
  lemma {:induction false} ExtractOk(obj: Json, base: string, st: St)
    requires obj.JObject? && Inv(st)
    ensures var (name, st') := Extract(obj, base, st);
      && Inv(st') && Grows(st, st')
      && name == FreshName(base, st.used)
      && |st'.interfaces| > |st.interfaces|
      && NameOf(st'.interfaces[|st'.interfaces| - 1]) == name
    decreases obj, 2
  {
    var (name, st1) := Generate(base, st);
    FreshNameFresh(base, st.used);
    assert Grows(st, st1);
    var (properties, st2) := PropertiesM(obj, 0, st1);
    PropertiesOk(obj, 0, st1);
    var text := InterfaceText(name, properties);
    NameOfInterfaceText(name, properties);
    forall i | 0 <= i < |st2.interfaces| ensures NameOf(st2.interfaces[i]) != name {
      if i < |st.interfaces| {
        assert st2.interfaces[i] == st2.interfaces[..|st.interfaces|][i];
      }
    }
    PushKeepsInv(st2, name, text);
    var st3 := st2.(interfaces := st2.interfaces + [text]);
    GrowsTrans(st, st1, st2);
    assert st3.interfaces[..|st2.interfaces|] == st2.interfaces;
    assert st3.interfaces[..|st.interfaces|] == st2.interfaces[..|st.interfaces|];
  }

  lemma {:induction false} PropertiesOk(obj: Json, i: nat, st: St)
    requires obj.JObject? && i <= |obj.entries| && Inv(st)
    ensures Inv(PropertiesM(obj, i, st).1) && Grows(st, PropertiesM(obj, i, st).1)
    decreases obj, 0, |obj.entries| - i
  {
    if i < |obj.entries| {
      var (key, value) := (obj.entries[i].0, obj.entries[i].1);
      assert value < obj.entries[i] < obj;
      PropertyOk(key, value, st);
      var st1 := PropertyM(key, value, st).1;
      PropertiesOk(obj, i + 1, st1);
      GrowsTrans(st, st1, PropertiesM(obj, i + 1, st1).1);
    } else {
      assert st.interfaces[..|st.interfaces|] == st.interfaces;
    }
  }

  lemma {:induction false} PropertyOk(key: string, value: Json, st: St)
    requires Inv(st)
    ensures Inv(PropertyM(key, value, st).1) && Grows(st, PropertyM(key, value, st).1)
    decreases value, 4
  {
    if value.JObject? {
      ExtractOk(value, key, st);
    } else if value.JArray? && |value.items| > 0 && value.items[0].JObject? {
      ExtractOk(value.items[0], key, st);
    } else {
      TypeOk(value, key, st);
    }
  }

  lemma {:induction false} TypeOk(v: Json, key: string, st: St)
    requires Inv(st)
    ensures Inv(TypeM(v, key, st).1) && Grows(st, TypeM(v, key, st).1)
    decreases v, 3
  {
    match v
    case JArray(items) =>
      if items == [] {
        assert st.interfaces[..|st.interfaces|] == st.interfaces;
      } else {
        TypeOk(items[0], key, st);
      }
    case JObject(_) =>
      ExtractOk(v, if key == "" then "Item" else key, st);
    case _ =>
      assert st.interfaces[..|st.interfaces|] == st.interfaces;
  }

  /* ---------------------------------------------------------------------- */
  /* what the multi-interface output looks like                              */
  /* ---------------------------------------------------------------------- */

  /** Removing duplicates from a sequence without any changes nothing. */
  lemma {:induction false} DedupDistinct(xs: seq<string>, seen: set<string>)
    requires forall i, j :: 0 <= i < j < |xs| ==> xs[i] != xs[j]
    requires forall i :: 0 <= i < |xs| ==> xs[i] !in seen
    ensures DedupFrom(xs, seen) == xs
  {
    if xs != [] {
      DedupDistinct(xs[1..], seen + {xs[0]});
    }
  }

  /** The interfaces emitted for `data`, starting from a fresh converter. */
  function Emitted(data: Json, rootName: string): seq<string>
  {
    TypeM(data, InterfaceBase(rootName), St({}, [])).1.interfaces
  }

  /**
   * Every emitted interface has a name of its own, so the `new Set` step
   * removes nothing and the output is all of them, joined by blank lines.
   */
  lemma MultiOutputKeepsAll(data: Json, rootName: string)
    ensures forall i, j :: 0 <= i < j < |Emitted(data, rootName)| ==>
      Emitted(data, rootName)[i] != Emitted(data, rootName)[j]
    ensures TypeScriptOf(data, true, rootName) == Join(Emitted(data, rootName), "\n\n")
  {
    TypeOk(data, InterfaceBase(rootName), St({}, []));
    DedupDistinct(Emitted(data, rootName), {});
  }

  /** For an object, the interface for the root itself comes last and is named after the root. */
  lemma RootInterfaceLast(data: Json, rootName: string)
    requires data.JObject?
    ensures |Emitted(data, rootName)| > 0
    ensures NameOf(Emitted(data, rootName)[|Emitted(data, rootName)| - 1]) == InterfaceBase(rootName)
  {
    var root := InterfaceBase(rootName);
    ExtractOk(data, root, St({}, []));
    InterfaceBaseIdempotent(rootName);
  }

  /** An object reachable through first array elements, the only ones `getType` looks at. */
  predicate HasObject(v: Json)
  {
    match v
    case JObject(_) => true
    case JArray(items) => |items| > 0 && HasObject(items[0])
    case _ => false
  }

  /**
   * Without such an object the two modes produce the same type text, and the
   * multi-interface mode leaves its state alone.
   */
  lemma {:induction false} NoObjectModesAgree(v: Json, key: string, st: St, indent: nat, asWritten: bool)
    requires !HasObject(v)
    ensures TypeM(v, key, st) == (TypeI(v, indent, asWritten), st)
  {
    if v.JArray? && v.items != [] {
      NoObjectModesAgree(v.items[0], key, st, indent, asWritten);
    }
  }

  /** With such an object, the multi-interface mode emits at least one interface. */
  lemma {:induction false} ObjectEmits(v: Json, key: string, st: St)
    requires HasObject(v) && Inv(st)
    ensures |TypeM(v, key, st).1.interfaces| > |st.interfaces|
  {
    if v.JObject? {
      ExtractOk(v, if key == "" then "Item" else key, st);
    } else {
      ObjectEmits(v.items[0], key, st);
    }
  }

  /** The multi-interface output is empty exactly when the input holds no reachable object. */
  lemma MultiEmptyIff(data: Json, rootName: string)
    ensures TypeScriptOf(data, true, rootName) == "" <==> !HasObject(data)
  {
    var root := InterfaceBase(rootName);
    MultiOutputKeepsAll(data, rootName);
    var emitted := Emitted(data, rootName);
    if HasObject(data) {
      ObjectEmits(data, root, St({}, []));
      TypeOk(data, root, St({}, []));
      assert NameOf(emitted[0]) != [];
      JoinNonEmpty(emitted, "\n\n");
    } else {
      NoObjectModesAgree(data, root, St({}, []), 0, false);
    }
  }

  /** Joining texts gives a non-empty string when the first is not empty. */
  lemma JoinNonEmpty(parts: seq<string>, sep: string)
    requires |parts| > 0 && |parts[0]| > 0
    ensures Join(parts, sep) != ""
  {
    if |parts| > 1 {
      assert Join(parts, sep) == parts[0] + sep + Join(parts[1..], sep);
    }
  }

  /* ---------------------------------------------------------------------- */
  /* inline mode                                                             */
  /* ---------------------------------------------------------------------- */

  predicate EndsWithBrackets(s: string)
  {
    |s| >= 2 && s[|s| - 2..] == "[]"
  }

  /** An inline type ends in `[]` exactly when it is the type of an array. */
  lemma InlineArraySuffix(v: Json, indent: nat)
    ensures EndsWithBrackets(TypeI(v, indent, false)) <==> v.JArray?
  {
    var t := TypeI(v, indent, false);
    if v.JObject? {
      assert t[|t| - 1] == '}';
    }
  }

  /** So a property line ends in `[]` exactly when its value is an array, nested objects included. */
  lemma InlinePropertyArraySuffix(key: string, value: Json, indent: nat)
    ensures EndsWithBrackets(PropertyI(key, value, indent, false)) <==> value.JArray?
  {
    var t := TypeI(value, indent + 1, false);
    var line := PropertyI(key, value, indent, false);
    InlineArraySuffix(value, indent + 1);
    assert line[|line| - |t|..] == t;
    if |t| >= 2 {
      assert line[|line| - 2..] == t[|t| - 2..];
    }
  }

  /** The inline type of a value with a reachable object starts with a brace. */
  lemma {:induction false} InlineObjectBrace(v: Json, indent: nat, asWritten: bool)
    requires HasObject(v)
    ensures |TypeI(v, indent, asWritten)| > 0 && TypeI(v, indent, asWritten)[0] == '{'
  {
    if v.JArray? {
      InlineObjectBrace(v.items[0], indent, asWritten);
    }
  }

  /**
   * As written, a property whose value is an array reaching an object is
   * re-formatted into a plain object type: its line never ends in `[]`.
   */
  lemma AsWrittenDropsArraySuffix(key: string, value: Json, indent: nat)
    requires value.JArray? && HasObject(value)
    ensures !EndsWithBrackets(PropertyI(key, value, indent, true))
  {
    InlineObjectBrace(value, indent + 1, true);
    var line := PropertyI(key, value, indent, true);
    assert line[|line| - 1] == '}';
  }
}
