/**
 * Worked conversions: the documented examples and the input that shows the
 * inline re-format bug. Each example takes its input as parameters tied to
 * the literal values, and is built from the general rendering lemmas below.
 */
module TsExamples {
  import opened Js
  import opened JsonData
  import opened TsNames
  import opened TsSpec
  import opened TsProps

  /* ---------------------------------------------------------------------- */
  /* rendering steps                                                         */
  /* ---------------------------------------------------------------------- */

  // Helpers of the worked examples: what the rendering functions give on
  // one or two scalar entries, and two facts about `Join` and `Indent`.

  predicate IsScalar(v: Json)
  {
    v.JBool? || v.JNumber? || v.JString?
  }

  /** A capitalised type name is its own interface base. */
  lemma BaseOfTypeName(name: string)
    requires IsTypeName(name) && 'A' <= name[0] <= 'Z'
    ensures InterfaceBase(name) == name
  {
    SanitizeFixedPoints(name);
    assert Capitalize(name) == [name[0]] + name[1..];
  }

  lemma MemberLineOf(key: string, typ: string)
    requires IsTypeName(key)
    ensures MemberLine(key, typ) == "  " + key + ": " + typ
  {
    SanitizeFixedPoints(key);
  }

  lemma ScalarPropertyI(key: string, value: Json, indent: nat, asWritten: bool)
    requires IsTypeName(key) && IsScalar(value)
    ensures PropertyI(key, value, indent, asWritten) == Indent(indent) + "  " + key + ": " + TypeOfScalar(value)
  {
    SanitizeFixedPoints(key);
  }

  lemma OneEntryI(obj: Json, indent: nat, asWritten: bool)
    requires obj.JObject? && |obj.entries| == 1
    ensures TypeI(obj, indent, asWritten)
         == "{\n" + PropertyI(obj.entries[0].0, obj.entries[0].1, indent, asWritten) + "\n" + Indent(indent) + "}"
  {
    assert PropertiesI(obj, 1, indent, asWritten) == [];
  }

  /** Joining two lines puts one separator between them. */
  lemma JoinPair(p0: string, p1: string, sep: string)
    ensures Join([p0, p1], sep) == p0 + sep + p1
  {
    assert [p0, p1][1..] == [p1];
  }

  lemma TwoPropertiesI(obj: Json, indent: nat, asWritten: bool)
    requires obj.JObject? && |obj.entries| == 2
    ensures PropertiesI(obj, 0, indent, asWritten)
         == [PropertyI(obj.entries[0].0, obj.entries[0].1, indent, asWritten),
             PropertyI(obj.entries[1].0, obj.entries[1].1, indent, asWritten)]
  {
    var p1 := PropertyI(obj.entries[1].0, obj.entries[1].1, indent, asWritten);
    assert PropertiesI(obj, 2, indent, asWritten) == [];
    assert PropertiesI(obj, 1, indent, asWritten) == [p1] + [];
    assert [p1] + [] == [p1];
  }

  lemma TwoEntriesI(obj: Json, indent: nat, asWritten: bool)
    requires obj.JObject? && |obj.entries| == 2
    ensures TypeI(obj, indent, asWritten)
         == "{\n" + (PropertyI(obj.entries[0].0, obj.entries[0].1, indent, asWritten) + "\n"
          + PropertyI(obj.entries[1].0, obj.entries[1].1, indent, asWritten)) + "\n" + Indent(indent) + "}"
  {
    TwoPropertiesI(obj, indent, asWritten);
    JoinPair(PropertyI(obj.entries[0].0, obj.entries[0].1, indent, asWritten),
             PropertyI(obj.entries[1].0, obj.entries[1].1, indent, asWritten), "\n");
  }

  lemma IndentZeroOne()
    ensures Indent(0) == "" && Indent(1) == "  "
  {
    assert Repeat(' ', 2) == [' '] + Repeat(' ', 1);
  }

  /* ---------------------------------------------------------------------- */
  /* the texts, assembled a few pieces at a time                             */
  /* ---------------------------------------------------------------------- */

  // Helpers of the worked examples, not properties of the converter: each
  // states one equality between string literals, a few pieces at a time,
  // so that no single example proof has to unfold a long literal at once.

  lemma FlatLines(a: string, ta: string, b: string, tb: string)
    requires a == "a" && ta == "number" && b == "b" && tb == "string"
    ensures "" + "  " + a + ": " + ta == "  a: number"
    ensures "" + "  " + b + ": " + tb == "  b: string"
  {
  }

  lemma FlatBody(p0: string, p1: string)
    requires p0 == "  a: number" && p1 == "  b: string"
    ensures "{\n" + (p0 + "\n" + p1) + "\n" + "" + "}" == "{\n  a: number\n  b: string\n}"
  {
    assert p0 + "\n" + p1 == "  a: number\n  b: string";
  }

  lemma RootAlias(root: string, body: string, expected: string)
    requires root == "Root" && expected == "type Root = " + body
    ensures "type " + root + " = " + body == expected
  {
    assert "type " + root + " = " == "type Root = ";
  }

  lemma FlatAlias(root: string, body: string)
    requires root == "Root" && body == "{\n  a: number\n  b: string\n}"
    ensures "type " + root + " = " + body == "type Root = {\n  a: number\n  b: string\n}"
  {
    RootAlias(root, body, "type Root = {\n  a: number\n  b: string\n}");
  }

  lemma UserText(userName: string, name: string, typ: string)
    requires userName == "User" && name == "name" && typ == "string"
    ensures "interface " + userName + " {\n" + ("  " + name + ": " + typ) + "\n}" == "interface User {\n  name: string\n}"
  {
    assert "  " + name + ": " + typ == "  name: string";
    assert "interface " + userName + " {\n" == "interface User {\n";
  }

  lemma RootText(root: string, user: string, userName: string)
    requires root == "Root" && user == "user" && userName == "User"
    ensures "interface " + root + " {\n" + ("  " + user + ": " + userName) + "\n}" == "interface Root {\n  user: User\n}"
  {
    assert "  " + user + ": " + userName == "  user: User";
    assert "interface " + root + " {\n" == "interface Root {\n";
  }

  lemma MultiJoinText(u: string, r: string)
    requires u == "interface User {\n  name: string\n}" && r == "interface Root {\n  user: User\n}"
    ensures u + "\n\n" + r == "interface User {\n  name: string\n}\n\ninterface Root {\n  user: User\n}"
  {
    assert u + "\n\n" == "interface User {\n  name: string\n}\n\n";
  }

  lemma ItemLine(b: string, tb: string)
    requires b == "b" && tb == "number"
    ensures "  " + "  " + b + ": " + tb == "    b: number"
  {
  }

  lemma ItemBody(p: string)
    requires p == "    b: number"
    ensures "{\n" + p + "\n" + "  " + "}" + "[]" == "{\n    b: number\n  }[]"
  {
    assert "{\n" + p == "{\n    b: number";
  }

  lemma ItemSplitText(t: string)
    requires t == "{\n    b: number\n  }[]"
    ensures t == "{" + ['\n'] + "    b: number" + ['\n'] + "  }[]"
  {
  }

  lemma ReformatText(middle: string)
    requires middle == "    b: number"
    ensures "{\n" + ("" + "  " + middle) + "\n" + "" + "  }" == "{\n      b: number\n  }"
  {
    assert "" + "  " + middle == "      b: number";
    assert "{\n" + "      b: number" == "{\n      b: number";
  }

  lemma AsWrittenLineText(ind: string, a: string, inner: string)
    requires ind == "" && a == "a" && inner == "{\n      b: number\n  }"
    ensures ind + "  " + a + ": " + inner == "  a: {\n      b: number\n  }"
  {
    assert ind + "  " + a + ": " == "  a: ";
  }

  lemma AsWrittenBodyText(line: string)
    requires line == "  a: {\n      b: number\n  }"
    ensures "{\n" + line + "\n" + "" + "}" == "{\n  a: {\n      b: number\n  }\n}"
  {
    assert "{\n" + line == "{\n  a: {\n      b: number\n  }";
  }

  lemma CorrectedLineText(ind: string, a: string, inner: string)
    requires ind == "" && a == "a" && inner == "{\n    b: number\n  }[]"
    ensures ind + "  " + a + ": " + inner == "  a: {\n    b: number\n  }[]"
  {
    assert ind + "  " + a + ": " == "  a: ";
  }

  lemma CorrectedBodyText(line: string)
    requires line == "  a: {\n    b: number\n  }[]"
    ensures "{\n" + line + "\n" + "" + "}" == "{\n  a: {\n    b: number\n  }[]\n}"
  {
    assert "{\n" + line == "{\n  a: {\n    b: number\n  }[]";
  }

  lemma CorrectedAlias(root: string, body: string)
    requires root == "Root" && body == "{\n  a: {\n    b: number\n  }[]\n}"
    ensures "type " + root + " = " + body == "type Root = {\n  a: {\n    b: number\n  }[]\n}"
  {
    RootAlias(root, body, "type Root = {\n  a: {\n    b: number\n  }[]\n}");
  }

  /** A property whose type is re-formatted, as the source does when the type starts with a brace. */
  lemma ReformattedPropertyI(key: string, value: Json, indent: nat)
    requires IsTypeName(key)
    requires var t := TypeI(value, indent + 1, true); |t| > 0 && t[0] == '{'
    ensures PropertyI(key, value, indent, true)
         == Indent(indent) + "  " + key + ": " + Reformat(TypeI(value, indent + 1, true), indent)
  {
    SanitizeFixedPoints(key);
  }

  /** A property line of the corrected rendering keeps its value's type text. */
  lemma PlainPropertyI(key: string, value: Json, indent: nat)
    requires IsTypeName(key)
    ensures PropertyI(key, value, indent, false) == Indent(indent) + "  " + key + ": " + TypeI(value, indent + 1, false)
  {
    SanitizeFixedPoints(key);
  }

  /* ---------------------------------------------------------------------- */
  /* {"a": 1, "b": "x"} in inline mode                                       */
  /* ---------------------------------------------------------------------- */

  /** Inline mode: one entry per line, two spaces deep, in entry order. */
  lemma InlineExample(data: Json, rootName: string)
    requires data == JObject([("a", JNumber(1.0)), ("b", JString("x"))]) && rootName == "Root"
    ensures TypeScriptOf(data, false, rootName) == "type Root = {\n  a: number\n  b: string\n}"
  {
    var (a, va) := data.entries[0];
    var (b, vb) := data.entries[1];
    BaseOfTypeName(rootName);
    IndentZeroOne();
    ScalarPropertyI(a, va, 0, false);
    ScalarPropertyI(b, vb, 0, false);
    FlatLines(a, TypeOfScalar(va), b, TypeOfScalar(vb));
    TwoEntriesI(data, 0, false);
    FlatBody(PropertyI(a, va, 0, false), PropertyI(b, vb, 0, false));
    FlatAlias(rootName, TypeI(data, 0, false));
  }

  /* ---------------------------------------------------------------------- */
  /* {"user": {"name": "x"}} in multi-interface mode                         */
  /* ---------------------------------------------------------------------- */

  /** Generating a name that is not taken yet. */
  lemma GenerateUnused(base: string, st: St)
    requires InterfaceBase(base) !in st.used
    ensures Generate(base, st) == (InterfaceBase(base), St(st.used + {InterfaceBase(base)}, st.interfaces))
  {
  }

  lemma UserBase(user: string)
    requires user == "user"
    ensures InterfaceBase(user) == "User"
  {
    SanitizeFixedPoints(user);
    assert Capitalize(user) == [ToUpperAscii(user[0])] + user[1..];
  }

  /** The properties of a one-entry object whose value is a scalar: one line, state untouched. */
  lemma OneScalarEntryM(obj: Json, st: St)
    requires obj.JObject? && |obj.entries| == 1 && IsTypeName(obj.entries[0].0) && IsScalar(obj.entries[0].1)
    ensures PropertiesM(obj, 0, st) == (["  " + obj.entries[0].0 + ": " + TypeOfScalar(obj.entries[0].1)], st)
  {
    var (key, value) := obj.entries[0];
    MemberLineOf(key, TypeOfScalar(value));
    assert TypeM(value, key, st) == (TypeOfScalar(value), st);
    assert PropertyM(key, value, st) == (MemberLine(key, TypeOfScalar(value)), st);
    assert PropertiesM(obj, 1, st) == ([], st);
    assert PropertiesM(obj, 0, st) == ([MemberLine(key, TypeOfScalar(value))] + [], st);
    assert [MemberLine(key, TypeOfScalar(value))] + [] == [MemberLine(key, TypeOfScalar(value))];
  }

  /** The properties of a one-entry object whose value is an object: it is extracted first. */
  lemma OneObjectEntryM(obj: Json, st: St)
    requires obj.JObject? && |obj.entries| == 1 && IsTypeName(obj.entries[0].0) && obj.entries[0].1.JObject?
    ensures PropertiesM(obj, 0, st)
         == (["  " + obj.entries[0].0 + ": " + Extract(obj.entries[0].1, obj.entries[0].0, st).0],
             Extract(obj.entries[0].1, obj.entries[0].0, st).1)
  {
    var (key, value) := obj.entries[0];
    var r := Extract(value, key, st);
    MemberLineOf(key, r.0);
    assert PropertyM(key, value, st) == (MemberLine(key, r.0), r.1);
    assert PropertiesM(obj, 1, r.1) == ([], r.1);
    assert PropertiesM(obj, 0, st) == ([MemberLine(key, r.0)] + [], r.1);
    assert [MemberLine(key, r.0)] + [] == [MemberLine(key, r.0)];
  }

  /** An interface with a single property line. */
  lemma OneLineInterface(name: string, line: string)
    ensures InterfaceText(name, [line]) == "interface " + name + " {\n" + line + "\n}"
  {
  }

  /** The nested object becomes interface `User`, with the root name already taken. */
  lemma UserExtract(inner: Json, user: string, rootName: string)
    requires inner == JObject([("name", JString("x"))]) && user == "user" && rootName == "Root"
    ensures Extract(inner, user, St({rootName}, []))
         == (InterfaceBase(user),
             St({rootName, InterfaceBase(user)},
                [InterfaceText(InterfaceBase(user), ["  " + inner.entries[0].0 + ": " + TypeOfScalar(inner.entries[0].1)])]))
  {
    UserBase(user);
    var userName := InterfaceBase(user);
    var st1 := St({rootName}, []);
    var st2 := St({rootName, userName}, []);
    GenerateUnused(user, st1);
    assert {rootName} + {userName} == {rootName, userName};
    OneScalarEntryM(inner, st2);
    var userText := InterfaceText(userName, ["  " + inner.entries[0].0 + ": " + TypeOfScalar(inner.entries[0].1)]);
    assert InterfaceM(inner, userName, st2) == (userText, st2);
    assert st2.interfaces + [userText] == [userText];
  }

  /** The root object's interface comes after the nested one. */
  lemma MultiEmitted(data: Json, rootName: string)
    requires data == JObject([("user", JObject([("name", JString("x"))]))]) && rootName == "Root"
    ensures var (user, inner) := data.entries[0];
      var userName := InterfaceBase(user);
      Emitted(data, rootName)
      == [InterfaceText(userName, ["  " + inner.entries[0].0 + ": " + TypeOfScalar(inner.entries[0].1)]),
          InterfaceText(rootName, ["  " + user + ": " + userName])]
  {
    var (user, inner) := data.entries[0];
    BaseOfTypeName(rootName);
    UserBase(user);
    var userName := InterfaceBase(user);
    var st0 := St({}, []);
    var st1 := St({rootName}, []);
    GenerateUnused(rootName, st0);
    assert {} + {rootName} == {rootName};
    UserExtract(inner, user, rootName);
    var userText := InterfaceText(userName, ["  " + inner.entries[0].0 + ": " + TypeOfScalar(inner.entries[0].1)]);
    var st3 := St({rootName, userName}, [userText]);
    OneObjectEntryM(data, st1);
    var userLine := "  " + user + ": " + userName;
    var rootText := InterfaceText(rootName, [userLine]);
    assert PropertiesM(data, 0, st1) == ([userLine], st3);
    assert InterfaceM(data, rootName, st1) == (rootText, st3);
    assert st3.interfaces + [rootText] == [userText, rootText];
    assert Extract(data, rootName, st0) == (rootName, st3.(interfaces := [userText, rootText]));
  }

  /** Multi-interface mode: the nested interface first, the root last, a blank line between. */
  lemma MultiExample(data: Json, rootName: string)
    requires data == JObject([("user", JObject([("name", JString("x"))]))]) && rootName == "Root"
    ensures TypeScriptOf(data, true, rootName)
         == "interface User {\n  name: string\n}\n\ninterface Root {\n  user: User\n}"
  {
    var (user, inner) := data.entries[0];
    var (name, value) := inner.entries[0];
    UserBase(user);
    var userName := InterfaceBase(user);
    var nameLine := "  " + name + ": " + TypeOfScalar(value);
    var userLine := "  " + user + ": " + userName;
    var userText := InterfaceText(userName, [nameLine]);
    var rootText := InterfaceText(rootName, [userLine]);
    MultiEmitted(data, rootName);
    MultiOutputKeepsAll(data, rootName);
    JoinPair(userText, rootText, "\n\n");
    OneLineInterface(userName, nameLine);
    OneLineInterface(rootName, userLine);
    UserText(userName, name, TypeOfScalar(value));
    RootText(rootName, user, userName);
    MultiJoinText(userText, rootText);
  }

  /* ---------------------------------------------------------------------- */
  /* {"a": [{"b": 1}]} in inline mode                                        */
  /* ---------------------------------------------------------------------- */

  /** The type of the array `[{"b": 1}]` one level down, the same either way. */
  lemma ItemsArrayType(arr: Json, asWritten: bool)
    requires arr == JArray([JObject([("b", JNumber(1.0))])])
    ensures TypeI(arr, 1, asWritten) == "{\n    b: number\n  }[]"
  {
    var item := arr.items[0];
    var (b, vb) := item.entries[0];
    IndentZeroOne();
    ScalarPropertyI(b, vb, 1, asWritten);
    ItemLine(b, TypeOfScalar(vb));
    OneEntryI(item, 1, asWritten);
    ItemBody(PropertyI(b, vb, 1, asWritten));
  }

  /** Three separator-free parts joined by the separator split back into those parts. */
  lemma SplitThree(first: string, middle: string, last: string, sep: char)
    requires sep !in first && sep !in middle && sep !in last
    ensures Split(first + [sep] + middle + [sep] + last, sep) == [first, middle, last]
  {
    SplitNoSep(first, sep);
    SplitLast(first, sep, middle);
    SplitLast(first + [sep] + middle, sep, last);
  }

  /** The lines of that type: the opening brace, the property, and `  }[]`. */
  lemma ItemsSplit(t: string)
    requires t == "{\n    b: number\n  }[]"
    ensures Split(t, '\n') == ["{", "    b: number", "  }[]"]
  {
    ItemSplitText(t);
    SplitThree("{", "    b: number", "  }[]", '\n');
  }

  /** That type starts with a brace, so the source re-formats it. */
  lemma ItemsStartsWithBrace(t: string)
    requires t == "{\n    b: number\n  }[]"
    ensures |t| > 0 && t[0] == '{'
  {
  }

  /** The source's re-format of that type: the line holding `}[]` is replaced by `  }`. */
  lemma ItemsReformat(t: string)
    requires t == "{\n    b: number\n  }[]"
    ensures Reformat(t, 0) == "{\n      b: number\n  }"
  {
    var middle := "    b: number";
    ItemsSplit(t);
    IndentZeroOne();
    var indented := seq(1, j requires 0 <= j < 1 => Indent(0) + "  " + [middle][j]);
    assert indented == ["" + "  " + middle];
    ReformatText(middle);
  }

  /** As written, the array's type is re-formatted: it starts with a brace. */
  lemma ItemsReformatted(arr: Json)
    requires arr == JArray([JObject([("b", JNumber(1.0))])])
    ensures var t := TypeI(arr, 1, true);
      |t| > 0 && t[0] == '{' && Reformat(t, 0) == "{\n      b: number\n  }"
  {
    var t := TypeI(arr, 1, true);
    ItemsArrayType(arr, true);
    ItemsReformat(t);
    ItemsStartsWithBrace(t);
  }

  /** As written, the property line of `a` holds the re-formatted type. */
  lemma AsWrittenLine(a: string, arr: Json)
    requires a == "a" && arr == JArray([JObject([("b", JNumber(1.0))])])
    ensures PropertyI(a, arr, 0, true) == "  a: {\n      b: number\n  }"
  {
    ItemsReformatted(arr);
    IndentZeroOne();
    ReformattedPropertyI(a, arr, 0);
    AsWrittenLineText(Indent(0), a, Reformat(TypeI(arr, 1, true), 0));
  }

  /**
   * As written, the nested lines are indented twice over and the `[]` of the
   * array is lost, so the property reads as a single object.
   */
  lemma AsWrittenInlineExample(data: Json)
    requires data == JObject([("a", JArray([JObject([("b", JNumber(1.0))])]))])
    ensures TypeI(data, 0, true) == "{\n  a: {\n      b: number\n  }\n}"
  {
    AsWrittenLine(data.entries[0].0, data.entries[0].1);
    IndentZeroOne();
    OneEntryI(data, 0, true);
    AsWrittenBodyText(PropertyI(data.entries[0].0, data.entries[0].1, 0, true));
  }

  /** Corrected, the property line of `a` keeps the array's type text. */
  lemma CorrectedLine(data: Json)
    requires data == JObject([("a", JArray([JObject([("b", JNumber(1.0))])]))])
    ensures PropertyI(data.entries[0].0, data.entries[0].1, 0, false) == "  a: {\n    b: number\n  }[]"
  {
    var (a, arr) := data.entries[0];
    ItemsArrayType(arr, false);
    IndentZeroOne();
    PlainPropertyI(a, arr, 0);
    CorrectedLineText(Indent(0), a, TypeI(arr, 1, false));
  }

  /** Corrected: two spaces per level, and the array keeps its `[]`. */
  lemma CorrectedInlineExample(data: Json, rootName: string)
    requires data == JObject([("a", JArray([JObject([("b", JNumber(1.0))])]))]) && rootName == "Root"
    ensures TypeScriptOf(data, false, rootName) == "type Root = {\n  a: {\n    b: number\n  }[]\n}"
  {
    CorrectedLine(data);
    IndentZeroOne();
    BaseOfTypeName(rootName);
    OneEntryI(data, 0, false);
    CorrectedBodyText(PropertyI(data.entries[0].0, data.entries[0].1, 0, false));
    CorrectedAlias(rootName, TypeI(data, 0, false));
  }
}
