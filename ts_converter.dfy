/**
 * `convertToTypeScript` as the source writes it: a converter whose
 * `usedNames` and `allInterfaces` are updated in place while `getType`
 * walks the value. Every method is proved to compute what the functions
 * of `TsSpec` describe.
 */
module TsConverter {
  import opened Js
  import opened JsonData
  import opened TsNames
  import opened TsSpec

  class Converter {
    const useMultipleInterfaces: bool
    /** The interface names handed out so far. */
    var usedNames: set<string>
    /** Every interface text pushed so far, duplicates included. */
    var allInterfaces: seq<string>

    /** The converter's state as the functions of `TsSpec` see it. */
    function State(): St
      reads this
    {
      St(usedNames, allInterfaces)
    }

    constructor(useMultipleInterfaces: bool)
      ensures this.useMultipleInterfaces == useMultipleInterfaces
      ensures usedNames == {} && allInterfaces == []
    {
      this.useMultipleInterfaces := useMultipleInterfaces;
      usedNames := {};
      allInterfaces := [];
    }

    /**
     * `generateInterfaceName`: the sanitised, capitalised base name, or the
     * first `name<k>` with `k >= 1` that is not taken; it is recorded as used.
     */
    method GenerateInterfaceName(baseName: string) returns (name: string)
      modifies this
      ensures (name, State()) == Generate(baseName, old(State()))
      ensures name !in old(usedNames) && IsTypeName(name)
    {
      ghost var st0 := State();
      var sanitized := SanitizeName(baseName);
      name := Capitalize(sanitized);
      assert name == InterfaceBase(baseName);
      if name in usedNames {
        var counter := 1;
        while Numbered(name, counter) in usedNames
          invariant State() == st0
          invariant 1 <= counter <= |usedNames| + 1
          invariant forall j :: 1 <= j < counter ==> Numbered(name, j) in usedNames
          decreases |usedNames| + 1 - counter
        {
          Pigeonhole(name, usedNames, counter);
          counter := counter + 1;
        }
        FirstFreeFinds(name, usedNames, 1, counter);
        name := Numbered(name, counter);
      }
      assert name == FreshName(baseName, usedNames);
      FreshNameFresh(baseName, usedNames);
      usedNames := usedNames + {name};
      assert State() == st0.(used := st0.used + {name});
    }

    /**
     * `getType`. With `useMultipleInterfaces` an object becomes an interface
     * named after `key` (or `Item`) and its name is the type; otherwise it
     * is written inline at depth `indent` and the state is left alone.
     */
    method GetType(value: Json, key: string, indent: nat) returns (t: string)
      modifies this
      ensures useMultipleInterfaces ==> (t, State()) == TypeM(value, key, old(State()))
      ensures !useMultipleInterfaces ==> t == TypeI(value, indent, false) && State() == old(State())
      decreases value, 3
    {
      match value
      case JNull =>
        t := "null";
      case JArray(items) =>
        if items == [] {
          t := "unknown[]";
        } else {
          var itemType := GetType(items[0], key, indent);
          t := itemType + "[]";
        }
      case JObject(entries) =>
        if useMultipleInterfaces {
          var interfaceName := GenerateInterfaceName(if key == "" then "Item" else key);
          var interfaceDef := ConvertObjectToInterface(value, interfaceName);
          allInterfaces := allInterfaces + [interfaceDef];
          t := interfaceName;
        } else {
          t := InlineObject(value, indent);
        }
      case _ =>
        t := TypeOfScalar(value);
    }

    /** The inline branch of `getType` for an object: one line per entry, then the closing brace. */
    method InlineObject(obj: Json, indent: nat) returns (t: string)
      requires obj.JObject? && !useMultipleInterfaces
      modifies this
      ensures t == TypeI(obj, indent, false) && State() == old(State())
      decreases obj, 2
    {
      var st0 := State();
      var indentStr := Indent(indent);
      var properties: seq<string> := [];
      var i := 0;
      while i < |obj.entries|
        invariant 0 <= i <= |obj.entries|
        invariant State() == st0
        invariant PropertiesI(obj, 0, indent, false) == properties + PropertiesI(obj, i, indent, false)
      {
        var (propKey, propValue) := obj.entries[i];
        assert propValue < obj.entries[i] < obj;
        var propType := GetType(propValue, propKey, indent + 1);
        var line := indentStr + "  " + SanitizeName(propKey) + ": " + propType;
        assert PropertiesI(obj, i, indent, false) == [line] + PropertiesI(obj, i + 1, indent, false);
        assert properties + ([line] + PropertiesI(obj, i + 1, indent, false))
            == (properties + [line]) + PropertiesI(obj, i + 1, indent, false);
        properties := properties + [line];
        i := i + 1;
      }
      assert properties + [] == properties;
      t := "{\n" + Join(properties, "\n") + "\n" + indentStr + "}";
    }

    /** `convertObjectToInterface`: the interface text; nested interfaces are pushed on the way. */
    method ConvertObjectToInterface(obj: Json, interfaceName: string) returns (text: string)
      requires obj.JObject? && useMultipleInterfaces
      modifies this
      ensures (text, State()) == InterfaceM(obj, interfaceName, old(State()))
      decreases obj, 1
    {
      var st0 := State();
      var properties: seq<string> := [];
      assert [] + PropertiesM(obj, 0, st0).0 == PropertiesM(obj, 0, st0).0;
      var i := 0;
      while i < |obj.entries|
        invariant 0 <= i <= |obj.entries|
        invariant PropertiesM(obj, 0, st0)
               == (properties + PropertiesM(obj, i, State()).0, PropertiesM(obj, i, State()).1)
      {
        var (propKey, propValue) := obj.entries[i];
        assert propValue < obj.entries[i] < obj;
        ghost var st := State();
        var line := PropertyLine(propKey, propValue);
        ghost var rest := PropertiesM(obj, i + 1, State());
        assert PropertiesM(obj, i, st) == ([line] + rest.0, rest.1);
        assert properties + ([line] + rest.0) == (properties + [line]) + rest.0;
        properties := properties + [line];
        i := i + 1;
      }
      assert properties + [] == properties;
      text := "interface " + interfaceName + " {\n" + Join(properties, "\n") + "\n}";
    }

    /**
     * One pass of the property loop: a nested object, or the first element
     * of a non-empty array when it is an object, becomes an interface of
     * its own; anything else is typed by `getType`.
     */
    method PropertyLine(key: string, value: Json) returns (line: string)
      requires useMultipleInterfaces
      modifies this
      ensures (line, State()) == PropertyM(key, value, old(State()))
      decreases value, 4
    {
      if value.JObject? {
        var nestedName := GenerateInterfaceName(key);
        var nestedInterface := ConvertObjectToInterface(value, nestedName);
        allInterfaces := allInterfaces + [nestedInterface];
        line := "  " + SanitizeName(key) + ": " + nestedName;
      } else if value.JArray? && |value.items| > 0 && value.items[0].JObject? {
        var firstItem := value.items[0];
        var nestedName := GenerateInterfaceName(key);
        var nestedInterface := ConvertObjectToInterface(firstItem, nestedName);
        allInterfaces := allInterfaces + [nestedInterface];
        line := "  " + SanitizeName(key) + ": " + nestedName + "[]";
        assert line == MemberLine(key, nestedName + "[]");
      } else {
        var t := GetType(value, key, 0);
        line := "  " + SanitizeName(key) + ": " + t;
      }
    }
  }

  /**
   * `convertToTypeScript(data, { useMultipleInterfaces, rootName })`: with
   * multiple interfaces, every interface pushed, first occurrences only,
   * separated by blank lines; otherwise a single type alias.
   */
  method ConvertToTypeScript(data: Json, useMultipleInterfaces: bool, rootName: string) returns (out: string)
    ensures out == TypeScriptOf(data, useMultipleInterfaces, rootName)
  {
    var converter := new Converter(useMultipleInterfaces);
    var sanitizedRootName := SanitizeName(rootName);
    var finalRootName := Capitalize(sanitizedRootName);
    if useMultipleInterfaces {
      var _ := converter.GetType(data, finalRootName, 0);
      var uniqueInterfaces := Dedup(converter.allInterfaces);
      out := Join(uniqueInterfaces, "\n\n");
    } else {
      var rootType := converter.GetType(data, rootName, 0);
      out := "type " + finalRootName + " = " + rootType;
    }
  }
}
