/**
  The locals an installation renders with: the casing variants of the module and package
  names, the blueprint's own locals merged on top, and the file map under `fileMap`.
*/
module Locals {
  import opened Wrappers
  import opened Assoc
  import opened JsValues
  import opened Context
  import opened Inflector
  import opened FileMap
  import Text

  /** A file map as a locals value: an object whose values are strings. */
  function FileMapValue(fm: Assoc<string>): (r: JsValue)
    ensures r.Obj? && |r.fields| == |fm|
    ensures forall i :: 0 <= i < |fm| ==> r.fields[i] == (fm[i].0, Str(fm[i].1))
  {
    Obj(StrFields(fm))
  }

  function StrFields(fm: Assoc<string>): (r: seq<(string, JsValue)>)
    ensures |r| == |fm|
    ensures forall i :: 0 <= i < |fm| ==> r[i] == (fm[i].0, Str(fm[i].1))
  {
    if |fm| == 0 then [] else [(fm[0].0, Str(fm[0].1))] + StrFields(fm[1..])
  }

  /** Reading a stored file map back as strings gives the same map. */
  lemma FileMapRoundTrip(fm: Assoc<string>)
    ensures StringValues(FileMapValue(fm).fields) == fm
  {
    var r := StringValues(FileMapValue(fm).fields);
    assert |r| == |fm|;
    assert forall i :: 0 <= i < |fm| ==> r[i] == fm[i];
  }

  /** `(options.entity && options.entity.name) || project.name()`. */
  function ModuleName(options: Options): (r: string)
    ensures TruthyString(EntityName(options)) ==> r == EntityName(options).value
    ensures !TruthyString(EntityName(options)) ==> r == options.project.name
  {
    if TruthyString(EntityName(options)) then EntityName(options).value else options.project.name
  }

  const StandardLocalKeys: seq<string> := [
    "dasherizedPackageName", "classifiedPackageName", "dasherizedModuleName",
    "classifiedModuleName", "camelizedModuleName", "decamelizedModuleName", "fileMap"]

  lemma StandardLocalKeysDistinct()
    ensures Distinct(StandardLocalKeys)
  {
    var ks := StandardLocalKeys;
    assert ks[0][10] == 'P' && ks[2][10] == 'M' && ks[5][1] == 'e' && ks[0][1] == 'a';
    assert ks[1][10] == 'P' && ks[3][10] == 'M' && ks[4][1] == 'a' && ks[1][1] == 'l';
    assert ks[0][0] == 'd' && ks[1][0] == 'c' && ks[2][0] == 'd' && ks[3][0] == 'c';
    assert ks[4][0] == 'c' && ks[5][0] == 'd' && ks[6][0] == 'f' && ks[3][1] == 'l' && ks[2][1] == 'a';
  }

  /**
    The engine's own locals for a package and module name: the module name's `/` become `-`
    before classifying, camelizing and decamelizing, but not before dasherizing.
  */
  function StandardLocals(inf: Inflector, packageName: string, moduleName: string, fm: Assoc<string>): (r: Locals)
    ensures |r| == |StandardLocalKeys|
    ensures forall i :: 0 <= i < |r| ==> r[i].0 == StandardLocalKeys[i]
  {
    var sanitized := Text.ReplaceChar(moduleName, '/', '-');
    [("dasherizedPackageName", Str(inf.dasherize(packageName))),
     ("classifiedPackageName", Str(inf.classify(packageName))),
     ("dasherizedModuleName", Str(inf.dasherize(moduleName))),
     ("classifiedModuleName", Str(inf.classify(sanitized))),
     ("camelizedModuleName", Str(inf.camelize(sanitized))),
     ("decamelizedModuleName", Str(inf.decamelize(sanitized))),
     ("fileMap", FileMapValue(fm))]
  }

  /** The binding of the `i`-th standard key. */
  lemma StandardLocalAt(inf: Inflector, packageName: string, moduleName: string, fm: Assoc<string>, i: nat)
    requires i < |StandardLocalKeys|
    ensures var r := StandardLocals(inf, packageName, moduleName, fm);
      Lookup(r, StandardLocalKeys[i]) == Some(r[i].1)
  {
    var r := StandardLocals(inf, packageName, moduleName, fm);
    StandardLocalKeysDistinct();
    assert r[i].0 == StandardLocalKeys[i];
    assert forall j :: 0 <= j < i ==> r[j].0 != r[i].0;
    LookupAt(r, i);
  }

  /** The standard locals bind exactly the standard keys, each to its casing variant. */
  lemma StandardLocalsLookup(inf: Inflector, packageName: string, moduleName: string, fm: Assoc<string>)
    ensures var r := StandardLocals(inf, packageName, moduleName, fm);
      var sanitized := Text.ReplaceChar(moduleName, '/', '-');
      && (forall k :: Lookup(r, k).Some? <==> k in StandardLocalKeys)
      && Lookup(r, "dasherizedPackageName") == Some(Str(inf.dasherize(packageName)))
      && Lookup(r, "classifiedPackageName") == Some(Str(inf.classify(packageName)))
      && Lookup(r, "dasherizedModuleName") == Some(Str(inf.dasherize(moduleName)))
      && Lookup(r, "classifiedModuleName") == Some(Str(inf.classify(sanitized)))
      && Lookup(r, "camelizedModuleName") == Some(Str(inf.camelize(sanitized)))
      && Lookup(r, "decamelizedModuleName") == Some(Str(inf.decamelize(sanitized)))
      && Lookup(r, "fileMap") == Some(FileMapValue(fm))
  {
    var r := StandardLocals(inf, packageName, moduleName, fm);
    LookupDefinedIff(r, StandardLocalKeys);
    StandardLocalAt(inf, packageName, moduleName, fm, 0);
    StandardLocalAt(inf, packageName, moduleName, fm, 1);
    StandardLocalAt(inf, packageName, moduleName, fm, 2);
    StandardLocalAt(inf, packageName, moduleName, fm, 3);
    StandardLocalAt(inf, packageName, moduleName, fm, 4);
    StandardLocalAt(inf, packageName, moduleName, fm, 5);
    StandardLocalAt(inf, packageName, moduleName, fm, 6);
  }

  /** What a blueprint contributes to the locals computation. */
  datatype LocalsInputs = LocalsInputs(
    blueprintName: string,
    hasPathToken: Option<bool>,
    tokens: Assoc<Token>)

  /** The file map of an installation: the blueprint's tokens on the variables built from the
      module name and the custom locals the blueprint's `locals` hook returned. */
  function InstallFileMap(inf: Inflector, b: LocalsInputs, custom: Locals, options: Options): Assoc<string> {
    GenerateFileMap(inf, b.tokens,
      GenerateFileMapVariables(inf, b.blueprintName, b.hasPathToken, ModuleName(options), custom, options))
  }

  /**
    `_locals(options)`: the standard locals with the custom locals merged over them. Custom keys
    win, except `fileMap`, which always holds the file map the engine computed.
  */
  function ResolveLocals(inf: Inflector, b: LocalsInputs, custom: Locals, options: Options): (r: Locals)
    ensures Lookup(r, "fileMap") == Some(FileMapValue(InstallFileMap(inf, b, custom, options)))
    ensures forall k :: k != "fileMap" && Lookup(custom, k).Some? ==>
      Lookup(r, k) == Lookup(custom, k)
    ensures forall k :: k !in StandardLocalKeys ==> Lookup(r, k) == Lookup(custom, k)
    ensures forall k :: Lookup(custom, k).None? ==>
      Lookup(r, k) == Lookup(StandardLocals(inf, options.project.name, ModuleName(options), InstallFileMap(inf, b, custom, options)), k)
  {
    var fm := InstallFileMap(inf, b, custom, options);
    var standard := StandardLocals(inf, options.project.name, ModuleName(options), fm);
    StandardLocalsLookup(inf, options.project.name, ModuleName(options), fm);
    Set(Merge(standard, custom), "fileMap", FileMapValue(fm))
  }

  /** The default `mapFile` reads back exactly the file map the engine computed. */
  lemma MapFileUsesGeneratedMap(inf: Inflector, b: LocalsInputs, custom: Locals, options: Options)
    ensures FileMapOf(ResolveLocals(inf, b, custom, options)) == InstallFileMap(inf, b, custom, options)
  {
    var fm := InstallFileMap(inf, b, custom, options);
    FileMapRoundTrip(fm);
  }

  /** A custom local is kept as the blueprint returned it, whatever the standard locals hold. */
  lemma CustomLocalsWin(inf: Inflector, b: LocalsInputs, custom: Locals, options: Options, k: string)
    requires k != "fileMap"
    requires Lookup(custom, k).Some?
    ensures Lookup(ResolveLocals(inf, b, custom, options), k) == Lookup(custom, k)
  {
  }

  /** A name without `/` is not changed by sanitising. */
  lemma SanitizeWithoutSlash(name: string)
    requires '/' !in name
    ensures Text.ReplaceChar(name, '/', '-') == name
  {
  }

  /**
    Without custom locals, each casing variant is derived from the module name (the entity
    name, or the project name when the entity has none) and the package name.
  */
  lemma LocalsWithoutCustom(inf: Inflector, b: LocalsInputs, options: Options)
    ensures var r := ResolveLocals(inf, b, [], options);
      var m := Text.ReplaceChar(ModuleName(options), '/', '-');
      var p := options.project.name;
      && Lookup(r, "dasherizedPackageName") == Some(Str(inf.dasherize(p)))
      && Lookup(r, "classifiedPackageName") == Some(Str(inf.classify(p)))
      && Lookup(r, "dasherizedModuleName") == Some(Str(inf.dasherize(ModuleName(options))))
      && Lookup(r, "classifiedModuleName") == Some(Str(inf.classify(m)))
      && Lookup(r, "camelizedModuleName") == Some(Str(inf.camelize(m)))
      && Lookup(r, "decamelizedModuleName") == Some(Str(inf.decamelize(m)))
  {
    var fm := InstallFileMap(inf, b, [], options);
    StandardLocalAt(inf, options.project.name, ModuleName(options), fm, 0);
    StandardLocalAt(inf, options.project.name, ModuleName(options), fm, 1);
    StandardLocalAt(inf, options.project.name, ModuleName(options), fm, 2);
    StandardLocalAt(inf, options.project.name, ModuleName(options), fm, 3);
    StandardLocalAt(inf, options.project.name, ModuleName(options), fm, 4);
    StandardLocalAt(inf, options.project.name, ModuleName(options), fm, 5);
  }

  /** For the project `mock-project` without an entity or custom locals the casing variants are
      the ones the test suite expects. */
  lemma DefaultLocalsExample(inf: Inflector, b: LocalsInputs, options: Options)
    requires AgreesWithTests(inf)
    requires options.project.name == "mock-project" && options.entity.None?
    ensures var r := ResolveLocals(inf, b, [], options);
      && Lookup(r, "dasherizedPackageName") == Some(Str("mock-project"))
      && Lookup(r, "classifiedPackageName") == Some(Str("MockProject"))
      && Lookup(r, "dasherizedModuleName") == Some(Str("mock-project"))
      && Lookup(r, "classifiedModuleName") == Some(Str("MockProject"))
      && Lookup(r, "camelizedModuleName") == Some(Str("mockProject"))
      && Lookup(r, "decamelizedModuleName") == Some(Str("mock-project"))
  {
    assert ModuleName(options) == "mock-project";
    SanitizeWithoutSlash("mock-project");
    LocalsWithoutCustom(inf, b, options);
  }

  /** With the entity name `foo` every module-name variant is derived from `foo`, while the
      package-name variants still come from the project. */
  lemma EntityLocalsExample(inf: Inflector, b: LocalsInputs, options: Options)
    requires AgreesWithTests(inf)
    requires options.project.name == "mock-project" && options.entity == Some(Entity(Some("foo")))
    ensures var r := ResolveLocals(inf, b, [], options);
      && Lookup(r, "dasherizedPackageName") == Some(Str("mock-project"))
      && Lookup(r, "classifiedPackageName") == Some(Str("MockProject"))
      && Lookup(r, "dasherizedModuleName") == Some(Str("foo"))
      && Lookup(r, "classifiedModuleName") == Some(Str("Foo"))
      && Lookup(r, "camelizedModuleName") == Some(Str("foo"))
      && Lookup(r, "decamelizedModuleName") == Some(Str("foo"))
  {
    assert ModuleName(options) == "foo";
    SanitizeWithoutSlash("foo");
    LocalsWithoutCustom(inf, b, options);
  }

  /** The key order of the default locals object. */
  lemma DefaultLocalsKeys(inf: Inflector, b: LocalsInputs, options: Options)
    ensures Keys(ResolveLocals(inf, b, [], options)) == StandardLocalKeys
  {
    var fm := InstallFileMap(inf, b, [], options);
    var standard := StandardLocals(inf, options.project.name, ModuleName(options), fm);
    assert Keys<JsValue>([]) == [];
    assert Merge(standard, []) == standard;
    StandardLocalAt(inf, options.project.name, ModuleName(options), fm, 6);
    SetSame(standard, "fileMap", FileMapValue(fm));
    StandardLocalKeysDistinct();
    KeysOfDistinct(standard, StandardLocalKeys);
  }

  /** The keys of a list whose keys are distinct are those keys, in order. */
  lemma {:induction false} KeysOfDistinct<V>(xs: Assoc<V>, ks: seq<string>)
    requires |xs| == |ks| && Distinct(ks)
    requires forall i :: 0 <= i < |xs| ==> xs[i].0 == ks[i]
    ensures Keys(xs) == ks
    decreases |xs|
  {
    if |xs| > 0 {
      assert Distinct(ks[1..]) by {
        forall i, j | 0 <= i < j < |ks[1..]| ensures ks[1..][i] != ks[1..][j] {
          assert ks[1..][i] == ks[i + 1] && ks[1..][j] == ks[j + 1];
        }
      }
      KeysOfDistinct(xs[1..], ks[1..]);
      assert ks[0] !in ks[1..] by {
        forall j | 0 <= j < |ks[1..]| ensures ks[1..][j] != ks[0] {
          assert ks[1..][j] == ks[j + 1];
        }
      }
      RemoveAllAbsent(ks[1..], ks[0]);
      assert ks == [ks[0]] + ks[1..];
    }
  }

  lemma {:induction false} RemoveAllAbsent(xs: seq<string>, x: string)
    requires x !in xs
    ensures RemoveAll(xs, x) == xs
    decreases |xs|
  {
    if |xs| > 0 {
      assert x !in xs[1..] by {
        forall j | 0 <= j < |xs[1..]| ensures xs[1..][j] != x {
          assert xs[1..][j] == xs[j + 1];
        }
      }
      RemoveAllAbsent(xs[1..], x);
      assert xs == [xs[0]] + xs[1..];
    }
  }
}
