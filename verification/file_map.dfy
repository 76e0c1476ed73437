/**
  The path-token map of a blueprint installation. The file-map variables are collected from the
  options and the project, each token (`__name__`, `__path__`, `__root__`, `__test__`, plus any
  the blueprint adds) is a function of those variables, and the default `mapFile` rewrites a
  template path by replacing every token with its value.
*/
module FileMap {
  import opened Wrappers
  import opened Assoc
  import opened JsValues
  import opened Context
  import opened Inflector
  import Text

  /** The variables every token function receives. */
  datatype FileMapVariables = FileMapVariables(
    pod: Option<bool>,
    podPath: string,
    hasPathToken: Option<bool>,
    inAddon: bool,
    inDummy: bool,
    inRepoAddon: JsValue,
    blueprintName: string,
    originBlueprintName: string,
    dasherizedModuleName: string,
    locals: Locals)

  /** A token: a function from the file-map variables to the text that replaces it. */
  type Token = FileMapVariables -> string

  /**
    The pod path: the last segment of the configured `podModulePrefix`, or `""` when the
    prefix is not configured.
  */
  function PodPath(podModulePrefix: Option<string>): (r: string)
    ensures '/' !in r
    ensures podModulePrefix.None? ==> r == ""
    ensures podModulePrefix.Some? ==> Text.EndsWith(podModulePrefix.value, r)
    ensures podModulePrefix.Some? && '/' !in podModulePrefix.value ==> r == podModulePrefix.value
  {
    Text.Basename(podModulePrefix.GetOr(""))
  }

  /** A prefix `dir/name` yields `name`, whatever `dir` is. */
  lemma PodPathIsLastSegment(dir: string, name: string)
    requires '/' !in name
    ensures PodPath(Some(dir + "/" + name)) == name
  {
    Text.BasenameOfChild(dir, name);
  }

  /** `podModulePrefix: 'foo/bar'` gives the pod path `bar`. */
  lemma PodPathExample()
    ensures PodPath(Some("foo/bar")) == "bar"
  {
    PodPathIsLastSegment("foo", "bar");
    assert "foo" + "/" + "bar" == "foo/bar";
  }

  /**
    `_generateFileMapVariables(moduleName, locals, options)` for a blueprint called
    `blueprintName` whose file list does (or does not) use the `__path__` token.
  */
  function GenerateFileMapVariables(inf: Inflector, blueprintName: string, hasPathToken: Option<bool>,
                                    moduleName: string, locals: Locals, options: Options): (r: FileMapVariables)
    ensures r.inAddon <==> options.project.isAddon || Truthy(options.inRepoAddon)
    ensures r.inDummy == options.dummy
    ensures r.inRepoAddon == options.inRepoAddon
    ensures r.originBlueprintName ==
      (if TruthyString(options.originBlueprintName) then options.originBlueprintName.value else blueprintName)
    ensures r.podPath == PodPath(options.project.podModulePrefix)
    ensures r.pod == options.pod && r.hasPathToken == hasPathToken
    ensures r.blueprintName == blueprintName && r.locals == locals
    ensures r.dasherizedModuleName == inf.dasherize(moduleName)
  {
    FileMapVariables(
      pod := options.pod,
      podPath := PodPath(options.project.podModulePrefix),
      hasPathToken := hasPathToken,
      inAddon := options.project.isAddon || Truthy(options.inRepoAddon),
      inDummy := options.dummy,
      inRepoAddon := options.inRepoAddon,
      blueprintName := blueprintName,
      originBlueprintName :=
        if TruthyString(options.originBlueprintName) then options.originBlueprintName.value else blueprintName,
      dasherizedModuleName := inf.dasherize(moduleName),
      locals := locals)
  }

  /** Pod layout is in effect when both `pod` and `hasPathToken` are truthy. */
  predicate PodLayout(v: FileMapVariables) {
    v.pod == Some(true) && v.hasPathToken == Some(true)
  }

  /** `__name__`: the blueprint name in pod layout, the dasherized module name otherwise. */
  function NameToken(v: FileMapVariables): string {
    if PodLayout(v) then v.blueprintName else v.dasherizedModuleName
  }

  /** The blueprint name cut before its first `-test`, so a test blueprint shares its
      subject's folder. */
  function StripTestSuffix(name: string): (r: string)
    ensures Text.StartsWith(name, r)
    ensures !Text.Contains(name, "-test") ==> r == name
    ensures Text.Contains(name, "-test") ==> Text.OccursAt("-test", name, |r|)
  {
    match Text.IndexOf(name, "-test")
    case None => name
    case Some(i) => name[..i]
  }

  /** `__path__`: pod path joined with the module name in pod layout, otherwise the plural of
      the blueprint name without its `-test` part. */
  function PathToken(inf: Inflector, v: FileMapVariables): string {
    if PodLayout(v) then Text.JoinPath(v.podPath, v.dasherizedModuleName)
    else inf.pluralize(StripTestSuffix(v.blueprintName))
  }

  /** An in-repo addon named by a non-empty string. */
  predicate NamesInRepoAddon(inRepoAddon: JsValue) {
    inRepoAddon.Str? && inRepoAddon.s != ""
  }

  /** `__root__`: the in-repo addon's `addon` folder, the dummy app, the addon folder, or `app`. */
  function RootToken(v: FileMapVariables): string {
    if NamesInRepoAddon(v.inRepoAddon) then "lib/" + v.inRepoAddon.s + "/addon"
    else if v.inDummy then "tests/dummy/app"
    else if v.inAddon then "addon"
    else "app"
  }

  /** `__test__`: the blueprint name in pod layout, the module name plus `-test` otherwise. */
  function TestToken(v: FileMapVariables): string {
    if PodLayout(v) then v.blueprintName else v.dasherizedModuleName + "-test"
  }

  const StandardKeys: seq<string> := ["__name__", "__path__", "__root__", "__test__"]

  /** The built-in tokens, in declaration order. */
  function StandardTokens(inf: Inflector): (r: Assoc<Token>)
    ensures forall k :: Lookup(r, k).Some? <==> k in StandardKeys
  {
    var r := [("__name__", NameToken), ("__path__", v => PathToken(inf, v)), ("__root__", RootToken), ("__test__", TestToken)];
    assert forall i :: 0 <= i < |r| ==> r[i].0 == StandardKeys[i];
    r
  }

  /** Every token applied to the same variables, keys and order kept (`zipObject(keys, values)`). */
  function Evaluate(tokens: Assoc<Token>, v: FileMapVariables): (r: Assoc<string>)
    ensures |r| == |tokens|
    ensures forall i :: 0 <= i < |r| ==> r[i].0 == tokens[i].0
    ensures forall k :: Lookup(r, k) == (if Lookup(tokens, k).Some? then Some(Lookup(tokens, k).value(v)) else None)
  {
    if |tokens| == 0 then []
    else [(tokens[0].0, tokens[0].1(v))] + Evaluate(tokens[1..], v)
  }

  /**
    `generateFileMap(variables)`: the built-in tokens with the blueprint's own tokens merged on
    top, each evaluated on the variables.
  */
  function GenerateFileMap(inf: Inflector, custom: Assoc<Token>, v: FileMapVariables): (r: Assoc<string>)
    ensures forall k :: Lookup(r, k).Some? <==> k in StandardKeys || Lookup(custom, k).Some?
    ensures forall k :: Lookup(custom, k).Some? ==> Lookup(r, k) == Some(Lookup(custom, k).value(v))
    ensures forall k :: Lookup(custom, k).None? && Lookup(StandardTokens(inf), k).Some? ==>
      Lookup(r, k) == Some(Lookup(StandardTokens(inf), k).value(v))
  {
    Evaluate(Merge(StandardTokens(inf), custom), v)
  }

  /** Without custom tokens the file map is the four built-in tokens, in order, with their
      values. */
  lemma StandardFileMap(inf: Inflector, v: FileMapVariables)
    ensures GenerateFileMap(inf, [], v) ==
      [("__name__", NameToken(v)), ("__path__", PathToken(inf, v)), ("__root__", RootToken(v)), ("__test__", TestToken(v))]
  {
    var t := StandardTokens(inf);
    assert Keys<Token>([]) == [];
    assert Merge(t, []) == t;
    assert Evaluate(t[3..], v) == [("__test__", TestToken(v))] by {
      assert |t| == 4;
    }
    assert t[2..][1..] == t[3..];
    assert Evaluate(t[2..], v) == [("__root__", RootToken(v)), ("__test__", TestToken(v))];
    assert t[1..][1..] == t[2..];
    assert Evaluate(t[1..], v) == [("__path__", PathToken(inf, v)), ("__root__", RootToken(v)), ("__test__", TestToken(v))];
  }

  /** The file map does not depend on the locals carried in the variables. */
  lemma NoLocalsInFileMap(inf: Inflector, v: FileMapVariables, locals: Locals)
    ensures GenerateFileMap(inf, [], v.(locals := locals)) == GenerateFileMap(inf, [], v)
  {
    StandardFileMap(inf, v);
    StandardFileMap(inf, v.(locals := locals));
  }

  /** Outside pod layout `__test__` is `__name__` followed by `-test`. */
  lemma TestTokenFollowsName(v: FileMapVariables)
    requires !PodLayout(v)
    ensures TestToken(v) == NameToken(v) + "-test"
  {
  }

  /** Outside pod layout a `-test` blueprint shares the folder of the blueprint it tests. */
  lemma TestBlueprintSharesPath(inf: Inflector, v: FileMapVariables, base: string, suffix: string)
    requires !PodLayout(v)
    requires !Text.Contains(base, "-test")
    requires v.blueprintName == base + "-test" + suffix
    ensures PathToken(inf, v) == PathToken(inf, v.(blueprintName := base))
  {
    var name := base + "-test" + suffix;
    assert Text.OccursAt("-test", name, |base|) by {
      assert name[|base|..|base| + 5] == "-test";
    }
    forall j: nat | j < |base| ensures !Text.OccursAt("-test", name, j) {
      if j + 5 <= |base| {
        assert name[j..j + 5] == base[j..j + 5];
        assert !Text.OccursAt("-test", base, j);
      } else if j + 5 <= |name| {
        assert name[j..j + 5][|base| - j] == name[|base|] == '-';
      }
    }
    var i := Text.IndexOf(name, "-test");
    assert i.Some? by {
      assert Text.Contains(name, "-test");
    }
    assert i.value == |base|;
    assert name[..|base|] == base;
  }

  /** The variables of the `generateFileMap` test: pod set but no `__path__` token in use. */
  function ExampleVariables(): FileMapVariables {
    FileMapVariables(Some(true), "pods", None, false, false, Undefined, "test", "test", "foo-baz",
                     [("SOME_LOCAL_ARG", Str("ARGH"))])
  }

  /** With the module name `foo-baz` and blueprint `test` the file map holds exactly the four
      built-in tokens with the values `foo-baz`, `tests`, `app` and `foo-baz-test`. */
  lemma GenerateFileMapExample(inf: Inflector)
    requires AgreesWithTests(inf)
    ensures GenerateFileMap(inf, [], ExampleVariables()) ==
      [("__name__", "foo-baz"), ("__path__", "tests"), ("__root__", "app"), ("__test__", "foo-baz-test")]
  {
    var v := ExampleVariables();
    assert !Text.Contains("test", "-test") by {
      forall i: nat | i <= 4 ensures !Text.OccursAt("-test", "test", i) { }
    }
    assert StripTestSuffix("test") == "test";
    assert !PodLayout(v);
    assert "foo-baz" + "-test" == "foo-baz-test";
    assert PathToken(inf, v) == "tests";
    StandardFileMap(inf, v);
  }

  /** The default variables the tests expect for the `basic` blueprint and a plain project
      named `mock-project`. */
  lemma DefaultFileMapVariablesExample(inf: Inflector, project: Project)
    requires AgreesWithTests(inf)
    requires project.name == "mock-project" && !project.isAddon && project.podModulePrefix.None?
    ensures var options := Options(None, project, false, None, false, Undefined, None, [], []);
      GenerateFileMapVariables(inf, "basic", None, project.name, [], options) ==
      FileMapVariables(None, "", None, false, false, Undefined, "basic", "basic", "mock-project", [])
  {
  }

  /** `inRepoAddon: true` sets both `inAddon` and `inRepoAddon`, even in a project that is
      not an addon. */
  lemma InRepoAddonFlagExample(inf: Inflector, blueprintName: string, hasPathToken: Option<bool>,
                               moduleName: string, locals: Locals, options: Options)
    requires options.inRepoAddon == Bool(true)
    ensures GenerateFileMapVariables(inf, blueprintName, hasPathToken, moduleName, locals, options).inAddon
    ensures GenerateFileMapVariables(inf, blueprintName, hasPathToken, moduleName, locals, options).inRepoAddon == Bool(true)
  {
  }

  /** JavaScript's `String(v)` for the values a file map may hold. */
  function ToJsString(v: JsValue): string
    decreases v, 1, 0
  {
    match v
    case Undefined => "undefined"
    case Null => "null"
    case Bool(b) => if b then "true" else "false"
    case Str(s) => s
    case Num(n) => IntToString(n)
    case Arr(items) => JoinItems(items, 0)
    case Obj(_) => "[object Object]"
  }

  /** `items.slice(i).join(',')`, where `undefined` and `null` items contribute nothing. */
  function JoinItems(items: seq<JsValue>, i: nat): string
    requires i <= |items|
    decreases Arr(items), 0, |items| - i
  {
    if i == |items| then ""
    else
      var first := if items[i].Undefined? || items[i].Null? then "" else ToJsString(items[i]);
      if i + 1 == |items| then first else first + "," + JoinItems(items, i + 1)
  }

  function DigitsOf(n: nat): (r: string)
    ensures |r| > 0
    ensures forall i :: 0 <= i < |r| ==> '0' <= r[i] <= '9'
  {
    var d := [(n % 10) as char + '0'];
    if n < 10 then d else DigitsOf(n / 10) + d
  }

  function IntToString(n: int): string {
    if n < 0 then "-" + DigitsOf(-n) else DigitsOf(n)
  }

  /**
    The token map the default `mapFile` uses: `locals.fileMap` when it is an object (values
    turned into strings), a single `__name__` token bound to the dasherized module name when it
    is missing or falsy, and no token at all for another truthy value.
  */
  function FileMapOf(locals: Locals): (r: Assoc<string>)
    ensures Lookup(locals, "fileMap").Some? && Lookup(locals, "fileMap").value.Obj? ==>
      Keys(r) == Keys(Lookup(locals, "fileMap").value.fields)
    ensures (Lookup(locals, "fileMap").None? || !Truthy(Lookup(locals, "fileMap").value)) ==>
      r == [("__name__", ToJsString(Get(Obj(locals), "dasherizedModuleName")))]
  {
    var fm := Lookup(locals, "fileMap");
    if fm.Some? && fm.value.Obj? then StringValues(fm.value.fields)
    else if fm.Some? && Truthy(fm.value) then []
    else [("__name__", ToJsString(Get(Obj(locals), "dasherizedModuleName")))]
  }

  function StringValues(fields: seq<(string, JsValue)>): (r: Assoc<string>)
    ensures |r| == |fields|
    ensures forall i :: 0 <= i < |r| ==> r[i] == (fields[i].0, ToJsString(fields[i].1))
    ensures Keys(r) == Keys(fields)
  {
    if |fields| == 0 then []
    else [(fields[0].0, ToJsString(fields[0].1))] + StringValues(fields[1..])
  }

  /** Each token replaced, everywhere, by its value, tokens taken in map order. Empty keys are
      passed over. */
  function ReplaceTokens(file: string, fm: Assoc<string>): string
    decreases |fm|
  {
    if |fm| == 0 then file
    else if fm[0].0 == "" then ReplaceTokens(file, fm[1..])
    else ReplaceTokens(Text.ReplaceAll(file, fm[0].0, fm[0].1), fm[1..])
  }

  /** `Blueprint.renamedFiles`: template names stored under another name. */
  const RenamedFiles: Assoc<string> := [("gitignore", ".gitignore")]

  /** The default `mapFile(file, locals)`: rename, then replace the tokens. */
  function DefaultMapFile(file: string, locals: Locals): string {
    var renamed := match Lookup(RenamedFiles, file) case Some(n) => n case None => file;
    ReplaceTokens(renamed, FileMapOf(locals))
  }

  /** A path that mentions no token comes out of the token replacement unchanged. */
  lemma {:induction false} ReplaceTokensAbsent(file: string, fm: Assoc<string>)
    requires forall i :: 0 <= i < |fm| && fm[i].0 != "" ==> !Text.Contains(file, fm[i].0)
    ensures ReplaceTokens(file, fm) == file
    decreases |fm|
  {
    if |fm| > 0 {
      if fm[0].0 != "" {
        Text.ReplaceAllAbsent(file, fm[0].0, fm[0].1);
      }
      ReplaceTokensAbsent(file, fm[1..]);
    }
  }

  /** A string without some character of the pattern does not contain the pattern. */
  lemma MissingCharNotContained(s: string, pat: string, k: nat)
    requires k < |pat| && pat[k] !in s
    ensures !Text.Contains(s, pat)
  {
    forall i: nat | i <= |s| ensures !Text.OccursAt(pat, s, i) {
      if i + |pat| <= |s| {
        assert s[i..i + |pat|][k] == s[i + k];
      }
    }
  }

  /** One step of the token replacement. */
  lemma ReplaceTokensStep(file: string, fm: Assoc<string>)
    requires |fm| > 0 && fm[0].0 != ""
    ensures ReplaceTokens(file, fm) == ReplaceTokens(Text.ReplaceAll(file, fm[0].0, fm[0].1), fm[1..])
  {
  }

  /** `__name__` after the `__root__/` prefix is replaced, and only there. */
  lemma NameAfterRoot(name: string, ext: string)
    requires '_' !in ext
    ensures Text.ReplaceAll("__root__/__name__" + ext, "__name__", name) == "__root__/" + name + ext
  {
    var s := "__root__/__name__" + ext;
    assert s == "__root__/" + "__name__" + ext;
    forall j: nat | j < 9 ensures !Text.OccursAt("__name__", s, j) {
      assert s[2..11] == "root__/__";
      if j + 8 <= |s| {
        assert s[j..j + 8][2] == s[j + 2];
        assert s[j + 2] == s[2..11][j];
      }
    }
    Text.ReplaceAllAfter("__root__/", "__name__", ext, name);
    MissingCharNotContained(ext, "__name__", 0);
    Text.ReplaceAllAbsent(ext, "__name__", name);
  }

  /** `__root__` at the front is replaced by the root. */
  lemma RootAtFront(root: string, rest: string)
    requires '_' !in rest
    ensures Text.ReplaceAll("__root__" + rest, "__root__", root) == root + rest
  {
    assert "__root__" + rest == "" + "__root__" + rest;
    Text.ReplaceAllAfter("", "__root__", rest, root);
    MissingCharNotContained(rest, "__root__", 0);
    Text.ReplaceAllAbsent(rest, "__root__", root);
  }

  /** The four built-in tokens with the given values, in `generateFileMap` order. */
  function BuiltInMap(name: string, path: string, root: string, test: string): Assoc<string> {
    [("__name__", name), ("__path__", path), ("__root__", root), ("__test__", test)]
  }

  lemma MapNameFirst(name: string, path: string, root: string, test: string, ext: string)
    requires '_' !in ext
    ensures ReplaceTokens("__root__/__name__" + ext, BuiltInMap(name, path, root, test))
      == ReplaceTokens("__root__/" + name + ext, [("__path__", path), ("__root__", root), ("__test__", test)])
  {
    var fm := BuiltInMap(name, path, root, test);
    ReplaceTokensStep("__root__/__name__" + ext, fm);
    NameAfterRoot(name, ext);
    assert fm[1..] == [("__path__", path), ("__root__", root), ("__test__", test)];
  }

  lemma MapPathAbsent(s1: string, path: string, root: string, test: string)
    requires 'p' !in s1
    ensures ReplaceTokens(s1, [("__path__", path), ("__root__", root), ("__test__", test)])
      == ReplaceTokens(s1, [("__root__", root), ("__test__", test)])
  {
    var fm := [("__path__", path), ("__root__", root), ("__test__", test)];
    ReplaceTokensStep(s1, fm);
    MissingCharNotContained(s1, "__path__", 2);
    Text.ReplaceAllAbsent(s1, "__path__", path);
    assert fm[1..] == [("__root__", root), ("__test__", test)];
  }

  lemma MapRootThenTest(root: string, test: string, rest: string)
    requires '_' !in root && '_' !in rest
    ensures ReplaceTokens("__root__" + rest, [("__root__", root), ("__test__", test)]) == root + rest
  {
    var fm := [("__root__", root), ("__test__", test)];
    ReplaceTokensStep("__root__" + rest, fm);
    RootAtFront(root, rest);
    MissingCharNotContained(root + rest, "__test__", 0);
    ReplaceTokensAbsent(root + rest, fm[1..]);
  }

  /**
    With a file map of the four built-in tokens (as `generateFileMap` returns it), the template
    path `__root__/__name__<ext>` becomes `<root>/<name><ext>`. The name and extension are
    free of `_` and `p`, so neither `__path__` nor `__test__` occurs along the way.
  */
  lemma MapRootAndName(name: string, path: string, root: string, test: string, ext: string)
    requires '_' !in name && '_' !in root && '_' !in ext
    requires 'p' !in name + ext
    ensures ReplaceTokens("__root__/__name__" + ext, BuiltInMap(name, path, root, test)) == root + "/" + name + ext
  {
    var s1 := "__root__/" + name + ext;
    var rest := "/" + name + ext;
    assert 'p' !in s1 by {
      assert s1 == "__root__/" + (name + ext);
    }
    assert s1 == "__root__" + rest;
    assert '_' !in rest;
    assert root + rest == root + "/" + name + ext;
    MapNameFirst(name, path, root, test, ext);
    MapPathAbsent(s1, path, root, test);
    MapRootThenTest(root, test, rest);
  }

  /**
    For an application project (no pod layout, no addon, no dummy app) the template path
    `__root__/__name__<ext>` lands in `app/` under the dasherized module name, for instance
    `app/foo-baz.js` with the variables of the `generateFileMap` test.
  */
  lemma MapFileInApp(inf: Inflector, v: FileMapVariables, ext: string)
    requires !PodLayout(v) && !NamesInRepoAddon(v.inRepoAddon) && !v.inDummy && !v.inAddon
    requires '_' !in v.dasherizedModuleName && 'p' !in v.dasherizedModuleName
    requires '_' !in ext && 'p' !in ext
    ensures ReplaceTokens("__root__/__name__" + ext, GenerateFileMap(inf, [], v)) == "app/" + v.dasherizedModuleName + ext
  {
    StandardFileMap(inf, v);
    var name := v.dasherizedModuleName;
    assert 'p' !in name + ext;
    MapRootAndName(name, PathToken(inf, v), RootToken(v), TestToken(v), ext);
  }
}
