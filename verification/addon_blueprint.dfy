/**
  The `addon` blueprint: it installs the `app` blueprint's templates as the addon's dummy
  application under `tests/dummy/`, adds its own templates, writes a `package.json` derived
  from the app's, and names the dummy application `dummy` while the addon keeps its own name.
*/
module AddonBlueprint {
  import opened Wrappers
  import opened JsValues
  import Assoc
  import opened Context
  import opened Inflector
  import FileMap
  import opened Blueprints
  import EntityName
  import Text

  // ---------------------------------------------------------------- fileMap and fileMapper

  /** One character of a `fileMap` pattern: the regular-expression `.` matches any character
      but a line terminator, every other character matches itself. */
  datatype PatChar = AnyChar | Exactly(c: char)

  /** A pattern of the form `^…`, optionally followed by `.*`: it tests a prefix of the path. */
  type Pattern = seq<PatChar>

  function Lit(s: string): (p: Pattern)
    ensures |p| == |s| && forall i :: 0 <= i < |s| ==> p[i] == Exactly(s[i])
  {
    seq(|s|, i requires 0 <= i < |s| => Exactly(s[i]))
  }

  predicate CharMatches(p: PatChar, c: char) {
    match p
    case AnyChar => !Text.IsLineTerminator(c)
    case Exactly(d) => d == c
  }

  /** `new RegExp(pattern).test(path)` for an anchored pattern. */
  predicate Matches(p: Pattern, path: string) {
    |p| <= |path| && forall i :: 0 <= i < |p| ==> CharMatches(p[i], path[i])
  }

  const PathPlaceholder: string := ":path"
  const DummyPrefix: string := "tests/dummy/"
  const DummyTarget: string := DummyPrefix + PathPlaceholder

  /**
    The `fileMap`, in the order its keys were written (which is the order `for … in` visits
    them): `^.jshintrc`, `^app/.gitkeep`, `^app.*`, `^config.*`, `^public.*` and
    `^addon-config/environment.js`, with their targets.
  */
  const Rules: seq<(Pattern, string)> := [
    ([AnyChar] + Lit("jshintrc"), DummyTarget),
    (Lit("app/") + [AnyChar] + Lit("gitkeep"), "app/.gitkeep"),
    (Lit("app"), DummyTarget),
    (Lit("config"), DummyTarget),
    (Lit("public"), DummyTarget),
    (Lit("addon-config/environment") + [AnyChar] + Lit("js"), "config/environment.js")
  ]

  /** The index of the first rule whose pattern matches `path`. */
  function FirstMatch(rules: seq<(Pattern, string)>, path: string): (r: Option<nat>)
    ensures r.Some? ==> r.value < |rules| && Matches(rules[r.value].0, path)
    ensures r.Some? ==> forall j :: 0 <= j < r.value ==> !Matches(rules[j].0, path)
    ensures r.None? ==> forall j :: 0 <= j < |rules| ==> !Matches(rules[j].0, path)
  {
    if |rules| == 0 then None
    else if Matches(rules[0].0, path) then Some(0)
    else match FirstMatch(rules[1..], path)
      case None => None
      case Some(i) => Some(i + 1)
  }

  /** `fileMapper(path)`: the first matching rule's target with `:path` replaced by the path
      (through `replace`, so `$` patterns in the path are expanded), or the path itself when
      no rule matches. */
  function FileMapper(path: string): (r: string)
    ensures (forall j :: 0 <= j < |Rules| ==> !Matches(Rules[j].0, path)) ==> r == path
    ensures forall i ::
      (0 <= i < |Rules| && Matches(Rules[i].0, path) && forall j :: 0 <= j < i ==> !Matches(Rules[j].0, path))
      ==> r == Text.ReplaceFirst(Rules[i].1, PathPlaceholder, path)
  {
    match FirstMatch(Rules, path)
    case None => path
    case Some(i) =>
      assert forall k ::
        (0 <= k < |Rules| && Matches(Rules[k].0, path) && forall j :: 0 <= j < k ==> !Matches(Rules[j].0, path))
        ==> k == i;
      Text.ReplaceFirst(Rules[i].1, PathPlaceholder, path)
  }

  /** A target without `:` has no placeholder, so it is used as it is. */
  lemma NoPlaceholder(target: string, path: string)
    requires ':' !in target
    ensures Text.ReplaceFirst(target, PathPlaceholder, path) == target
  {
    FileMap.MissingCharNotContained(target, PathPlaceholder, 0);
  }

  /** The `tests/dummy/:path` target puts the path, its `$` patterns expanded, under
      `tests/dummy/`. */
  lemma DummyTargetOf(path: string)
    ensures Text.ReplaceFirst(DummyTarget, PathPlaceholder, path) == DummyPrefix + DummyPath(path)
  {
    assert DummyTarget == DummyPrefix + PathPlaceholder + "";
    Text.ReplaceFirstAfter(DummyPrefix, PathPlaceholder, "", path);
    assert DummyPrefix + DummyPath(path) + "" == DummyPrefix + DummyPath(path);
  }

  /** What replacing `:path` in `tests/dummy/:path` inserts: the path, with `$&` standing for
      `:path`, `` $` `` for `tests/dummy/`, `$'` for nothing and `$$` for `$`. */
  function DummyPath(path: string): string {
    Text.Substitution(path, PathPlaceholder, DummyPrefix, "")
  }

  /** The first rule that matches decides, whatever later rules would do. */
  lemma FirstRuleWins(path: string, i: nat)
    requires i < |Rules| && Matches(Rules[i].0, path)
    requires forall j :: 0 <= j < i ==> !Matches(Rules[j].0, path)
    ensures FileMapper(path) == Text.ReplaceFirst(Rules[i].1, PathPlaceholder, path)
  {
    assert FirstMatch(Rules, path).Some?;
  }

  /** A path no rule matches keeps its place. */
  lemma UnmatchedPathKept(path: string)
    requires forall j :: 0 <= j < |Rules| ==> !Matches(Rules[j].0, path)
    ensures FileMapper(path) == path
  {
  }

  /** The first rule needs `jshintrc` from the second character on. */
  lemma NotJshintrc(path: string)
    requires |path| >= 2 && path[1] != 'j'
    ensures !Matches(Rules[0].0, path)
  {
    assert Rules[0].0[1] == Exactly('j');
  }

  /** `.jshintrc`, or any path that `^.jshintrc` matches, goes to the dummy application. */
  lemma JshintrcUnderDummy(path: string)
    requires |path| >= 9 && !Text.IsLineTerminator(path[0]) && path[1..9] == "jshintrc"
    ensures FileMapper(path) == DummyPrefix + DummyPath(path)
    ensures '$' !in path ==> FileMapper(path) == DummyPrefix + path
  {
    forall i | 1 <= i < 9 ensures CharMatches(Rules[0].0[i], path[i]) {
      assert path[i] == path[1..9][i - 1];
    }
    assert Matches(Rules[0].0, path);
    FirstRuleWins(path, 0);
    DummyTargetOf(path);
  }

  /** `app/.gitkeep` stays where it is. */
  lemma GitkeepStays()
    ensures FileMapper("app/.gitkeep") == "app/.gitkeep"
  {
    var path := "app/.gitkeep";
    NotJshintrc(path);
    assert Matches(Rules[1].0, path);
    FirstRuleWins(path, 1);
    NoPlaceholder("app/.gitkeep", path);
  }

  /** Anything else under `app`, `config` or `public` goes under `tests/dummy/`. */
  lemma AppConfigPublicUnderDummy(path: string, dir: string)
    requires dir == "app" || dir == "config" || dir == "public"
    requires Text.StartsWith(path, dir)
    requires !Matches(Rules[1].0, path)
    ensures FileMapper(path) == DummyPrefix + DummyPath(path)
    ensures '$' !in path ==> FileMapper(path) == DummyPrefix + path
  {
    assert |path| >= 3 && path[1] == dir[1];
    NotJshintrc(path);
    var i := if dir == "app" then 2 else if dir == "config" then 3 else 4;
    assert Rules[i].0 == Lit(dir);
    assert path[..|dir|] == dir;
    assert Matches(Rules[i].0, path);
    forall j | 0 <= j < i ensures !Matches(Rules[j].0, path) {
      if j == 1 {
      } else if j > 1 {
        assert Rules[j].0[0] == Exactly(if j == 2 then 'a' else if j == 3 then 'c' else 'p');
        assert path[0] == dir[0];
      }
    }
    FirstRuleWins(path, i);
    DummyTargetOf(path);
  }

  /** `$` patterns in a path are expanded by `replace`: after `app/`, `$&` brings back
      `:path`, `$'` the empty rest of the target, `$$` a single `$`, and `` $` `` the
      `tests/dummy/` before it; a `$` followed by anything else stays as written. */
  lemma DollarPatternsExpanded(path: string)
    requires |path| == 6 && path[..4] == "app/" && path[4] == '$'
    ensures path[5] == '&' ==> FileMapper(path) == DummyPrefix + "app/" + PathPlaceholder
    ensures path[5] == '\'' ==> FileMapper(path) == DummyPrefix + "app/"
    ensures path[5] == '$' ==> FileMapper(path) == DummyPrefix + "app/$"
    ensures path[5] == '`' ==> FileMapper(path) == DummyPrefix + "app/" + DummyPrefix
    ensures !Text.IsDollarPattern(path[5]) ==> FileMapper(path) == DummyPrefix + path
  {
    AppDollarUnderDummy(path);
    var pair := path[4..];
    assert path == "app/" + pair;
    Text.SubstitutionPlainPrefix("app/", pair, PathPlaceholder, DummyPrefix, "");
    Text.DollarPair(pair, PathPlaceholder, DummyPrefix, "");
    var inserted := Text.Substitution(pair, PathPlaceholder, DummyPrefix, "");
    assert DummyPrefix + ("app/" + inserted) == DummyPrefix + "app/" + inserted;
  }

  /** A path `app/$<c>` is too short for `^app/.gitkeep`, so it goes under `tests/dummy/`. */
  lemma AppDollarUnderDummy(path: string)
    requires |path| == 6 && path[..4] == "app/"
    ensures FileMapper(path) == DummyPrefix + DummyPath(path)
  {
    assert |Rules[1].0| == 12;
    assert !Matches(Rules[1].0, path);
    assert Text.StartsWith(path, "app") by {
      assert path[..3] == path[..4][..3];
    }
    AppConfigPublicUnderDummy(path, "app");
  }

  /** The `.` of `^.jshintrc` does not match a line terminator, so such a path is kept. */
  lemma LineTerminatorNotAnyChar()
    ensures FileMapper("\njshintrc") == "\njshintrc"
  {
    var path := "\njshintrc";
    forall j | 0 <= j < |Rules| ensures !Matches(Rules[j].0, path) {
      assert !CharMatches(Rules[j].0[0], path[0]);
    }
    UnmatchedPathKept(path);
  }

  /** Spells out the pattern `^addon-config/environment.js`. */
  predicate AddonConfigPath(path: string) {
    |path| >= 27 && path[..24] == "addon-config/environment" && !Text.IsLineTerminator(path[24])
    && path[25..27] == "js"
  }

  lemma AddonConfigMatches(path: string)
    requires AddonConfigPath(path)
    ensures Matches(Rules[5].0, path)
  {
    forall i | 0 <= i < 27 ensures CharMatches(Rules[5].0[i], path[i]) {
      if i < 24 {
        assert path[i] == path[..24][i];
      } else if i > 24 {
        assert path[i] == path[25..27][i - 25];
      }
    }
  }

  lemma AddonConfigOnlyMatch(path: string)
    requires AddonConfigPath(path)
    ensures forall j :: 0 <= j < 5 ==> !Matches(Rules[j].0, path)
  {
    assert path[1] == path[..24][1] && path[2] == path[..24][2] && path[0] == path[..24][0];
    NotJshintrc(path);
    assert Rules[1].0[1] == Exactly('p') && path[1] == 'd';
    assert Rules[2].0[1] == Exactly('p');
    assert Rules[3].0[0] == Exactly('c');
    assert Rules[4].0[0] == Exactly('p');
  }

  /** The addon's `addon-config/environment.js`, or any path that
      `^addon-config/environment.js` matches, becomes the addon's `config/environment.js`. */
  lemma AddonConfigMoved(path: string)
    requires AddonConfigPath(path)
    ensures FileMapper(path) == "config/environment.js"
  {
    AddonConfigMatches(path);
    AddonConfigOnlyMatch(path);
    FirstRuleWins(path, 5);
    NoPlaceholder("config/environment.js", path);
  }

  /** The addon's own templates such as `addon/…`, `index.js` or `package.json` keep their
      paths. */
  lemma AddonPathsKept(path: string)
    requires |path| >= 2 && path[1] != 'j'
    requires path[0] == 'i' || (path[0] == 'a' && path[1] != 'p') || (path[0] == 'p' && path[1] != 'u')
    requires path[0] != 'a' || |path| < 6 || path[5] != '-'
    ensures FileMapper(path) == path
  {
    NotJshintrc(path);
    assert Rules[1].0[0] == Exactly('a') && Rules[1].0[1] == Exactly('p');
    assert Rules[2].0[0] == Exactly('a') && Rules[2].0[1] == Exactly('p');
    assert Rules[3].0[0] == Exactly('c');
    assert Rules[4].0[0] == Exactly('p') && Rules[4].0[1] == Exactly('u');
    assert Rules[5].0[0] == Exactly('a') && Rules[5].0[5] == Exactly('-');
    UnmatchedPathKept(path);
  }

  /** `mapFile`: the default mapping, then `fileMapper`. */
  function AddonMapFile(file: string, locals: Context.Locals): string {
    FileMapper(FileMap.DefaultMapFile(file, locals))
  }

  // ---------------------------------------------------------------- files

  /** `uniq(xs)`: each element once, at its first occurrence. */
  function Uniq(xs: seq<string>): (r: seq<string>)
    ensures Assoc.Distinct(r)
    ensures forall x :: x in r <==> x in xs
    ensures |r| <= |xs|
  {
    if |xs| == 0 then []
    else
      var u := Uniq(xs[..|xs| - 1]);
      var last := xs[|xs| - 1];
      assert xs == xs[..|xs| - 1] + [last];
      if last in u then u else u + [last]
  }

  /** `uniq` changes nothing in a list without repetitions. */
  lemma {:induction false} UniqOfDistinct(xs: seq<string>)
    requires Assoc.Distinct(xs)
    ensures Uniq(xs) == xs
  {
    if |xs| > 0 {
      var init := xs[..|xs| - 1];
      assert Assoc.Distinct(init);
      UniqOfDistinct(init);
      assert xs[|xs| - 1] !in init;
      assert init + [xs[|xs| - 1]] == xs;
    }
  }

  /** Appending elements only appends to the result of `uniq`. */
  lemma {:induction false} UniqExtends(xs: seq<string>, ys: seq<string>)
    ensures |Uniq(xs)| <= |Uniq(xs + ys)| && Uniq(xs + ys)[..|Uniq(xs)|] == Uniq(xs)
    decreases |ys|
  {
    if |ys| == 0 {
      assert xs + ys == xs;
    } else {
      var zs := xs + ys[..|ys| - 1];
      assert (xs + ys)[..|xs + ys| - 1] == zs;
      UniqExtends(xs, ys[..|ys| - 1]);
      var u := Uniq(zs);
      var whole := Uniq(xs + ys);
      assert whole == u || whole == u + [(xs + ys)[|xs + ys| - 1]];
      assert whole[..|u|] == u;
      assert whole[..|Uniq(xs)|] == u[..|Uniq(xs)|];
    }
  }

  /** `files()`: the app blueprint's templates followed by the addon's own, each once. */
  function AddonFiles(appFiles: seq<string>, ownFiles: seq<string>): (r: seq<string>)
    ensures Assoc.Distinct(r)
    ensures forall f :: f in r <==> f in appFiles || f in ownFiles
  {
    Uniq(appFiles + ownFiles)
  }

  /** The app blueprint's templates come first, in their own order. */
  lemma AppFilesFirst(appFiles: seq<string>, ownFiles: seq<string>)
    requires Assoc.Distinct(appFiles)
    ensures |appFiles| <= |AddonFiles(appFiles, ownFiles)|
    ensures AddonFiles(appFiles, ownFiles)[..|appFiles|] == appFiles
  {
    UniqOfDistinct(appFiles);
    UniqExtends(appFiles, ownFiles);
  }

  // ---------------------------------------------------------------- locals

  const DummyName: string := "dummy"

  /** The object `locals` returns, in the order its keys are written. */
  function AddonTable(name: string, namespace: string, addonName: string, addonNamespace: string, version: string): Context.Locals {
    [("name", Str(name))] + ([("modulePrefix", Str(name))] + ([("namespace", Str(namespace))]
      + ([("addonName", Str(addonName))] + ([("addonModulePrefix", Str(addonName))]
      + ([("addonNamespace", Str(addonNamespace))] + [("emberCLIVersion", Str(version))])))))
  }

  /** The dummy application's entries of the locals object. */
  lemma AddonTableNames(name: string, namespace: string, addonName: string, addonNamespace: string, version: string)
    ensures var l := AddonTable(name, namespace, addonName, addonNamespace, version);
      && Assoc.Lookup(l, "name") == Some(Str(name))
      && Assoc.Lookup(l, "modulePrefix") == Some(Str(name))
      && Assoc.Lookup(l, "namespace") == Some(Str(namespace))
  {
    var r6: Context.Locals := [("emberCLIVersion", Str(version))];
    var r5 := [("addonNamespace", Str(addonNamespace))] + r6;
    var r4 := [("addonModulePrefix", Str(addonName))] + r5;
    var r3 := [("addonName", Str(addonName))] + r4;
    var r2 := [("namespace", Str(namespace))] + r3;
    var r1 := [("modulePrefix", Str(name))] + r2;
    Assoc.LookupCons("name", Str(name), r1, "name");
    Assoc.LookupCons("name", Str(name), r1, "modulePrefix");
    Assoc.LookupCons("modulePrefix", Str(name), r2, "modulePrefix");
    Assoc.LookupCons("name", Str(name), r1, "namespace");
    Assoc.LookupCons("modulePrefix", Str(name), r2, "namespace");
    Assoc.LookupCons("namespace", Str(namespace), r3, "namespace");
  }

  /** The addon's name entries of the locals object. */
  lemma AddonTableAddonNames(name: string, namespace: string, addonName: string, addonNamespace: string, version: string)
    ensures var l := AddonTable(name, namespace, addonName, addonNamespace, version);
      && Assoc.Lookup(l, "addonName") == Some(Str(addonName))
      && Assoc.Lookup(l, "addonModulePrefix") == Some(Str(addonName))
  {
    var r6: Context.Locals := [("emberCLIVersion", Str(version))];
    var r5 := [("addonNamespace", Str(addonNamespace))] + r6;
    var r4 := [("addonModulePrefix", Str(addonName))] + r5;
    var r3 := [("addonName", Str(addonName))] + r4;
    var r2 := [("namespace", Str(namespace))] + r3;
    var r1 := [("modulePrefix", Str(name))] + r2;
    Assoc.LookupCons("name", Str(name), r1, "addonName");
    Assoc.LookupCons("modulePrefix", Str(name), r2, "addonName");
    Assoc.LookupCons("namespace", Str(namespace), r3, "addonName");
    Assoc.LookupCons("addonName", Str(addonName), r4, "addonName");
    Assoc.LookupCons("name", Str(name), r1, "addonModulePrefix");
    Assoc.LookupCons("modulePrefix", Str(name), r2, "addonModulePrefix");
    Assoc.LookupCons("namespace", Str(namespace), r3, "addonModulePrefix");
    Assoc.LookupCons("addonName", Str(addonName), r4, "addonModulePrefix");
    Assoc.LookupCons("addonModulePrefix", Str(addonName), r5, "addonModulePrefix");
  }

  /** The addon's namespace and the version entries of the locals object. */
  lemma AddonTableRest(name: string, namespace: string, addonName: string, addonNamespace: string, version: string)
    ensures var l := AddonTable(name, namespace, addonName, addonNamespace, version);
      && Assoc.Lookup(l, "addonNamespace") == Some(Str(addonNamespace))
      && Assoc.Lookup(l, "emberCLIVersion") == Some(Str(version))
  {
    var r6: Context.Locals := [("emberCLIVersion", Str(version))];
    var r5 := [("addonNamespace", Str(addonNamespace))] + r6;
    var r4 := [("addonModulePrefix", Str(addonName))] + r5;
    var r3 := [("addonName", Str(addonName))] + r4;
    var r2 := [("namespace", Str(namespace))] + r3;
    var r1 := [("modulePrefix", Str(name))] + r2;
    Assoc.LookupCons("name", Str(name), r1, "addonNamespace");
    Assoc.LookupCons("modulePrefix", Str(name), r2, "addonNamespace");
    Assoc.LookupCons("namespace", Str(namespace), r3, "addonNamespace");
    Assoc.LookupCons("addonName", Str(addonName), r4, "addonNamespace");
    Assoc.LookupCons("addonModulePrefix", Str(addonName), r5, "addonNamespace");
    Assoc.LookupCons("addonNamespace", Str(addonNamespace), r6, "addonNamespace");
    Assoc.LookupCons("name", Str(name), r1, "emberCLIVersion");
    Assoc.LookupCons("modulePrefix", Str(name), r2, "emberCLIVersion");
    Assoc.LookupCons("namespace", Str(namespace), r3, "emberCLIVersion");
    Assoc.LookupCons("addonName", Str(addonName), r4, "emberCLIVersion");
    Assoc.LookupCons("addonModulePrefix", Str(addonName), r5, "emberCLIVersion");
    Assoc.LookupCons("addonNamespace", Str(addonNamespace), r6, "emberCLIVersion");
    Assoc.LookupCons("emberCLIVersion", Str(version), [], "emberCLIVersion");
  }

  /**
    `locals(options)`: the dummy application is called `dummy`; the addon's names come from
    the entity name. Reading the name of a missing entity, or casing a missing name, throws.
  */
  function AddonLocals(inf: Inflector, version: string, options: Options): (r: Result<Context.Locals, Error>)
    ensures r.Failure? <==> Context.EntityName(options).None?
    ensures r.Failure? ==> r.error.kind == TypeError
    ensures r.Success? ==> Assoc.Lookup(r.value, "name") == Assoc.Lookup(r.value, "modulePrefix")
                           == Some(Str(inf.dasherize(DummyName)))
    ensures r.Success? ==> Assoc.Lookup(r.value, "namespace") == Some(Str(inf.classify(DummyName)))
    ensures r.Success? ==> Assoc.Lookup(r.value, "addonName") == Assoc.Lookup(r.value, "addonModulePrefix")
                           == Some(Str(inf.dasherize(Context.EntityName(options).value)))
    ensures r.Success? ==> Assoc.Lookup(r.value, "addonNamespace") == Some(Str(inf.classify(Context.EntityName(options).value)))
    ensures r.Success? ==> Assoc.Lookup(r.value, "emberCLIVersion") == Some(Str(version))
  {
    match options.entity
    case None => Failure(Error(TypeError, "Cannot read properties of undefined (reading 'name')"))
    case Some(e) =>
      match e.name
      case None => Failure(Error(TypeError, "Cannot read properties of undefined (reading 'replace')"))
      case Some(raw) =>
        var name := inf.dasherize(DummyName);
        var addonName := inf.dasherize(raw);
        var l := AddonTable(name, inf.classify(DummyName), addonName, inf.classify(raw), version);
        AddonTableNames(name, inf.classify(DummyName), addonName, inf.classify(raw), version);
        AddonTableAddonNames(name, inf.classify(DummyName), addonName, inf.classify(raw), version);
        AddonTableRest(name, inf.classify(DummyName), addonName, inf.classify(raw), version);
        Success(l)
  }

  /** With casing helpers that give the values the repository's tests expect, the dummy app is `dummy`/`Dummy` and the addon `foo`
      keeps its name. */
  lemma AddonLocalsExample(inf: Inflector, version: string, options: Options)
    requires AgreesWithTests(inf)
    requires options.entity == Some(Entity(Some("foo")))
    ensures AddonLocals(inf, version, options).Success?
    ensures var l := AddonLocals(inf, version, options).value;
      && Assoc.Lookup(l, "name") == Some(Str("dummy"))
      && Assoc.Lookup(l, "namespace") == Some(Str("Dummy"))
      && Assoc.Lookup(l, "addonName") == Some(Str("foo"))
      && Assoc.Lookup(l, "addonNamespace") == Some(Str("Foo"))
  {
    assert Context.EntityName(options) == Some("foo");
    assert inf.dasherize(DummyName) == "dummy" && inf.classify(DummyName) == "Dummy";
  }

  // ---------------------------------------------------------------- package.json

  const AddonKeyword: string := "ember-addon"
  const DummyConfigPath: string := "tests/dummy/config"

  /** `keywords.indexOf('ember-addon') === -1 && keywords.push('ember-addon')` on the
      (truthy) keywords value: an array gains the keyword unless it holds it; a string without
      it has no `push`, and any other value has no `indexOf`. */
  function WithKeyword(kw: JsValue): (r: Result<JsValue, Error>)
    ensures r.Success? <==> kw.Arr? || (kw.Str? && Text.Contains(kw.s, AddonKeyword))
    ensures r.Success? && kw.Arr? ==> r.value.Arr? && Str(AddonKeyword) in r.value.items
    ensures r.Success? && kw.Arr? ==> forall v :: v in kw.items ==> v in r.value.items
    ensures r.Success? && kw.Arr? && Str(AddonKeyword) in kw.items ==> r.value == kw
    ensures r.Success? && kw.Str? ==> r.value == kw
    ensures r.Failure? ==> r.error.kind == TypeError
  {
    match kw
    case Arr(items) =>
      if Str(AddonKeyword) in items then Success(kw) else Success(Arr(items + [Str(AddonKeyword)]))
    case Str(s) =>
      if Text.Contains(s, AddonKeyword) then Success(kw)
      else Failure(Error(TypeError, "contents.keywords.push is not a function"))
    case _ => Failure(Error(TypeError, "contents.keywords.indexOf is not a function"))
  }

  /** `ea.configPath = 'tests/dummy/config'`: an object gains (or has replaced) the key; on an
      array or a primitive the assignment leaves nothing in the JSON output. */
  function WithConfigPath(ea: JsValue): (r: JsValue)
    ensures ea.Obj? ==> r.Obj? && Assoc.Lookup(r.fields, "configPath") == Some(Str(DummyConfigPath))
    ensures ea.Obj? ==> forall k :: k != "configPath" ==> Assoc.Lookup(r.fields, k) == Assoc.Lookup(ea.fields, k)
    ensures !ea.Obj? ==> r == ea
  {
    match ea
    case Obj(g) => Obj(Assoc.Set(g, "configPath", Str(DummyConfigPath)))
    case _ => ea
  }

  /** The keys `generatePackageJson` touches. */
  predicate Touched(k: string) {
    k == "private" || k == "name" || k == "keywords" || k == AddonKeyword
  }

  /** `contents.keywords || []`. */
  function KeywordsOf(fields: Assoc.Assoc<JsValue>): JsValue {
    Or(Get(Obj(fields), "keywords"), Arr([]))
  }

  /** `contents['ember-addon'] || {}`. */
  function AddonEntryOf(fields: Assoc.Assoc<JsValue>): JsValue {
    Or(Get(Obj(fields), AddonKeyword), Obj([]))
  }

  /** `delete contents.private; contents.name = name`. */
  function Renamed(fields: Assoc.Assoc<JsValue>, projectName: string): (r: Assoc.Assoc<JsValue>)
    ensures Assoc.Lookup(r, "private").None?
    ensures Assoc.Lookup(r, "name") == Some(Str(projectName))
    ensures forall k :: k != "private" && k != "name" ==> Assoc.Lookup(r, k) == Assoc.Lookup(fields, k)
  {
    Assoc.Set(Assoc.Delete(fields, "private"), "name", Str(projectName))
  }

  /**
    `generatePackageJson()` on the fields of the app blueprint's `package.json`: `private` is
    dropped, `name` becomes the project's name, `keywords` gains `ember-addon`, and the
    `ember-addon` object points `configPath` at the dummy application's configuration.
  */
  function GeneratePackageJson(fields: Assoc.Assoc<JsValue>, projectName: string): (r: Result<Assoc.Assoc<JsValue>, Error>)
    ensures r.Success? <==> WithKeyword(KeywordsOf(fields)).Success?
    ensures r.Failure? ==> r.error.kind == TypeError
  {
    var f1 := Renamed(fields, projectName);
    RenamedKeepsEntries(fields, projectName);
    var kw :- WithKeyword(KeywordsOf(f1));
    var f2 := Assoc.Set(f1, "keywords", kw);
    Success(Assoc.Set(f2, AddonKeyword, WithConfigPath(AddonEntryOf(f2))))
  }

  lemma RenamedKeepsEntries(fields: Assoc.Assoc<JsValue>, projectName: string)
    ensures KeywordsOf(Renamed(fields, projectName)) == KeywordsOf(fields)
    ensures AddonEntryOf(Renamed(fields, projectName)) == AddonEntryOf(fields)
  {
    var f1 := Renamed(fields, projectName);
    assert Assoc.Lookup(f1, "keywords") == Assoc.Lookup(fields, "keywords");
    assert Assoc.Lookup(f1, AddonKeyword) == Assoc.Lookup(fields, AddonKeyword);
  }

  /** What the generated `package.json` holds: no `private`, the project's `name`, the
      keywords with `ember-addon`, the `ember-addon` entry with its `configPath`, and every
      other entry as the app's had it. */
  lemma GeneratePackageJsonSpec(fields: Assoc.Assoc<JsValue>, projectName: string)
    requires GeneratePackageJson(fields, projectName).Success?
    ensures var r := GeneratePackageJson(fields, projectName).value;
      && Assoc.Lookup(r, "private").None?
      && Assoc.Lookup(r, "name") == Some(Str(projectName))
      && Assoc.Lookup(r, "keywords") == Some(WithKeyword(KeywordsOf(fields)).value)
      && Assoc.Lookup(r, AddonKeyword) == Some(WithConfigPath(AddonEntryOf(fields)))
      && forall k :: !Touched(k) ==> Assoc.Lookup(r, k) == Assoc.Lookup(fields, k)
  {
    GeneratedPrivate(fields, projectName);
    GeneratedName(fields, projectName);
    GeneratedKeywords(fields, projectName);
    GeneratedAddonEntry(fields, projectName);
    GeneratedOthers(fields, projectName);
  }

  lemma GeneratedPrivate(fields: Assoc.Assoc<JsValue>, projectName: string)
    requires GeneratePackageJson(fields, projectName).Success?
    ensures var r := GeneratePackageJson(fields, projectName).value;
      Assoc.Lookup(r, "private").None?
  {
    GenerateShape(fields, projectName);
    var f1 := Renamed(fields, projectName);
    var kw := WithKeyword(KeywordsOf(fields)).value;
    var ea := WithConfigPath(AddonEntryOf(fields));
    TwoSets(f1, "keywords", kw, AddonKeyword, ea, "private");
  }

  lemma GeneratedName(fields: Assoc.Assoc<JsValue>, projectName: string)
    requires GeneratePackageJson(fields, projectName).Success?
    ensures var r := GeneratePackageJson(fields, projectName).value;
      Assoc.Lookup(r, "name") == Some(Str(projectName))
  {
    GenerateShape(fields, projectName);
    var f1 := Renamed(fields, projectName);
    var kw := WithKeyword(KeywordsOf(fields)).value;
    var ea := WithConfigPath(AddonEntryOf(fields));
    TwoSets(f1, "keywords", kw, AddonKeyword, ea, "name");
  }

  lemma GeneratedKeywords(fields: Assoc.Assoc<JsValue>, projectName: string)
    requires GeneratePackageJson(fields, projectName).Success?
    ensures var r := GeneratePackageJson(fields, projectName).value;
      Assoc.Lookup(r, "keywords") == Some(WithKeyword(KeywordsOf(fields)).value)
  {
    GenerateShape(fields, projectName);
    var f1 := Renamed(fields, projectName);
    var kw := WithKeyword(KeywordsOf(fields)).value;
    var ea := WithConfigPath(AddonEntryOf(fields));
    TwoSets(f1, "keywords", kw, AddonKeyword, ea, "keywords");
  }

  lemma GeneratedAddonEntry(fields: Assoc.Assoc<JsValue>, projectName: string)
    requires GeneratePackageJson(fields, projectName).Success?
    ensures var r := GeneratePackageJson(fields, projectName).value;
      Assoc.Lookup(r, AddonKeyword) == Some(WithConfigPath(AddonEntryOf(fields)))
  {
    GenerateShape(fields, projectName);
    var f1 := Renamed(fields, projectName);
    var kw := WithKeyword(KeywordsOf(fields)).value;
    var ea := WithConfigPath(AddonEntryOf(fields));
    TwoSets(f1, "keywords", kw, AddonKeyword, ea, AddonKeyword);
  }

  lemma GeneratedOthers(fields: Assoc.Assoc<JsValue>, projectName: string)
    requires GeneratePackageJson(fields, projectName).Success?
    ensures var r := GeneratePackageJson(fields, projectName).value;
      forall k :: !Touched(k) ==> Assoc.Lookup(r, k) == Assoc.Lookup(fields, k)
  {
    GenerateShape(fields, projectName);
    var f1 := Renamed(fields, projectName);
    var kw := WithKeyword(KeywordsOf(fields)).value;
    var ea := WithConfigPath(AddonEntryOf(fields));
    forall k | !Touched(k)
      ensures Assoc.Lookup(Assoc.Set(Assoc.Set(f1, "keywords", kw), AddonKeyword, ea), k) == Assoc.Lookup(fields, k)
    {
      TwoSets(f1, "keywords", kw, AddonKeyword, ea, k);
    }
  }

  /** The generated fields are the renamed ones with the keywords and the `ember-addon` entry
      assigned. */
  lemma GenerateShape(fields: Assoc.Assoc<JsValue>, projectName: string)
    requires GeneratePackageJson(fields, projectName).Success?
    ensures GeneratePackageJson(fields, projectName).value
         == Assoc.Set(Assoc.Set(Renamed(fields, projectName), "keywords", WithKeyword(KeywordsOf(fields)).value),
                      AddonKeyword, WithConfigPath(AddonEntryOf(fields)))
  {
    RenamedKeepsEntries(fields, projectName);
    var f2 := Assoc.Set(Renamed(fields, projectName), "keywords", WithKeyword(KeywordsOf(fields)).value);
    TwoSetsEntry(Renamed(fields, projectName), WithKeyword(KeywordsOf(fields)).value);
  }

  lemma TwoSetsEntry(f1: Assoc.Assoc<JsValue>, kw: JsValue)
    ensures AddonEntryOf(Assoc.Set(f1, "keywords", kw)) == AddonEntryOf(f1)
  {
    assert "keywords" != AddonKeyword;
  }

  /** Two assignments to different keys, read back. */
  lemma TwoSets(xs: Assoc.Assoc<JsValue>, k1: string, v1: JsValue, k2: string, v2: JsValue, k: string)
    requires k1 != k2
    ensures Assoc.Lookup(Assoc.Set(Assoc.Set(xs, k1, v1), k2, v2), k)
         == if k == k2 then Some(v2) else if k == k1 then Some(v1) else Assoc.Lookup(xs, k)
  {
  }

  /** A keywords array always ends up holding `ember-addon` and everything it held. */
  lemma KeywordAdded(fields: Assoc.Assoc<JsValue>, projectName: string, items: seq<JsValue>)
    requires Assoc.Lookup(fields, "keywords") == Some(Arr(items))
    ensures var r := GeneratePackageJson(fields, projectName);
      && r.Success? && Assoc.Lookup(r.value, "keywords").Some?
      && var kw := Assoc.Lookup(r.value, "keywords").value;
      kw.Arr? && Str(AddonKeyword) in kw.items && forall v :: v in items ==> v in kw.items
  {
    assert KeywordsOf(fields) == Arr(items);
    GeneratePackageJsonSpec(fields, projectName);
  }

  /** A missing or empty `ember-addon` entry becomes `{ configPath: 'tests/dummy/config' }`. */
  lemma ConfigPathWithoutAddonEntry(fields: Assoc.Assoc<JsValue>, projectName: string)
    requires !Truthy(Get(Obj(fields), AddonKeyword))
    requires GeneratePackageJson(fields, projectName).Success?
    ensures Assoc.Lookup(GeneratePackageJson(fields, projectName).value, AddonKeyword)
         == Some(Obj([("configPath", Str(DummyConfigPath))]))
  {
    assert AddonEntryOf(fields) == Obj([]);
    GeneratePackageJsonSpec(fields, projectName);
  }

  /** `Delete` of a key that is not there changes nothing. */
  lemma {:induction false} DeleteAbsent(xs: Assoc.Assoc<JsValue>, key: string)
    requires Assoc.Lookup(xs, key).None?
    ensures Assoc.Delete(xs, key) == xs
  {
    if |xs| > 0 {
      DeleteAbsent(xs[1..], key);
      assert [xs[0]] + xs[1..] == xs;
    }
  }

  /** Generating from a generated `package.json` changes nothing: every step finds its
      work already done. */
  lemma GenerateIdempotent(fields: Assoc.Assoc<JsValue>, projectName: string)
    requires GeneratePackageJson(fields, projectName).Success?
    ensures var once := GeneratePackageJson(fields, projectName).value;
      GeneratePackageJson(once, projectName) == Success(once)
  {
    var once := GeneratePackageJson(fields, projectName).value;
    GeneratePackageJsonSpec(fields, projectName);
    RenamedFixed(once, projectName);
    var kw := WithKeyword(KeywordsOf(fields)).value;
    KeywordFixed(KeywordsOf(fields));
    assert KeywordsOf(once) == kw;
    Assoc.SetSame(once, "keywords", kw);
    var ea := WithConfigPath(AddonEntryOf(fields));
    ConfigPathFixed(AddonEntryOf(fields));
    assert AddonEntryOf(once) == ea;
    Assoc.SetSame(once, AddonKeyword, ea);
  }

  /** Renaming what already carries the name and no `private` changes nothing. */
  lemma RenamedFixed(fields: Assoc.Assoc<JsValue>, projectName: string)
    requires Assoc.Lookup(fields, "private").None?
    requires Assoc.Lookup(fields, "name") == Some(Str(projectName))
    ensures Renamed(fields, projectName) == fields
  {
    DeleteAbsent(fields, "private");
    Assoc.SetSame(fields, "name", Str(projectName));
  }

  /** Keywords that went through `WithKeyword` pass it again unchanged. */
  lemma KeywordFixed(kw: JsValue)
    requires WithKeyword(kw).Success?
    ensures Truthy(WithKeyword(kw).value)
    ensures WithKeyword(WithKeyword(kw).value) == WithKeyword(kw)
  {
  }

  /** An `ember-addon` entry that went through `WithConfigPath` is truthy and passes it again
      unchanged. */
  lemma ConfigPathFixed(ea: JsValue)
    requires Truthy(ea)
    ensures Truthy(WithConfigPath(ea))
    ensures WithConfigPath(WithConfigPath(ea)) == WithConfigPath(ea)
  {
    if ea.Obj? {
      var g := Assoc.Set(ea.fields, "configPath", Str(DummyConfigPath));
      Assoc.SetSame(g, "configPath", Str(DummyConfigPath));
    }
  }

  // ---------------------------------------------------------------- the blueprint

  /**
    The `addon` blueprint at `path`: `appFiles` are the app blueprint's templates and
    `ownFiles` the addon's own (among them the generated `package.json`); a template is read
    from the addon's own files when it has one, from the app blueprint's otherwise.
  */
  function Addon(path: string, inf: Inflector, version: string, appFiles: seq<string>, ownFiles: seq<string>,
                 own: string -> Option<string>, app: string -> string): (b: Blueprint)
    ensures b.name == Text.Basename(path) && b.path == path
    ensures forall p :: b.files(p) == AddonFiles(appFiles, ownFiles)
    ensures forall f :: own(f).Some? ==> b.source(f) == own(f).value
    ensures forall f :: own(f).None? ==> b.source(f) == app(f)
    ensures forall f :: b.remap(f) == FileMapper(f)
    ensures forall o :: b.locals(o) == AddonLocals(inf, version, o)
    ensures forall n :: b.normalizeEntityName(n) == EntityName.DefaultNormalize(n)
  {
    Blueprint(Text.Basename(path), path,
      (p: Project) => AddonFiles(appFiles, ownFiles),
      (f: string) => if own(f).Some? then own(f).value else app(f),
      EntityName.DefaultNormalize,
      (o: Options) => AddonLocals(inf, version, o),
      [], FileMapper, NoEffect,
      (o: Options) => Success(None), ["name"])
  }
}
