/**
  Package descriptors a blueprint hands to the package-manager tasks: npm packages as
  `name@target`, bower endpoints as `name=source#target`, and addon packages. The tasks
  themselves are not modelled; each operation returns the task invocation it would make and
  the status line it would print.
*/
module Packages {
  import opened Wrappers
  import opened Context
  import opened JsValues
  import Text

  /** `{ name, target }` for npm; `target` may be absent. */
  datatype NpmPackage = NpmPackage(name: string, target: Option<string>)

  /** The options a package-manager task is run with. */
  datatype TaskRun = TaskRun(task: string, packages: seq<string>, saveDev: bool, verbose: bool)

  /** A status line: a label such as `install package` followed by the package names. */
  datatype Status = Status(heading: string, detail: string)

  /** `names.join(', ')`. */
  function JoinComma(names: seq<string>): string {
    if |names| == 0 then ""
    else if |names| == 1 then names[0]
    else names[0] + ", " + JoinComma(names[1..])
  }

  /** The singular label for one package, the plural one for several. */
  function CountLabel(n: nat, singular: string): (r: string)
    ensures n > 1 ==> r == singular + "s"
    ensures n <= 1 ==> r == singular
  {
    if n > 1 then singular + "s" else singular
  }

  // ---------------------------------------------------------------- npm

  /** `name@target` when the target is a non-empty string, the bare name otherwise. */
  function NpmSpec(p: NpmPackage): (r: string)
    ensures TruthyString(p.target) ==> r == p.name + "@" + p.target.value
    ensures !TruthyString(p.target) ==> r == p.name
  {
    if TruthyString(p.target) then p.name + "@" + p.target.value else p.name
  }

  /** Reads an npm spec back: the part after the last `@`, when that `@` is neither the first
      nor the last character, is the target. */
  function ParseNpmSpec(s: string): (r: NpmPackage)
    ensures r.target.Some? ==> r.target.value != "" && s == r.name + "@" + r.target.value
    ensures r.target.None? ==> r.name == s
  {
    match Text.LastIndexOfChar(s, '@')
    case Some(i) =>
      if i > 0 && i + 1 < |s| then
        assert s == s[..i] + "@" + s[i + 1..];
        NpmPackage(s[..i], Some(s[i + 1..]))
      else NpmPackage(s, None)
    case None => NpmPackage(s, None)
  }

  /** An npm spec parses back to its package when neither part holds an `@` and the name is
      not empty; an empty target reads back as absent, as it is not written. */
  lemma NpmSpecRoundTrip(p: NpmPackage)
    requires p.name != "" && '@' !in p.name
    requires p.target.Some? ==> '@' !in p.target.value
    ensures ParseNpmSpec(NpmSpec(p)) == (if TruthyString(p.target) then p else p.(target := None))
  {
    if TruthyString(p.target) {
      var s := NpmSpec(p);
      var t := p.target.value;
      assert s[|p.name|] == '@';
      assert forall j :: |p.name| < j < |s| ==> s[j] == t[j - |p.name| - 1];
      assert Text.LastIndexOfChar(s, '@') == Some(|p.name|);
      assert s[..|p.name|] == p.name;
      assert s[|p.name| + 1..] == t;
    }
  }

  /** `addPackageToProject(name, target)`: a one-element list, with the target only when one
      was given. */
  function AddPackageToProject(name: string, target: Option<string>): (r: seq<NpmPackage>)
    ensures |r| == 1 && r[0].name == name && r[0].target == target
  {
    [NpmPackage(name, target)]
  }

  /** `addPackagesToProject`: the `npm-install` task receives one spec per package, in order,
      as a dev dependency and without verbose output; the status line names the packages. */
  function AddPackagesToProject(pkgs: seq<NpmPackage>): (r: (TaskRun, Status))
    ensures r.0.task == "npm-install" && r.0.saveDev && !r.0.verbose
    ensures |r.0.packages| == |pkgs|
    ensures forall i :: 0 <= i < |pkgs| ==> r.0.packages[i] == NpmSpec(pkgs[i])
    ensures r.1.heading == CountLabel(|pkgs|, "install package")
    ensures r.1.detail == JoinComma(seq(|pkgs|, i requires 0 <= i < |pkgs| => pkgs[i].name))
  {
    (TaskRun("npm-install", seq(|pkgs|, i requires 0 <= i < |pkgs| => NpmSpec(pkgs[i])), true, false),
     Status(CountLabel(|pkgs|, "install package"), JoinComma(seq(|pkgs|, i requires 0 <= i < |pkgs| => pkgs[i].name))))
  }

  /** `addPackageToProject(name, target)` hands `addPackagesToProject` exactly that one
      package: the task installs its spec, and the status line names it in the singular. */
  lemma SinglePackageInstalled(name: string, target: Option<string>)
    ensures AddPackagesToProject(AddPackageToProject(name, target)).0.packages == [NpmSpec(NpmPackage(name, target))]
    ensures AddPackagesToProject(AddPackageToProject(name, target)).1 == Status("install package", name)
  {
    var r := AddPackagesToProject(AddPackageToProject(name, target));
    assert r.0.packages[0] == NpmSpec(NpmPackage(name, target));
    assert seq(1, i requires 0 <= i < 1 => [NpmPackage(name, target)][i].name) == [name];
  }

  /** `removePackagesFromProject`: the `npm-uninstall` task receives the bare names, in
      order; targets are ignored. */
  function RemovePackagesFromProject(pkgs: seq<NpmPackage>): (r: (TaskRun, Status))
    ensures r.0.task == "npm-uninstall" && r.0.saveDev && !r.0.verbose
    ensures |r.0.packages| == |pkgs|
    ensures forall i :: 0 <= i < |pkgs| ==> r.0.packages[i] == pkgs[i].name
    ensures r.1.heading == CountLabel(|pkgs|, "uninstall package")
    ensures r.1.detail == JoinComma(r.0.packages)
  {
    var names := seq(|pkgs|, i requires 0 <= i < |pkgs| => pkgs[i].name);
    (TaskRun("npm-uninstall", names, true, false), Status(CountLabel(|pkgs|, "uninstall package"), JoinComma(names)))
  }

  /** Installing and uninstalling the same packages name them identically on the status line. */
  lemma InstallAndRemoveNameAlike(pkgs: seq<NpmPackage>)
    ensures AddPackagesToProject(pkgs).1.detail == RemovePackagesFromProject(pkgs).1.detail
  {
  }

  /** The npm test data: bare names are passed through and targets are appended. */
  lemma NpmExamples()
    ensures AddPackagesToProject([NpmPackage("foo-bar", Some("^123.1.12")), NpmPackage("bar-foo", Some("0.0.7"))]).0.packages
            == ["foo-bar@^123.1.12", "bar-foo@0.0.7"]
    ensures AddPackagesToProject([NpmPackage("foo-bar", None), NpmPackage("bar-foo", None)]).0.packages == ["foo-bar", "bar-foo"]
    ensures AddPackagesToProject([NpmPackage("foo-bar", None), NpmPackage("bar-foo", None)]).1
            == Status("install packages", "foo-bar, bar-foo")
  {
    var r := AddPackagesToProject([NpmPackage("foo-bar", Some("^123.1.12")), NpmPackage("bar-foo", Some("0.0.7"))]);
    assert r.0.packages[0] == "foo-bar@^123.1.12";
    assert r.0.packages[1] == "bar-foo@0.0.7";
    var pkgs := [NpmPackage("foo-bar", None), NpmPackage("bar-foo", None)];
    var names := seq(|pkgs|, i requires 0 <= i < |pkgs| => pkgs[i].name);
    assert names == ["foo-bar", "bar-foo"];
    assert JoinComma(names) == "foo-bar" + ", " + JoinComma(["bar-foo"]);
  }

  // ---------------------------------------------------------------- bower

  /** A decomposed bower endpoint `{ name, source, target }`. */
  datatype BowerPackage = BowerPackage(name: string, source: string, target: string)

  /** A target meaning "any version": empty, `*` or `latest`. */
  predicate IsWildcard(t: string) {
    t == "" || t == "*" || t == "latest"
  }

  /** Wildcard targets are normalised to `*`. */
  function NormalizeTarget(t: string): (r: string)
    ensures IsWildcard(t) <==> r == "*"
    ensures !IsWildcard(t) ==> r == t
  {
    if IsWildcard(t) then "*" else t
  }

  /** Characters allowed in a bower local name: word characters, `-` and `.`. */
  predicate NameChar(c: char) {
    ('a' <= c <= 'z') || ('A' <= c <= 'Z') || ('0' <= c <= '9') || c == '_' || c == '-' || c == '.'
  }

  /** A local name as the endpoint grammar accepts it: empty, or name characters not ending
      in `.`. */
  predicate ValidName(n: string) {
    n == "" || ((forall i :: 0 <= i < |n| ==> NameChar(n[i])) && n[|n| - 1] != '.')
  }

  /** The source an endpoint is composed with: the source, or the name when the source is
      empty, without surrounding white space. */
  function ComposedSource(p: BowerPackage): string {
    Text.Trim(if p.source != "" then p.source else p.name)
  }

  /** Serialises an endpoint as `name=source#target` after trimming each part; `name=` is
      omitted for an empty name and `#target` for a wildcard target. An empty source falls
      back to the name. */
  function Compose(p: BowerPackage): (r: string)
    ensures Text.Trim(p.name) != "" ==> Text.StartsWith(r, Text.Trim(p.name) + "=")
    ensures IsWildcard(Text.Trim(p.target))
            ==> r == (if Text.Trim(p.name) != "" then Text.Trim(p.name) + "=" else "") + ComposedSource(p)
    ensures !IsWildcard(Text.Trim(p.target)) ==> Text.EndsWith(r, "#" + Text.Trim(p.target))
  {
    var name := Text.Trim(p.name);
    var target := Text.Trim(p.target);
    var head := if name != "" then name + "=" else "";
    var tail := if IsWildcard(target) then "" else "#" + target;
    assert (head + ComposedSource(p) + tail)[..|head|] == head;
    head + ComposedSource(p) + tail
  }

  /** No line terminator: the endpoint grammar reads the target with `.`, which matches
      anything but one. */
  predicate OneLine(s: string) {
    forall i :: 0 <= i < |s| ==> !Text.IsLineTerminator(s[i])
  }

  /** The source-and-target part of an endpoint: a source of characters other than `#` and
      `|`, then optionally `#` and a target on one line. */
  function SourceAndTarget(rest: string): (r: Option<(string, string)>)
    ensures r.Some? ==> r.value.0 != "" && '#' !in r.value.0 && '|' !in r.value.0 && OneLine(r.value.1)
  {
    var (source, target) :=
      match Text.IndexOfChar(rest, '#')
      case Some(j) => (rest[..j], rest[j + 1..])
      case None => (rest, "");
    if source == "" || '|' in source || !OneLine(target) then None else Some((source, target))
  }

  /** The local name in front of the first `=`, when the text before it is a valid name. */
  function NamePart(endpoint: string): (r: Option<(string, string)>)
    ensures r.Some? ==> ValidName(r.value.0) && endpoint == r.value.0 + "=" + r.value.1
  {
    match Text.IndexOfChar(endpoint, '=')
    case Some(i) =>
      if ValidName(endpoint[..i]) then
        assert endpoint == endpoint[..i] + "=" + endpoint[i + 1..];
        Some((endpoint[..i], endpoint[i + 1..]))
      else None
    case None => None
  }

  /** Builds the endpoint record from its parsed parts: source and target are trimmed and a
      wildcard target is normalised. */
  function Parts(name: string, rest: string): (r: Option<BowerPackage>)
    ensures r.Some? ==> r.value.name == name && Text.Trimmed(r.value.source)
    ensures r.Some? ==> r.value.target == "*" || (!IsWildcard(r.value.target) && Text.Trimmed(r.value.target))
  {
    match SourceAndTarget(rest)
    case Some(st) => Some(BowerPackage(name, Text.Trim(st.0), NormalizeTarget(Text.Trim(st.1))))
    case None => None
  }

  /** Parses an endpoint `[name=]source[#target]`; the name is tried first, as the endpoint
      grammar does, and dropped when the rest does not parse with it. */
  function Decompose(endpoint: string): (r: Result<BowerPackage, Error>)
    ensures r.Success? ==> ValidName(r.value.name) && Text.Trimmed(r.value.source)
    ensures r.Success? ==> r.value.target == "*" || (!IsWildcard(r.value.target) && Text.Trimmed(r.value.target))
    ensures r.Failure? ==> r.error == Error(PlainError, "Invalid endpoint: " + endpoint)
  {
    var named := if NamePart(endpoint).Some? then Parts(NamePart(endpoint).value.0, NamePart(endpoint).value.1) else None;
    if named.Some? then Success(named.value)
    else if Parts("", endpoint).Some? then Success(Parts("", endpoint).value)
    else Failure(Error(PlainError, "Invalid endpoint: " + endpoint))
  }

  /** A source the grammar reads back unchanged: non-empty, free of `#`, `|` and `=`, and
      without white space at either end. */
  predicate PlainSource(s: string) {
    s != "" && '#' !in s && '|' !in s && '=' !in s && Text.Trimmed(s)
  }

  /** A valid name holds none of the endpoint's separators. */
  lemma ValidNameSeparators(name: string)
    requires ValidName(name)
    ensures '=' !in name && '#' !in name && '|' !in name
  {
    forall i | 0 <= i < |name| ensures name[i] != '=' && name[i] != '#' && name[i] != '|' {
      assert NameChar(name[i]);
    }
  }

  /** A valid name has no white space to trim. */
  lemma ValidNameTrimmed(name: string)
    requires ValidName(name)
    ensures Text.Trimmed(name) && Text.Trim(name) == name
  {
    if name != "" {
      assert NameChar(name[0]) && NameChar(name[|name| - 1]);
    }
  }

  /** `source` followed by an optional `#target` splits back into the two. */
  lemma SourceAndTargetOf(name: string, source: string, tail: string, target: string)
    requires PlainSource(source)
    requires tail == "" || (tail == "#" + target && OneLine(target))
    ensures Parts(name, source + tail) == Some(BowerPackage(name, source, NormalizeTarget(Text.Trim(if tail == "" then "" else target))))
  {
    if tail == "" {
      assert source + tail == source;
      assert Text.IndexOfChar(source, '#').None?;
    } else {
      Text.FirstCharAfter(source, '#', target);
      var rest := source + tail;
      assert rest == source + ['#'] + target;
      assert rest[..|source|] == source;
      assert rest[|source| + 1..] == target;
    }
  }

  /** A target holding a line terminator makes `source#target` unreadable. */
  lemma MultilineTargetRejected(name: string, source: string, target: string)
    requires '#' !in source && !OneLine(target)
    ensures Parts(name, source + "#" + target).None?
  {
    Text.FirstCharAfter(source, '#', target);
    var rest := source + "#" + target;
    assert rest == source + ['#'] + target;
    assert rest[|source| + 1..] == target;
  }

  /** A valid name followed by `=` is read as the local name. */
  lemma NamePartOf(name: string, rest: string)
    requires ValidName(name)
    ensures NamePart(name + "=" + rest) == Some((name, rest))
  {
    ValidNameSeparators(name);
    Text.FirstCharAfter(name, '=', rest);
    var e := name + "=" + rest;
    assert e == name + ['='] + rest;
    assert e[..|name|] == name;
    assert e[|name| + 1..] == rest;
  }

  /** Without a name, no `=` can be read as a name separator: any `=` comes after the `#`. */
  lemma NamePartAbsent(source: string, tail: string, target: string)
    requires PlainSource(source)
    requires tail == "" || tail == "#" + target
    ensures NamePart(source + tail).None?
  {
    var e := source + tail;
    match Text.IndexOfChar(e, '=')
    case Some(i) =>
      assert e[..i][|source|] == '#';
      assert !NameChar(e[..i][|source|]);
    case None =>
  }

  /** `name=source[#target]` with a non-empty valid name decomposes into its three parts,
      the target trimmed. */
  lemma DecomposeNamed(name: string, source: string, tail: string, target: string)
    requires name != "" && ValidName(name) && PlainSource(source)
    requires tail == "" || (tail == "#" + target && OneLine(target))
    ensures Decompose(name + "=" + source + tail)
            == Success(BowerPackage(name, source, NormalizeTarget(Text.Trim(if tail == "" then "" else target))))
  {
    NamePartOf(name, source + tail);
    assert name + "=" + source + tail == name + "=" + (source + tail);
    SourceAndTargetOf(name, source, tail, target);
  }

  /** `source[#target]` without a name decomposes with an empty name, the target trimmed. */
  lemma DecomposeUnnamed(source: string, tail: string, target: string)
    requires PlainSource(source)
    requires tail == "" || (tail == "#" + target && OneLine(target))
    ensures Decompose(source + tail)
            == Success(BowerPackage("", source, NormalizeTarget(Text.Trim(if tail == "" then "" else target))))
  {
    NamePartAbsent(source, tail, target);
    SourceAndTargetOf("", source, tail, target);
  }

  /** An endpoint whose rest fails to parse both with and without the name is invalid. */
  lemma DecomposeFails(endpoint: string, name: string, rest: string)
    requires NamePart(endpoint) == Some((name, rest)) && Parts(name, rest).None?
    requires Parts("", endpoint).None?
    ensures Decompose(endpoint) == Failure(Error(PlainError, "Invalid endpoint: " + endpoint))
  {
  }

  /** `name=source#target` whose target spans lines is an invalid endpoint. */
  lemma DecomposeRejectsMultiline(name: string, source: string, target: string)
    requires ValidName(name) && PlainSource(source) && !OneLine(target)
    ensures Decompose(name + "=" + source + "#" + target).Failure?
  {
    var rest := source + "#" + target;
    var e := name + "=" + source + "#" + target;
    assert e == name + "=" + rest;
    assert e == (name + "=" + source) + "#" + target;
    ValidNameSeparators(name);
    NamePartOf(name, rest);
    MultilineTargetRejected(name, source, target);
    assert '#' !in name + "=" + source;
    MultilineTargetRejected("", name + "=" + source, target);
    DecomposeFails(e, name, rest);
  }

  /** Decomposing a composed endpoint gives the endpoint back, with its target trimmed and a
      wildcard target normalised to `*`: the two directions of `name=source#target` agree. */
  lemma ComposeDecompose(p: BowerPackage)
    requires ValidName(p.name) && PlainSource(p.source) && OneLine(Text.Trim(p.target))
    ensures Decompose(Compose(p)) == Success(p.(target := NormalizeTarget(Text.Trim(p.target))))
  {
    ValidNameTrimmed(p.name);
    var t := Text.Trim(p.target);
    Text.TrimIdempotent(p.target);
    var tail := if IsWildcard(t) then "" else "#" + t;
    ComposeParts(p, tail);
    if p.name != "" {
      DecomposeNamed(p.name, p.source, tail, t);
    } else {
      DecomposeUnnamed(p.source, tail, t);
    }
  }

  /** With a source present and nothing to trim around name and source, the composed
      endpoint is the optional `name=`, the source and the optional `#target`, read left to
      right. */
  lemma ComposeParts(p: BowerPackage, tail: string)
    requires p.source != "" && Text.Trimmed(p.name) && Text.Trimmed(p.source)
    requires tail == (if IsWildcard(Text.Trim(p.target)) then "" else "#" + Text.Trim(p.target))
    ensures p.name != "" ==> Compose(p) == p.name + "=" + p.source + tail
    ensures p.name == "" ==> Compose(p) == p.source + tail
  {
  }

  /** A value that names a source rather than a version: it holds `/`, `\` or `@`. */
  predicate IsSource(value: string) {
    '/' in value || '\\' in value || '@' in value
  }

  /** The part of the endpoint `json2decomposed(key, value)` builds after `key=`: a `#` in the
      value separates a source (empty means the key) from a target, each trimmed; a value
      that looks like a source has any version; anything else is a version of the package
      named by the key. */
  function JsonRest(key: string, value: string): string {
    var parts := Text.Split(value, '#');
    var first := Text.Trim(parts[0]);
    if |parts| > 1 then (if first != "" then first else key) + "#" + Text.Trim(parts[1])
    else if IsSource(value) then value + "#*"
    else key + "#" + first
  }

  /** `json2decomposed(key, value)`: key and value are trimmed, an empty key is rejected,
      otherwise `key=` and the rest built from the value is decomposed as an endpoint. */
  function JsonToDecomposed(key: string, value: string): (r: Result<BowerPackage, Error>)
    ensures Text.Trim(key) == "" ==> r == Failure(Error(PlainError, "The key must be specified"))
    ensures Text.Trim(key) != "" && r.Failure?
            ==> r.error == Error(PlainError, "Invalid endpoint: " + Text.Trim(key) + "=" + JsonRest(Text.Trim(key), Text.Trim(value)))
  {
    var k := Text.Trim(key);
    if k == "" then Failure(Error(PlainError, "The key must be specified"))
    else Decompose(k + "=" + JsonRest(k, Text.Trim(value)))
  }

  /** White space around the key or the value makes no difference. */
  lemma JsonIgnoresSurroundingSpace(key: string, value: string)
    ensures JsonToDecomposed(key, value) == JsonToDecomposed(Text.Trim(key), Text.Trim(value))
  {
    Text.TrimIdempotent(key);
    Text.TrimIdempotent(value);
  }

  /** A key of white space only is no key. */
  lemma BlankKeyRejected(key: string, value: string)
    requires forall i :: 0 <= i < |key| ==> Text.IsSpace(key[i])
    ensures JsonToDecomposed(key, value) == Failure(Error(PlainError, "The key must be specified"))
  {
    Text.BlankTrimsToEmpty(key);
  }

  /** A value without `#` that does not look like a source is a version of the key's
      package. */
  lemma JsonRestVersion(key: string, value: string)
    requires '#' !in value && !IsSource(value)
    ensures JsonRest(key, value) == key + "#" + Text.Trim(value)
  {
    assert Text.IndexOfChar(value, '#').None?;
  }

  /** A value without `#` that looks like a source is that source, any version. */
  lemma JsonRestSource(key: string, value: string)
    requires '#' !in value && IsSource(value)
    ensures JsonRest(key, value) == value + "#*"
  {
    assert Text.IndexOfChar(value, '#').None?;
  }

  /** `source#version` keeps its trimmed source, or the key when the source is blank, and
      its trimmed version. */
  lemma JsonRestHash(key: string, source: string, version: string)
    requires '#' !in source && '#' !in version
    ensures JsonRest(key, source + "#" + version)
            == (if Text.Trim(source) != "" then Text.Trim(source) else key) + "#" + Text.Trim(version)
  {
    Text.SplitJoin([source, version], '#');
    assert Text.Join([source, version], '#') == source + "#" + version;
  }

  /** `addBowerPackageToProject(name, target)`. A single argument holding `#` is split into
      name and target; a `#` in the name next to an explicit target is rejected. */
  function AddBowerPackageToProject(localName: string, target: Option<string>): (r: Result<BowerPackage, Error>)
    ensures target.Some? && '#' in localName ==> r == Failure(Error(SilentError, "You cannot have a # in your bower package name."))
    ensures '#' !in localName ==> r == JsonToDecomposed(localName, target.GetOr(""))
  {
    if '#' in localName then
      if target.None? then
        var parts := Text.Split(localName, '#');
        JsonToDecomposed(parts[0], if |parts| > 1 then parts[1] else "")
      else Failure(Error(SilentError, "You cannot have a # in your bower package name."))
    else JsonToDecomposed(localName, target.GetOr(""))
  }

  /** For a valid key, `json2decomposed` decomposes `key=` followed by the rest built from
      the trimmed value. */
  lemma JsonDecomposesRest(key: string, value: string)
    requires key != "" && ValidName(key)
    ensures JsonToDecomposed(key, value) == Decompose(key + "=" + JsonRest(key, Text.Trim(value)))
  {
    ValidNameTrimmed(key);
  }

  /** Trimming a version keeps it free of `#` and of source-like characters. */
  lemma TrimKeepsVersion(version: string)
    requires '#' !in version && !IsSource(version)
    ensures '#' !in Text.Trim(version) && !IsSource(Text.Trim(version))
  {
    var v := Text.Trim(version);
    if '#' in v { Text.TrimInside(version, '#'); }
    if '/' in v { Text.TrimInside(version, '/'); }
    if '\\' in v { Text.TrimInside(version, '\\'); }
    if '@' in v { Text.TrimInside(version, '@'); }
  }

  /** A plain name without a target is any version of the package of that name. */
  lemma BowerNameOnly(name: string)
    requires name != "" && ValidName(name)
    ensures AddBowerPackageToProject(name, None) == Success(BowerPackage(name, name, "*"))
  {
    ValidNameSeparators(name);
    ValidNameTrimmed(name);
    JsonRestVersion(name, "");
    assert name + "=" + JsonRest(name, "") == name + "=" + name + "#";
    DecomposeNamed(name, name, "#", "");
  }

  /** A version without `#` or a source-like character is a version of the package named by
      the key: trimmed, and with wildcards written `*`. */
  lemma BowerVersion(name: string, version: string)
    requires name != "" && ValidName(name)
    requires '#' !in version && !IsSource(version) && OneLine(Text.Trim(version))
    ensures AddBowerPackageToProject(name, Some(version)) == Success(BowerPackage(name, name, NormalizeTarget(Text.Trim(version))))
  {
    ValidNameSeparators(name);
    JsonDecomposesRest(name, version);
    TrimKeepsVersion(version);
    DecomposeVersionRest(name, Text.Trim(version));
  }

  /** The endpoint built for a trimmed version decomposes into the key's package at that
      version. */
  lemma DecomposeVersionRest(name: string, v: string)
    requires name != "" && ValidName(name)
    requires '#' !in v && !IsSource(v) && OneLine(v) && Text.Trimmed(v)
    ensures Decompose(name + "=" + JsonRest(name, v)) == Success(BowerPackage(name, name, NormalizeTarget(v)))
  {
    ValidNameSeparators(name);
    ValidNameTrimmed(name);
    JsonRestVersion(name, v);
    assert name + "=" + (name + "#" + v) == name + "=" + name + ("#" + v);
    DecomposeNamed(name, name, "#" + v, v);
  }

  /** Two strings without white space at their ends, joined by `#`, have none either. */
  lemma TrimmedAroundHash(a: string, b: string)
    requires a != "" && Text.Trimmed(a) && Text.Trimmed(b)
    ensures Text.Trimmed(a + "#" + b)
  {
    var s := a + "#" + b;
    assert s[0] == a[0];
    if b == "" {
      assert s[|s| - 1] == '#';
    } else {
      assert s[|s| - 1] == b[|b| - 1];
    }
  }

  /** `source#version` as the target installs that source under the local name. */
  lemma BowerLocalName(name: string, source: string, version: string)
    requires name != "" && ValidName(name) && PlainSource(source)
    requires '#' !in version && Text.Trimmed(version) && OneLine(version)
    ensures AddBowerPackageToProject(name, Some(source + "#" + version))
            == Success(BowerPackage(name, source, NormalizeTarget(version)))
  {
    ValidNameSeparators(name);
    JsonDecomposesRest(name, source + "#" + version);
    TrimmedAroundHash(source, version);
    DecomposeHashRest(name, source, version);
  }

  /** The endpoint built for `source#version` decomposes into that source at that version. */
  lemma DecomposeHashRest(name: string, source: string, version: string)
    requires name != "" && ValidName(name) && PlainSource(source)
    requires '#' !in version && Text.Trimmed(version) && OneLine(version)
    ensures Decompose(name + "=" + JsonRest(name, source + "#" + version))
            == Success(BowerPackage(name, source, NormalizeTarget(version)))
  {
    assert JsonRest(name, source + "#" + version) == source + "#" + version by {
      JsonRestHash(name, source, version);
      assert Text.Trim(source) == source && Text.Trim(version) == version;
    }
    assert name + "=" + (source + "#" + version) == name + "=" + source + ("#" + version);
    DecomposeVersioned(name, source, version);
  }

  /** `name=source#version` decomposes into its three parts, the version normalised. */
  lemma DecomposeVersioned(name: string, source: string, version: string)
    requires name != "" && ValidName(name) && PlainSource(source)
    requires Text.Trimmed(version) && OneLine(version)
    ensures Decompose(name + "=" + source + ("#" + version))
            == Success(BowerPackage(name, source, NormalizeTarget(version)))
  {
    DecomposeNamed(name, source, "#" + version, version);
    assert Text.Trim(version) == version;
  }

  /** A source-like target (a URL or a path) installs that source, any version. */
  lemma BowerSourceTarget(name: string, source: string)
    requires name != "" && ValidName(name) && PlainSource(source) && IsSource(source)
    ensures AddBowerPackageToProject(name, Some(source)) == Success(BowerPackage(name, source, "*"))
  {
    ValidNameSeparators(name);
    ValidNameTrimmed(name);
    JsonRestSource(name, source);
    assert name + "=" + JsonRest(name, source) == name + "=" + source + "#*";
    assert Text.Trimmed("*");
    DecomposeNamed(name, source, "#*", "*");
  }

  /** The single-argument form `name#version` means the same as passing the two apart. */
  lemma BowerSingleArgument(name: string, version: string)
    requires name != "" && ValidName(name)
    requires '#' !in version
    ensures AddBowerPackageToProject(name + "#" + version, None) == AddBowerPackageToProject(name, Some(version))
  {
    ValidNameSeparators(name);
    Text.SplitJoin([name, version], '#');
    assert Text.Join([name, version], '#') == name + "#" + version;
    assert (name + "#" + version)[|name|] == '#';
  }

  /** `addBowerPackagesToProject`: every package without a source uses its name as the source,
      each is composed, and the `bower-install` task runs verbosely. */
  function AddBowerPackagesToProject(pkgs: seq<BowerPackage>): (r: (TaskRun, Status))
    ensures r.0.task == "bower-install" && r.0.verbose
    ensures |r.0.packages| == |pkgs|
    ensures forall i :: 0 <= i < |pkgs| ==> r.0.packages[i] == Compose(pkgs[i])
    ensures r.1.heading == CountLabel(|pkgs|, "install bower package")
  {
    (TaskRun("bower-install", seq(|pkgs|, i requires 0 <= i < |pkgs| => Compose(pkgs[i])), false, true),
     Status(CountLabel(|pkgs|, "install bower package"), JoinComma(seq(|pkgs|, i requires 0 <= i < |pkgs| => pkgs[i].name))))
  }

  /** The bower source URL of the test data, written in two pieces so that its characters
      can be inspected. */
  const BootstrapUrl: string := "https://twitter.github.io" + "/bootstrap/assets/bootstrap"

  /** `addBowerPackageToProject('foo-bar')` is any version of `foo-bar`. */
  lemma BowerNameOnlyExample()
    ensures AddBowerPackageToProject("foo-bar", None) == Success(BowerPackage("foo-bar", "foo-bar", "*"))
  {
    BowerNameOnly("foo-bar");
  }

  /** `addBowerPackageToProject('foo-bar', '1.0.0')` pins the version. */
  lemma BowerVersionExample()
    ensures AddBowerPackageToProject("foo-bar", Some("1.0.0")) == Success(BowerPackage("foo-bar", "foo-bar", "1.0.0"))
  {
    assert Text.Trimmed("1.0.0");
    BowerVersion("foo-bar", "1.0.0");
  }

  /** `addBowerPackageToProject('foo-bar-local', 'foo-bar#1.0.0')` installs `foo-bar` locally
      as `foo-bar-local`. */
  lemma BowerLocalNameExample()
    ensures AddBowerPackageToProject("foo-bar-local", Some("foo-bar#1.0.0"))
            == Success(BowerPackage("foo-bar-local", "foo-bar", "1.0.0"))
  {
    assert "foo-bar#1.0.0" == "foo-bar" + "#" + "1.0.0";
    LocalNameExampleParts();
    BowerLocalName("foo-bar-local", "foo-bar", "1.0.0");
  }

  /** The parts of the local-name test data are well formed. */
  lemma LocalNameExampleParts()
    ensures ValidName("foo-bar-local") && PlainSource("foo-bar")
    ensures Text.Trimmed("1.0.0") && OneLine("1.0.0") && '#' !in "1.0.0"
  {
  }

  /** The single-argument form of the test data. */
  const DeprecatedArgument: string := "foo-bar" + "#" + "1.11.1"

  /** The deprecated single argument `foo-bar#1.11.1` is split into name and version. */
  lemma BowerSingleArgumentExample()
    ensures AddBowerPackageToProject(DeprecatedArgument, None) == Success(BowerPackage("foo-bar", "foo-bar", "1.11.1"))
  {
    assert ValidName("foo-bar");
    assert '#' !in "1.11.1" && !IsSource("1.11.1");
    assert Text.Trimmed("1.11.1") && Text.Trim("1.11.1") == "1.11.1";
    assert OneLine("1.11.1");
    BowerSingleArgument("foo-bar", "1.11.1");
    BowerVersion("foo-bar", "1.11.1");
  }

  /** Two plain sources joined are a plain source. */
  lemma PlainSourceConcat(a: string, b: string)
    requires PlainSource(a) && PlainSource(b)
    ensures PlainSource(a + b)
  {
    assert (a + b)[0] == a[0];
    assert (a + b)[|a + b| - 1] == b[|b| - 1];
  }

  /** A URL target is taken as the source, any version. */
  lemma BowerUrlExample()
    ensures AddBowerPackageToProject("foo-bar-local", Some(BootstrapUrl))
            == Success(BowerPackage("foo-bar-local", BootstrapUrl, "*"))
  {
    BootstrapUrlIsSource();
    assert ValidName("foo-bar-local");
    BowerSourceTarget("foo-bar-local", BootstrapUrl);
  }

  /** The test data's URL is a plain source that looks like a source. */
  lemma BootstrapUrlIsSource()
    ensures PlainSource(BootstrapUrl) && IsSource(BootstrapUrl)
  {
    var host, rest := "https://twitter.github.io", "/bootstrap/assets/bootstrap";
    assert PlainSource(host) && PlainSource(rest);
    PlainSourceConcat(host, rest);
    assert BootstrapUrl[6] == '/';
  }

  /** A package given only by its name and a target composes as `name=name[#target]`, each
      part trimmed. */
  lemma ComposeNameOnly(name: string, target: string)
    requires Text.Trim(name) != ""
    ensures IsWildcard(Text.Trim(target))
            ==> Compose(BowerPackage(name, "", target)) == Text.Trim(name) + "=" + Text.Trim(name)
    ensures !IsWildcard(Text.Trim(target))
            ==> Compose(BowerPackage(name, "", target)) == Text.Trim(name) + "=" + Text.Trim(name) + "#" + Text.Trim(target)
  {
    var n, t := Text.Trim(name), Text.Trim(target);
    assert n + "=" + n + ("#" + t) == n + "=" + n + "#" + t;
  }

  /** Two packages are installed as their two composed endpoints, in order. */
  lemma AddBowerPackagesPair(p: BowerPackage, q: BowerPackage)
    ensures AddBowerPackagesToProject([p, q]).0.packages == [Compose(p), Compose(q)]
  {
    var ps := AddBowerPackagesToProject([p, q]).0.packages;
    assert ps[0] == Compose(p) && ps[1] == Compose(q);
  }

  /** Names stand in for missing sources and wildcard targets are dropped. */
  lemma AddBowerPackagesNamesExample()
    ensures AddBowerPackagesToProject([BowerPackage("foo-bar", "", ""), BowerPackage("bar-foo", "", "")]).0.packages
            == ["foo-bar=foo-bar", "bar-foo=bar-foo"]
  {
    var a, b := "foo-bar", "bar-foo";
    assert Text.Trimmed(a) && Text.Trimmed(b);
    AddBowerPackagesPair(BowerPackage(a, "", ""), BowerPackage(b, "", ""));
    ComposeNameOnly(a, "");
    ComposeNameOnly(b, "");
    assert a + "=" + a == "foo-bar=foo-bar";
    assert b + "=" + b == "bar-foo=bar-foo";
  }

  /** Targets that are not wildcards (such as `~1.0.0` and `0.7.0`) are appended after `#`;
      names and targets are written trimmed. */
  lemma AddBowerPackagesTargets(a: string, b: string, ta: string, tb: string)
    requires Text.Trim(a) != "" && Text.Trim(b) != ""
    requires !IsWildcard(Text.Trim(ta)) && !IsWildcard(Text.Trim(tb))
    ensures AddBowerPackagesToProject([BowerPackage(a, "", ta), BowerPackage(b, "", tb)]).0.packages
            == [Text.Trim(a) + "=" + Text.Trim(a) + "#" + Text.Trim(ta), Text.Trim(b) + "=" + Text.Trim(b) + "#" + Text.Trim(tb)]
  {
    AddBowerPackagesPair(BowerPackage(a, "", ta), BowerPackage(b, "", tb));
    ComposeNameOnly(a, ta);
    ComposeNameOnly(b, tb);
  }

  /** A `*` target is dropped. */
  lemma ComposeWildcardExample()
    ensures Compose(BowerPackage("bootstrap", BootstrapUrl, "*")) == "bootstrap=" + BootstrapUrl
  {
    assert BootstrapUrl[0] == 'h' && BootstrapUrl[|BootstrapUrl| - 1] == 'p';
    assert Text.Trimmed("bootstrap") && Text.Trimmed("*");
    ComposeParts(BowerPackage("bootstrap", BootstrapUrl, "*"), "");
  }

  // ---------------------------------------------------------------- addons

  /** An addon to install: a ready-made spec string or a `{ name, target }` object. */
  datatype AddonPackage = AddonSpecString(spec: string) | AddonDescriptor(name: string, target: Option<string>)

  /** A descriptor becomes `name@target` (or its name); a string is passed through. */
  function AddonSpec(p: AddonPackage): (r: string)
    ensures p.AddonSpecString? ==> r == p.spec
    ensures p.AddonDescriptor? ==> r == NpmSpec(NpmPackage(p.name, p.target))
  {
    match p
    case AddonSpecString(s) => s
    case AddonDescriptor(n, t) => NpmSpec(NpmPackage(n, t))
  }

  /** `addAddonToProject(x)` wraps its argument, string or object, in a one-element list. */
  function AddAddonToProject(p: AddonPackage): (r: seq<AddonPackage>)
    ensures r == [p]
  {
    [p]
  }

  /** The `addon-install` invocation: the specs in order, plus the extra arguments and the
      blueprint options, which are handed on as given. */
  datatype AddonRun = AddonRun(packages: seq<string>, extraArgs: seq<string>, blueprintOptions: JsValue)

  /** `addAddonsToProject`: each package becomes its spec, in order; the extra arguments and
      the blueprint options reach the task unchanged; the status line names the specs. */
  function AddAddonsToProject(pkgs: seq<AddonPackage>, extraArgs: seq<string>, blueprintOptions: JsValue): (r: (AddonRun, Status))
    ensures |r.0.packages| == |pkgs| && r.0.extraArgs == extraArgs && r.0.blueprintOptions == blueprintOptions
    ensures forall i :: 0 <= i < |pkgs| ==> r.0.packages[i] == AddonSpec(pkgs[i])
    ensures r.1 == Status(CountLabel(|pkgs|, "install addon"), JoinComma(r.0.packages))
  {
    var specs := seq(|pkgs|, i requires 0 <= i < |pkgs| => AddonSpec(pkgs[i]));
    (AddonRun(specs, extraArgs, blueprintOptions), Status(CountLabel(|pkgs|, "install addon"), JoinComma(specs)))
  }

  /** `addAddonToProject(x)` hands `addAddonsToProject` exactly that one addon: the task
      installs its spec, and the status line names it in the singular. */
  lemma SingleAddonInstalled(p: AddonPackage, extraArgs: seq<string>, blueprintOptions: JsValue)
    ensures AddAddonsToProject(AddAddonToProject(p), extraArgs, blueprintOptions).0
         == AddonRun([AddonSpec(p)], extraArgs, blueprintOptions)
    ensures AddAddonsToProject(AddAddonToProject(p), extraArgs, blueprintOptions).1 == Status("install addon", AddonSpec(p))
  {
    var r := AddAddonsToProject(AddAddonToProject(p), extraArgs, blueprintOptions);
    assert r.0.packages[0] == AddonSpec(p);
    assert r.0.packages == [AddonSpec(p)];
  }

  /** A descriptor, a bare name and a ready-made spec, with extra arguments and a string of
      blueprint options: the task gets the three specs, `["baz"]` and `-foo`. */
  lemma ParsedAddonOptionsExample()
    ensures AddAddonsToProject(
              [AddonDescriptor("foo-bar", Some("1.0.0")), AddonSpecString("stuff-things"), AddonSpecString("baz-bat@0.0.1")],
              ["baz"], Str("-foo")).0
         == AddonRun(["foo-bar@1.0.0", "stuff-things", "baz-bat@0.0.1"], ["baz"], Str("-foo"))
  {
    var pkgs := [AddonDescriptor("foo-bar", Some("1.0.0")), AddonSpecString("stuff-things"), AddonSpecString("baz-bat@0.0.1")];
    var r := AddAddonsToProject(pkgs, ["baz"], Str("-foo"));
    assert TruthyString(Some("1.0.0")) by {
      assert "1.0.0"[0] == '1';
    }
    assert r.0.packages[0] == "foo-bar" + "@" + "1.0.0" == "foo-bar@1.0.0";
    assert r.0.packages[1] == "stuff-things" && r.0.packages[2] == "baz-bat@0.0.1";
  }

  /** An addon descriptor and a string holding its spec install the same thing. */
  lemma AddonDescriptorAsString(name: string, target: Option<string>)
    ensures AddonSpec(AddonDescriptor(name, target)) == AddonSpec(AddonSpecString(NpmSpec(NpmPackage(name, target))))
  {
  }
}
