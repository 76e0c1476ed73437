/**
  A blueprint as the engine sees it: its files and template sources, the hooks it may
  override (each with the default behaviour when it does not), and the registry `lookup`
  searches to find a blueprint by name or by path.
*/
module Blueprints {
  import opened Wrappers
  import opened Assoc
  import opened Context
  import opened FileMap
  import opened Packages
  import EntityName
  import Text

  /** How one blueprint names another it installs: by name through the lookup paths, or by an
      absolute directory. */
  datatype Ref = ByName(name: string) | ByPath(path: string)

  /**
    What `beforeInstall(options, locals)` does before the files are processed: the locals it
    leaves behind (the hook may add to or change them), the directories it creates, and the
    blueprint it installs first, if any.
  */
  datatype HookEffect = HookEffect(locals: Locals, mkdirs: seq<string>, delegate: Option<Ref>)

  /**
    A blueprint. `files` lists the template paths relative to the blueprint's `files`
    directory, a trailing `/` marking a directory; `source` gives a template's text; `remap`
    is applied to a path after the default `mapFile`; `afterInstall` yields the npm packages it
    asks to add, if it asks at all.
  */
  datatype Blueprint = Blueprint(
    name: string,
    path: string,
    files: Project -> seq<string>,
    source: string -> string,
    normalizeEntityName: Option<string> -> Result<Option<string>, Error>,
    locals: Options -> Result<Locals, Error>,
    tokens: Assoc<Token>,
    remap: string -> string,
    beforeInstall: (Options, Locals) -> HookEffect,
    afterInstall: Options -> Result<Option<seq<NpmPackage>>, Error>,
    anonymousOptions: seq<string>)

  /** The default `beforeInstall`: nothing happens and the locals are left as they are. */
  function NoEffect(options: Options, locals: Locals): (r: HookEffect)
    ensures r.locals == locals && r.mkdirs == [] && r.delegate.None?
  {
    HookEffect(locals, [], None)
  }

  /** A blueprint that overrides nothing: the hooks are the defaults of the base class. */
  function Plain(path: string, files: Project -> seq<string>, source: string -> string): (b: Blueprint)
    ensures b.name == Text.Basename(path) && b.path == path
    ensures forall n :: b.normalizeEntityName(n) == EntityName.DefaultNormalize(n)
    ensures forall o :: b.locals(o) == Success([]) && b.afterInstall(o) == Success(None)
    ensures forall o, l :: b.beforeInstall(o, l) == NoEffect(o, l)
    ensures forall f :: b.remap(f) == f
    ensures b.tokens == [] && b.anonymousOptions == ["name"]
  {
    Blueprint(Text.Basename(path), path, files, source, EntityName.DefaultNormalize,
      (o: Options) => Success([]), [], (f: string) => f, NoEffect,
      (o: Options) => Success(None), ["name"])
  }

  /** Whether any template path holds the `__path__` token. */
  function HasPathToken(files: seq<string>): (r: bool)
    ensures r <==> exists i :: 0 <= i < |files| && Text.Contains(files[i], "__path__")
  {
    if |files| == 0 then false
    else
      var rest := HasPathToken(files[1..]);
      assert forall i :: 0 <= i < |files[1..]| ==> files[1..][i] == files[i + 1];
      Text.Contains(files[0], "__path__") || rest
  }

  // ---------------------------------------------------------------- lookup

  /** What is found at a path: something that is not a directory, or a blueprint directory
      (one without `index.js` holds a blueprint that overrides nothing). */
  datatype Entry = NotADirectory | Directory(blueprint: Blueprint)

  /** The paths that exist, and the built-in lookup paths searched after the given ones. */
  datatype Registry = Registry(entries: map<string, Entry>, defaults: seq<string>)

  /** How many lookup directories come before the first empty one. */
  function SearchedCount(dirs: seq<string>): (n: nat)
    ensures n <= |dirs|
    ensures forall i :: 0 <= i < n ==> dirs[i] != ""
    ensures n < |dirs| ==> dirs[n] == ""
  {
    if |dirs| == 0 || dirs[0] == "" then 0
    else
      var n := 1 + SearchedCount(dirs[1..]);
      assert forall i :: 1 <= i < n ==> dirs[i] == dirs[1..][i - 1];
      n
  }

  /** The candidate `path.resolve(dir, name)` for each lookup directory, up to the first empty
      directory, where the search loop stops. */
  function Candidates(dirs: seq<string>, name: string): (r: seq<string>)
    ensures |r| <= |dirs|
    ensures forall i :: 0 <= i < |r| ==> dirs[i] != "" && r[i] == Text.Resolve(dirs[i], name)
    ensures |r| < |dirs| ==> dirs[|r|] == ""
  {
    var n := SearchedCount(dirs);
    seq(n, i requires 0 <= i < n => Text.Resolve(dirs[i], name))
  }

  /** The first candidate that exists. */
  function FirstExisting(cands: seq<string>, entries: map<string, Entry>): (r: Option<nat>)
    ensures r.Some? ==> r.value < |cands| && cands[r.value] in entries
    ensures r.Some? ==> forall j :: 0 <= j < r.value ==> cands[j] !in entries
    ensures r.None? ==> forall j :: 0 <= j < |cands| ==> cands[j] !in entries
  {
    if |cands| == 0 then None
    else if cands[0] in entries then Some(0)
    else match FirstExisting(cands[1..], entries)
      case None => None
      case Some(i) => Some(i + 1)
  }

  /** `Blueprint.load(path)`: a directory yields its blueprint, named after the directory;
      anything else yields nothing. */
  function Load(entry: Entry, path: string): (r: Option<Blueprint>)
    ensures r.Some? <==> entry.Directory?
    ensures r.Some? ==> r.value.name == Text.Basename(path) && r.value.path == path
  {
    match entry
    case NotADirectory => None
    case Directory(b) => Some(b.(name := Text.Basename(path), path := path))
  }

  /**
    `Blueprint.lookup(name, { paths, ignoreMissing })`: the given paths, then the built-in
    ones, are searched in order and the first existing `path.resolve(dir, name)` is loaded.
    When none exists the lookup fails with `Unknown blueprint: <name>`, unless missing
    blueprints are to be ignored.
  */
  function Lookup(reg: Registry, name: string, paths: seq<string>, ignoreMissing: bool): (r: Result<Option<Blueprint>, Error>)
    ensures r.Failure? <==> !ignoreMissing && FirstExisting(Candidates(paths + reg.defaults, name), reg.entries).None?
    ensures r.Failure? ==> r.error == Error(SilentError, "Unknown blueprint: " + name)
  {
    var cands := Candidates(paths + reg.defaults, name);
    match FirstExisting(cands, reg.entries)
    case Some(i) => Success(Load(reg.entries[cands[i]], cands[i]))
    case None => if ignoreMissing then Success(None) else Failure(Error(SilentError, "Unknown blueprint: " + name))
  }

  /** Looks up what a `Ref` names, through the built-in lookup paths only, as the blueprints
      that install another one do. */
  function Find(reg: Registry, ref: Ref): (r: Result<Option<Blueprint>, Error>)
    ensures ref.ByName? ==> r == Lookup(reg, ref.name, [], false)
    ensures ref.ByPath? ==> r == Lookup(reg, ref.path, [], false)
  {
    match ref
    case ByName(n) => Lookup(reg, n, [], false)
    case ByPath(p) => Lookup(reg, p, [], false)
  }

  /** The lookup visits the candidates in order: the first directory whose candidate exists
      decides, whatever later directories hold. */
  lemma {:induction false} LookupFirstMatch(reg: Registry, name: string, paths: seq<string>, ignoreMissing: bool, i: nat)
    requires i < |paths + reg.defaults|
    requires forall j :: 0 <= j <= i ==> (paths + reg.defaults)[j] != ""
    requires Text.Resolve((paths + reg.defaults)[i], name) in reg.entries
    requires forall j :: 0 <= j < i ==> Text.Resolve((paths + reg.defaults)[j], name) !in reg.entries
    ensures var p := Text.Resolve((paths + reg.defaults)[i], name);
      Lookup(reg, name, paths, ignoreMissing) == Success(Load(reg.entries[p], p))
  {
    var dirs := paths + reg.defaults;
    var cands := Candidates(dirs, name);
    CandidatesPrefix(dirs, name, i);
    var k := FirstExisting(cands, reg.entries);
    assert cands[i] in reg.entries;
    assert k.Some?;
    assert k.value == i;
  }

  /** Every directory up to the first empty one contributes a candidate. */
  lemma CandidatesPrefix(dirs: seq<string>, name: string, i: nat)
    requires i < |dirs|
    requires forall j :: 0 <= j <= i ==> dirs[j] != ""
    ensures i < |Candidates(dirs, name)|
  {
  }

  /** A blueprint in a lookup path the caller gives shadows a built-in one of the same name. */
  lemma ProjectPathShadowsDefault(reg: Registry, name: string, dir: string)
    requires dir != ""
    requires Text.Resolve(dir, name) in reg.entries
    ensures Lookup(reg, name, [dir], false) == Success(Load(reg.entries[Text.Resolve(dir, name)], Text.Resolve(dir, name)))
  {
    LookupFirstMatch(reg, name, [dir], false, 0);
  }

  /** An absolute path in normal form is found as itself, from the first lookup directory
      on; any other absolute path is found in its normal form. */
  lemma LookupByAbsolutePath(reg: Registry, p: string, paths: seq<string>)
    requires Text.StartsWith(p, "/") && Text.Resolve("/", p) in reg.entries
    requires |paths + reg.defaults| > 0 && (paths + reg.defaults)[0] != ""
    ensures var q := Text.Resolve("/", p);
      Lookup(reg, p, paths, false) == Success(Load(reg.entries[q], q))
    ensures Text.NormalAbsolute(p) ==> p in reg.entries && Lookup(reg, p, paths, false) == Success(Load(reg.entries[p], p))
  {
    assert Text.ResolveSteps((paths + reg.defaults)[0], p) == Text.ResolveSteps("/", p);
    LookupFirstMatch(reg, p, paths, false, 0);
    if Text.NormalAbsolute(p) {
      Text.ResolveNormalAbsolute("/", p);
    }
  }

  /** A blueprint directory found under a lookup directory is named after its own directory,
      and lies under that directory when the directory is in normal form. */
  lemma FoundBlueprintName(reg: Registry, name: string, dir: string)
    requires dir != "" && Text.NormalSegment(name)
    requires Text.Resolve(dir, name) in reg.entries && reg.entries[Text.Resolve(dir, name)].Directory?
    ensures var r := Lookup(reg, name, [dir], false);
      r.Success? && r.value.Some? && r.value.value.name == name && r.value.value.path == Text.Resolve(dir, name)
    ensures Text.NormalAbsolute(dir) ==> Lookup(reg, name, [dir], false).value.value.path == Text.Under(dir, name)
  {
    ProjectPathShadowsDefault(reg, name, dir);
    Text.ResolveChild(dir, name);
    Text.UnderParts(Text.Resolve(dir, "."), name);
    if Text.NormalAbsolute(dir) {
      Text.ResolveDotIsDir(dir);
    }
  }

  /** Nothing found: an error naming the blueprint, or `undefined` when asked to ignore it. */
  lemma UnknownBlueprint(reg: Registry, name: string, paths: seq<string>)
    requires forall i :: 0 <= i < |paths + reg.defaults| ==> Text.Resolve((paths + reg.defaults)[i], name) !in reg.entries
    ensures Lookup(reg, name, paths, false) == Failure(Error(SilentError, "Unknown blueprint: " + name))
    ensures Lookup(reg, name, paths, true) == Success(None)
  {
    var cands := Candidates(paths + reg.defaults, name);
    assert forall j :: 0 <= j < |cands| ==> cands[j] !in reg.entries;
  }
}
