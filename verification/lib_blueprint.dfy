/**
  The `lib` blueprint for in-repo addons: it always creates the `lib` directory, and adds a
  `lib/.jshintrc` only to projects that depend on `ember-cli-jshint`.
*/
module LibBlueprint {
  import opened Wrappers
  import opened Context
  import opened Blueprints
  import opened FileTree
  import opened Engine
  import Text

  const JshintPackage: string := "ember-cli-jshint"
  const JshintTemplate: string := "lib/.jshintrc"

  /** `hasJSHint()`: `undefined` (falsy) without a project, otherwise whether the project's
      dependencies name `ember-cli-jshint`. */
  predicate HasJshint(project: Option<Project>) {
    project.Some? && JshintPackage in project.value.dependencies
  }

  /** `files()`: the `.jshintrc` template exactly when `hasJSHint()` holds, nothing otherwise. */
  function LibFiles(project: Option<Project>): (r: seq<string>)
    ensures JshintTemplate in r <==> project.Some? && JshintPackage in project.value.dependencies
    ensures forall f :: f in r ==> f == JshintTemplate
    ensures |r| <= 1
  {
    if HasJshint(project) then [JshintTemplate] else []
  }

  /** `normalizeEntityName(name)` hands the name back unchanged: a missing name is allowed. */
  function LibNormalize(name: Option<string>): (r: Result<Option<string>, Error>)
    ensures r.Success? && r.value == name
  {
    Success(name)
  }

  /** `beforeInstall()` creates `lib` and leaves the locals as they are. */
  function LibBeforeInstall(options: Options, locals: Context.Locals): (r: HookEffect)
    ensures r.locals == locals && r.delegate.None?
    ensures "lib" in r.mkdirs
  {
    HookEffect(locals, ["lib"], None)
  }

  /** The `lib` blueprint at `path`. */
  function Lib(path: string, source: string -> string): (b: Blueprint)
    ensures b.name == Text.Basename(path) && b.path == path
    ensures forall p :: b.files(p) == LibFiles(Some(p))
    ensures forall n :: b.normalizeEntityName(n) == LibNormalize(n)
    ensures forall o, l :: b.beforeInstall(o, l) == LibBeforeInstall(o, l)
  {
    Blueprint(Text.Basename(path), path, (p: Project) => LibFiles(Some(p)), source, LibNormalize,
      (o: Options) => Success([]), [], (f: string) => f, LibBeforeInstall,
      (o: Options) => Success(None), ["name"])
  }

  /** No project, no templates. */
  lemma NoProjectNoFiles()
    ensures LibFiles(None) == []
  {
  }

  /** The entity name passes normalization whatever it is, even when it is missing. */
  lemma AnyNameAccepted(path: string, source: string -> string, options: Options)
    ensures NormalizeOptionsOf(Lib(path, source), options) == Success(options)
  {
    if options.entity.Some? {
      assert options.(entity := Some(Entity(options.entity.value.name))) == options;
    }
  }

  /** Whatever the project, the directories `beforeInstall` asks for are exactly `lib`. */
  lemma LibDirectoryRequested(env: Env, path: string, source: string -> string, options: Options)
    requires Prepare(env, Lib(path, source), options).Success?
    ensures Prepare(env, Lib(path, source), options).value.effect.mkdirs == ["lib"]
  {
  }

  /** Creating `lib` succeeds unless a file is in the way, and leaves `lib` a directory before
      any template is considered, so the directory exists even when there is no template. */
  lemma LibDirectoryCreated(t: Tree)
    ensures MkdirsAll(t, ["lib"]).Success? <==> ["lib"] !in t.files
    ensures MkdirsAll(t, ["lib"]).Success? ==> ["lib"] in MkdirsAll(t, ["lib"]).value.dirs
  {
    assert '/' !in "lib";
    assert Text.Split("lib", '/') == ["lib"];
    assert !ThroughFile(t, ["lib"]);
  }
}
