/**
  The installation engine: which templates a blueprint writes and where, how each output is
  classified against the target directory, how conflicts are settled by the answers the user
  gives, how the resulting actions change the tree and what lines they log, and the
  `install` and `uninstall` flows that chain the hooks around all this.
*/
module Engine {
  import opened Wrappers
  import Assoc
  import opened Context
  import opened Inflector
  import opened FileMap
  import opened Locals
  import opened Packages
  import opened Blueprints
  import opened FileTree
  import Text

  // ---------------------------------------------------------------- actions

  /** The file actions a blueprint can dispatch. */
  datatype Action = Write | Skip | Overwrite | Edit | Remove

  function ActionName(a: Action): string {
    match a
    case Write => "write"
    case Skip => "skip"
    case Overwrite => "overwrite"
    case Edit => "edit"
    case Remove => "remove"
  }

  /** The action an answer or a classification names, if it names one. */
  function ActionNamed(s: string): (r: Option<Action>)
    ensures r.Some? ==> ActionName(r.value) == s
    ensures forall a :: ActionName(a) == s ==> r == Some(a)
  {
    if s == "write" then Some(Write)
    else if s == "skip" then Some(Skip)
    else if s == "overwrite" then Some(Overwrite)
    else if s == "edit" then Some(Edit)
    else if s == "remove" then Some(Remove)
    else None
  }

  function MissingActionMessage(name: string): string {
    "Tried to call action \"" + name + "\" but it does not exist"
  }

  // ---------------------------------------------------------------- environment

  /**
    What the engine works with besides the blueprint: the inflector, the template renderer,
    the `Blueprint.ignoredFiles` and `Blueprint.ignoredUpdateFiles` lists, the blueprint's
    action table, and the registry lookups search.
  */
  datatype Env = Env(
    inf: Inflector,
    render: (string, Context.Locals) -> string,
    ignoredFiles: seq<string>,
    ignoredUpdateFiles: seq<string>,
    actions: set<Action>,
    registry: Registry)

  /** One output of the installation: the template it comes from, the path it is written to
      (relative to the target directory) and the rendered contents. */
  datatype FileInfo = FileInfo(template: string, display: string, content: string)

  /** The segments of an output path. */
  function OutputOf(info: FileInfo): (p: Path)
    ensures |p| > 0
  {
    Text.Split(info.display, '/')
  }

  // ---------------------------------------------------------------- planning

  /** `targetFiles`, when given, restrict the templates to those listed, in template order. */
  function SelectFiles(files: seq<string>, targets: seq<string>): (r: seq<string>)
    ensures |targets| == 0 ==> r == files
    ensures |targets| > 0 ==> forall f :: f in r <==> f in files && f in targets
    ensures |r| <= |files|
  {
    if |targets| == 0 then files else Intersect(files, targets)
  }

  function Intersect(files: seq<string>, targets: seq<string>): (r: seq<string>)
    ensures forall f :: f in r <==> f in files && f in targets
    ensures |r| <= |files|
  {
    if |files| == 0 then []
    else (if files[0] in targets then [files[0]] else []) + Intersect(files[1..], targets)
  }

  /** The file names skipped by their base name: the update list joins in when the project
      already exists. */
  function IgnoredNames(env: Env, project: Project): (r: seq<string>)
    ensures forall n :: n in env.ignoredFiles ==> n in r
    ensures forall n :: n in r && n !in env.ignoredFiles ==> project.isUpdate && n in env.ignoredUpdateFiles
  {
    env.ignoredFiles + (if project.isUpdate then env.ignoredUpdateFiles else [])
  }

  /** A template entry ending in `/` is a directory and produces no output of its own. */
  predicate IsDirectoryEntry(file: string) {
    Text.EndsWith(file, "/")
  }

  /** Where a template goes: the default `mapFile` followed by the blueprint's own remapping. */
  function MappedPath(bp: Blueprint, locals: Context.Locals, file: string): string {
    bp.remap(DefaultMapFile(file, locals))
  }

  function Info(env: Env, bp: Blueprint, locals: Context.Locals, file: string): FileInfo {
    FileInfo(file, MappedPath(bp, locals, file), env.render(bp.source(file), locals))
  }

  /** A template yields an output when it is a file whose mapped base name is not ignored. */
  predicate Produces(env: Env, bp: Blueprint, locals: Context.Locals, project: Project, file: string) {
    !IsDirectoryEntry(file) && Text.Basename(MappedPath(bp, locals, file)) !in IgnoredNames(env, project)
  }

  /** The outputs of the given templates, in template order. */
  function PlanFiles(env: Env, bp: Blueprint, locals: Context.Locals, project: Project, files: seq<string>): (r: seq<FileInfo>)
    ensures |r| <= |files|
  {
    if |files| == 0 then []
    else
      var rest := PlanFiles(env, bp, locals, project, files[1..]);
      (if Produces(env, bp, locals, project, files[0]) then [Info(env, bp, locals, files[0])] else []) + rest
  }

  /** Every planned output comes from a template that produces one, and every such template
      is planned. */
  lemma {:induction false} PlanFilesSpec(env: Env, bp: Blueprint, locals: Context.Locals, project: Project, files: seq<string>)
    ensures var r := PlanFiles(env, bp, locals, project, files);
      forall info :: info in r ==> (info.template in files && Produces(env, bp, locals, project, info.template)
        && info == Info(env, bp, locals, info.template))
    ensures forall f :: f in files && Produces(env, bp, locals, project, f) ==>
      Info(env, bp, locals, f) in PlanFiles(env, bp, locals, project, files)
  {
    if |files| > 0 {
      PlanFilesSpec(env, bp, locals, project, files[1..]);
      assert forall f :: f in files ==> f == files[0] || f in files[1..];
    }
  }

  // ---------------------------------------------------------------- classification

  /** How an output relates to what the target directory holds. */
  datatype Resolution = Create | Identical | Confirm

  function Classify(t: Tree, info: FileInfo): (r: Resolution)
    ensures r == Create <==> OutputOf(info) !in t.files
    ensures r == Identical <==> OutputOf(info) in t.files && t.files[OutputOf(info)] == info.content
  {
    var p := OutputOf(info);
    if p !in t.files then Create
    else if t.files[p] == info.content then Identical
    else Confirm
  }

  /**
    The prompt for one conflict: every `diff` answer shows the difference and asks again;
    the first other answer is taken. Yields the position of that answer.
  */
  function Ask(answers: seq<string>): (r: Option<nat>)
    ensures r.Some? ==> r.value < |answers| && answers[r.value] != "diff"
    ensures r.Some? ==> forall j :: 0 <= j < r.value ==> answers[j] == "diff"
    ensures r.None? ==> forall j :: 0 <= j < |answers| ==> answers[j] == "diff"
  {
    if |answers| == 0 then None
    else if answers[0] != "diff" then Some(0)
    else match Ask(answers[1..])
      case None => None
      case Some(k) => Some(k + 1)
  }

  /** The action chosen for one output. */
  datatype Decision = Decision(info: FileInfo, resolution: Resolution, action: string)

  /** Prepending the decision for a plan's first output to decisions for the rest that
      satisfy `Decide`'s contract gives decisions for the whole plan that satisfy it. */
  lemma DecisionsCons(t: Tree, plan: seq<FileInfo>, d: Decision, rest: seq<Decision>)
    requires |plan| > 0 && |rest| == |plan| - 1
    requires d.info == plan[0] && d.resolution == Classify(t, plan[0])
    requires (Classify(t, plan[0]) == Create ==> d.action == "write")
      && (Classify(t, plan[0]) == Identical ==> d.action == "skip")
      && (Classify(t, plan[0]) == Confirm ==> d.action != "diff")
    requires forall i :: 0 <= i < |plan| - 1 ==>
      rest[i].info == plan[1..][i] && rest[i].resolution == Classify(t, plan[1..][i])
    requires forall i :: 0 <= i < |plan| - 1 ==>
      (Classify(t, plan[1..][i]) == Create ==> rest[i].action == "write")
      && (Classify(t, plan[1..][i]) == Identical ==> rest[i].action == "skip")
      && (Classify(t, plan[1..][i]) == Confirm ==> rest[i].action != "diff")
    ensures forall i :: 0 <= i < |plan| ==>
      ([d] + rest)[i].info == plan[i] && ([d] + rest)[i].resolution == Classify(t, plan[i])
    ensures forall i :: 0 <= i < |plan| ==>
      (Classify(t, plan[i]) == Create ==> ([d] + rest)[i].action == "write")
      && (Classify(t, plan[i]) == Identical ==> ([d] + rest)[i].action == "skip")
      && (Classify(t, plan[i]) == Confirm ==> ([d] + rest)[i].action != "diff")
  {
    forall i | 1 <= i < |plan| ensures ([d] + rest)[i] == rest[i - 1] && plan[i] == plan[1..][i - 1] {
    }
  }

  /**
    The confirmation pass, over all outputs in order before anything is written: a new file
    is written, an identical one skipped, and a conflicting one takes the answer to its
    prompt. Yields the decisions and the number of answers consumed; running out of answers
    stands for a prompt that is never answered.
  */
  function Decide(t: Tree, plan: seq<FileInfo>, answers: seq<string>): (r: Result<(seq<Decision>, nat), Error>)
    ensures r.Success? ==> |r.value.0| == |plan| && r.value.1 <= |answers|
    ensures r.Success? ==> forall i :: 0 <= i < |plan| ==>
      r.value.0[i].info == plan[i] && r.value.0[i].resolution == Classify(t, plan[i])
    ensures r.Success? ==> forall i :: 0 <= i < |plan| ==>
      (Classify(t, plan[i]) == Create ==> r.value.0[i].action == "write")
      && (Classify(t, plan[i]) == Identical ==> r.value.0[i].action == "skip")
      && (Classify(t, plan[i]) == Confirm ==> r.value.0[i].action != "diff")
    ensures r.Failure? ==> r.error.kind == Unanswered
  {
    if |plan| == 0 then Success(([], 0))
    else
      var res := Classify(t, plan[0]);
      if res == Confirm then
        match Ask(answers)
        case None => Failure(Error(Unanswered, plan[0].display))
        case Some(k) =>
          var rest :- Decide(t, plan[1..], answers[k + 1..]);
          var d := Decision(plan[0], Confirm, answers[k]);
          DecisionsCons(t, plan, d, rest.0);
          Success(([d] + rest.0, k + 1 + rest.1))
      else
        var rest :- Decide(t, plan[1..], answers);
        var d := Decision(plan[0], res, if res == Create then "write" else "skip");
        DecisionsCons(t, plan, d, rest.0);
        Success(([d] + rest.0, rest.1))
  }

  // ---------------------------------------------------------------- commits

  /** A line of the installation's output. */
  datatype LogLine = Installing(name: string) | Uninstalling(name: string) | Line(tag: string, path: string)

  function FsFailure(e: FsError): Error {
    match e
    case IsADirectory(_) => Error(PlainError, "EISDIR: illegal operation on a directory")
    case NotADirectory(_) => Error(PlainError, "ENOTDIR: not a directory")
  }

  /** Writes an output unless this is a dry run. */
  function Save(t: Tree, dryRun: bool, info: FileInfo): (r: Result<Tree, Error>)
    ensures dryRun ==> r == Success(t)
    ensures !dryRun && r.Success? ==> r.value.files == t.files[OutputOf(info) := info.content]
    ensures !dryRun ==> (r.Success? <==> WriteFile(t, OutputOf(info), info.content).Success?)
  {
    if dryRun then Success(t)
    else match WriteFile(t, OutputOf(info), info.content)
      case Success(t') => Success(t')
      case Failure(e) => Failure(FsFailure(e))
  }

  /** The tag an action logs. */
  function TagOf(a: Action, resolution: Resolution): string {
    match a
    case Write => "create"
    case Skip => if resolution == Identical then "identical" else "skip"
    case Overwrite => "overwrite"
    case Edit => "edited"
    case Remove => "remove"
  }

  /** Whether the decision's action is one the blueprint's action table holds. */
  predicate Dispatchable(env: Env, d: Decision) {
    ActionNamed(d.action).Some? && ActionNamed(d.action).value in env.actions
  }

  /**
    Dispatches one decision to its action: `write` and `overwrite` save the output, `skip`
    and `edit` leave the tree alone, `remove` deletes the output and the folders it leaves
    empty. A dry run logs the same lines and changes nothing.
  */
  function Commit(env: Env, t: Tree, dryRun: bool, d: Decision): (r: Result<(Tree, LogLine), Error>)
    ensures !Dispatchable(env, d) ==> r == Failure(Error(PlainError, MissingActionMessage(d.action)))
    ensures r.Success? ==> (Dispatchable(env, d)
      && r.value.1 == Line(TagOf(ActionNamed(d.action).value, d.resolution), d.info.display))
    ensures r.Success? && dryRun ==> r.value.0 == t
    ensures r.Success? && ActionNamed(d.action).value in {Skip, Edit} ==> r.value.0 == t
    ensures r.Success? && !dryRun && ActionNamed(d.action).value in {Write, Overwrite} ==>
      r.value.0.files == t.files[OutputOf(d.info) := d.info.content]
    ensures r.Success? && !dryRun && ActionNamed(d.action).value == Remove ==>
      r.value.0 == CleanRemove(t, OutputOf(d.info))
  {
    if !Dispatchable(env, d) then Failure(Error(PlainError, MissingActionMessage(d.action)))
    else
      var a := ActionNamed(d.action).value;
      var line := Line(TagOf(a, d.resolution), d.info.display);
      match a
      case Write =>
        var t' :- Save(t, dryRun, d.info);
        Success((t', line))
      case Overwrite =>
        var t' :- Save(t, dryRun, d.info);
        Success((t', line))
      case Skip => Success((t, line))
      case Edit => Success((t, line))
      case Remove => Success((if dryRun then t else CleanRemove(t, OutputOf(d.info)), line))
  }

  /** The decisions committed in order; the first failure stops the rest. */
  function CommitAll(env: Env, t: Tree, dryRun: bool, ds: seq<Decision>): (r: Result<(Tree, seq<LogLine>), Error>)
    ensures r.Success? ==> |r.value.1| == |ds|
    ensures r.Success? ==> forall i :: 0 <= i < |ds| ==> (Dispatchable(env, ds[i])
      && r.value.1[i] == Line(TagOf(ActionNamed(ds[i].action).value, ds[i].resolution), ds[i].info.display))
    ensures r.Success? && dryRun ==> r.value.0 == t
    decreases |ds|
  {
    if |ds| == 0 then Success((t, []))
    else
      var first :- Commit(env, t, dryRun, ds[0]);
      var rest :- CommitAll(env, first.0, dryRun, ds[1..]);
      Success((rest.0, [first.1] + rest.1))
  }

  /** `beforeInstall`'s directories, created one after another, dry run or not. */
  function MkdirsAll(t: Tree, dirs: seq<string>): (r: Result<Tree, Error>)
    ensures r.Success? ==> r.value.files == t.files && t.dirs <= r.value.dirs
    ensures r.Success? ==> forall i :: 0 <= i < |dirs| ==> Text.Split(dirs[i], '/') in r.value.dirs
    decreases |dirs|
  {
    if |dirs| == 0 then Success(t)
    else
      var p := Text.Split(dirs[0], '/');
      match Mkdirs(t, p)
      case Failure(e) => Failure(FsFailure(e))
      case Success(t1) =>
        assert p in t1.dirs && t.dirs <= t1.dirs;
        var t2 :- MkdirsAll(t1, dirs[1..]);
        assert forall i :: 1 <= i < |dirs| ==> dirs[1..][i - 1] == dirs[i];
        Success(t2)
  }

  // ---------------------------------------------------------------- install and uninstall

  /** What runs before the target directory is consulted: the normalized options, the locals,
      what `beforeInstall` does, and the outputs. */
  datatype Prepared = Prepared(options: Options, locals: Context.Locals, effect: HookEffect, plan: seq<FileInfo>)

  /** The locals of an installation: the blueprint's own locals hook, then the engine's. */
  function LocalsOf(env: Env, bp: Blueprint, options: Options): Result<Context.Locals, Error> {
    var custom :- bp.locals(options);
    var files := bp.files(options.project);
    Success(ResolveLocals(env.inf, LocalsInputs(bp.name, Some(HasPathToken(files)), bp.tokens), custom, options))
  }

  /**
    The part of `install` that does not depend on the target directory: the entity name is
    normalized first, the locals are computed from the normalized options, `beforeInstall`
    runs on them, and the outputs are planned from the locals it leaves.
  */
  function Prepare(env: Env, bp: Blueprint, options: Options): (r: Result<Prepared, Error>)
    ensures r.Success? ==> NormalizeOptionsOf(bp, options) == Success(r.value.options)
    ensures r.Success? ==> LocalsOf(env, bp, r.value.options) == Success(r.value.locals)
    ensures r.Success? ==> r.value.effect == bp.beforeInstall(r.value.options, r.value.locals)
    ensures NormalizeOptionsOf(bp, options).Failure? ==> r.Failure? && r.error == NormalizeOptionsOf(bp, options).error
  {
    var opts :- NormalizeOptionsOf(bp, options);
    var locals :- LocalsOf(env, bp, opts);
    var effect := bp.beforeInstall(opts, locals);
    var files := SelectFiles(bp.files(opts.project), opts.targetFiles);
    Success(Prepared(opts, locals, effect, PlanFiles(env, bp, effect.locals, opts.project, files)))
  }

  function NormalizeOptionsOf(bp: Blueprint, options: Options): Result<Options, Error> {
    EntityName.NormalizeOptions(bp.normalizeEntityName, options)
  }

  /** The result of an installation: the tree, the output lines, the number of prompts
      answered, and the package requests `afterInstall` made, innermost blueprint first. */
  datatype Outcome = Outcome(tree: Tree, log: seq<LogLine>, prompts: nat, requests: seq<seq<NpmPackage>>)

  /**
    `install(options)`. After `beforeInstall` has created its directories and installed the
    blueprint it delegates to (which sees the same normalized options and answers the first
    prompts), every output is confirmed, then every decision committed, then `afterInstall`
    runs. `fuel` bounds how deep blueprints may install one another.
  */
  function Install(env: Env, bp: Blueprint, options: Options, t: Tree, answers: seq<string>, fuel: nat): (r: Result<Outcome, Error>)
    ensures r.Success? ==> |r.value.log| > 0 && r.value.log[0] == Installing(bp.name)
    ensures r.Success? ==> r.value.prompts <= |answers|
    ensures r.Success? && options.dryRun ==> r.value.tree.files == t.files
    decreases fuel
  {
    var p :- Prepare(env, bp, options);
    var t1 :- MkdirsAll(t, p.effect.mkdirs);
    var pre :- Delegate(env, p, t1, answers, fuel);
    Complete(env, bp, p, pre, answers)
  }

  /**
    What follows `beforeInstall`: every output is confirmed against the tree the delegate
    left, with the answers it did not consume, then every decision is committed, then
    `afterInstall` runs; its lines follow the delegate's.
  */
  function Complete(env: Env, bp: Blueprint, p: Prepared, pre: Outcome, answers: seq<string>): (r: Result<Outcome, Error>)
    requires pre.prompts <= |answers|
    ensures r.Success? ==> |r.value.log| > 0 && r.value.log[0] == Installing(bp.name)
    ensures r.Success? ==> pre.prompts <= r.value.prompts <= |answers|
    ensures r.Success? && p.options.dryRun ==> r.value.tree == pre.tree
    ensures r.Success? ==> bp.afterInstall(p.options).Success?
  {
    var decided :- Decide(pre.tree, p.plan, answers[pre.prompts..]);
    var committed :- CommitAll(env, pre.tree, p.options.dryRun, decided.0);
    var request :- bp.afterInstall(p.options);
    var requests := pre.requests + (match request case Some(pkgs) => [pkgs] case None => []);
    Success(Outcome(committed.0, [Installing(bp.name)] + pre.log + committed.1, pre.prompts + decided.1, requests))
  }

  /** The blueprint `beforeInstall` installs first, if any: found through the registry and
      installed on the same normalized options. */
  function Delegate(env: Env, p: Prepared, t: Tree, answers: seq<string>, fuel: nat): (r: Result<Outcome, Error>)
    ensures p.effect.delegate.None? ==> r == Success(Outcome(t, [], 0, []))
    ensures r.Success? ==> r.value.prompts <= |answers|
    ensures r.Success? && p.options.dryRun ==> r.value.tree.files == t.files
    decreases fuel, 0
  {
    match p.effect.delegate
    case None => Success(Outcome(t, [], 0, []))
    case Some(ref) =>
      var found :- Find(env.registry, ref);
      match found
      case None => Failure(Error(TypeError, "Cannot read properties of undefined (reading 'install')"))
      case Some(other) =>
        if fuel == 0 then Failure(Error(TooDeep, other.name))
        else Install(env, other, p.options, t, answers, fuel - 1)
  }

  /**
    `uninstall(options)`: the entity name is normalized and the locals computed as for an
    install; every template output (`targetFiles` play no part) that exists as a file is
    removed, along with the folders its removal empties.
  */
  function Uninstall(env: Env, bp: Blueprint, options: Options, t: Tree): (r: Result<Outcome, Error>)
    ensures r.Success? ==> |r.value.log| > 0 && r.value.log[0] == Uninstalling(bp.name)
    ensures r.Success? && options.dryRun ==> r.value.tree == t
    ensures r.Success? ==> r.value.prompts == 0 && r.value.requests == []
  {
    var plan :- UninstallPlan(env, bp, options);
    var committed :- CommitAll(env, t, options.dryRun, Removals(t, plan));
    Success(Outcome(committed.0, [Uninstalling(bp.name)] + committed.1, 0, []))
  }

  /** The outputs `uninstall` considers: every template's, whatever `targetFiles` say. */
  function UninstallPlan(env: Env, bp: Blueprint, options: Options): (r: Result<seq<FileInfo>, Error>)
    ensures NormalizeOptionsOf(bp, options).Failure? ==> r.Failure?
    ensures r.Success? ==> forall info :: info in r.value ==> info.template in bp.files(options.project)
  {
    var opts :- NormalizeOptionsOf(bp, options);
    var locals :- LocalsOf(env, bp, opts);
    PlanFilesSpec(env, bp, locals, opts.project, bp.files(opts.project));
    Success(PlanFiles(env, bp, locals, opts.project, bp.files(opts.project)))
  }

  /** A `remove` decision for every planned output that exists as a file. */
  function Removals(t: Tree, plan: seq<FileInfo>): (r: seq<Decision>)
    ensures forall i :: 0 <= i < |r| ==> r[i].action == "remove" && r[i].info in plan && OutputOf(r[i].info) in t.files
    ensures forall info :: info in plan && OutputOf(info) in t.files ==> Decision(info, Confirm, "remove") in r
  {
    if |plan| == 0 then []
    else
      var rest := Removals(t, plan[1..]);
      InPlanCons(plan);
      if OutputOf(plan[0]) in t.files then [Decision(plan[0], Confirm, "remove")] + rest
      else rest
  }

  /** A member of a non-empty plan is its first entry or a member of the rest. */
  lemma InPlanCons(plan: seq<FileInfo>)
    requires |plan| > 0
    ensures forall info :: info in plan ==> info == plan[0] || info in plan[1..]
  {
    assert plan == [plan[0]] + plan[1..];
  }
}
