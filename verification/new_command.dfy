/**
  The `new` command's own decisions (`packages/cli/lib/commands/new.js`): which blueprint's
  options `beforeRun` merges in, and how `run` fills in and checks the options before it hands
  over to directory creation and `init`.
*/
module NewCommand {
  import opened Wrappers
  import opened Context
  import opened Blueprints
  import ValidProjectName
  import Text

  /**
    The command options `run` reads and writes. `None` stands for an option that is unset;
    `blueprint` can become unset when an interactive answer leaves it out.
  */
  datatype NewOptions = NewOptions(
    name: Option<string>,
    interactive: bool,
    blueprint: Option<string>,
    lang: Option<string>,
    yarn: Option<bool>,
    ciProvider: Option<string>,
    dryRun: bool,
    skipGit: bool,
    directory: Option<string>)

  /** The answers of the interactive prompt (the `InteractiveNew` task). */
  datatype Answers = Answers(
    blueprint: Option<string>,
    name: Option<string>,
    lang: Option<string>,
    packageManager: Option<string>,
    ciProvider: Option<string>)

  /** What `run` hands on once its checks pass: the options, the project name, and the raw
      arguments left after the name was taken off their head. */
  datatype Prepared = Prepared(options: NewOptions, projectName: string, rest: seq<string>)

  /**
    `beforeRun(rawArgs)`: with no arguments nothing happens; otherwise the blueprint named by
    the first argument is looked up so that its options can be registered. A lookup that fails
    with a `SilentError` is swallowed (`SilentError.debugOrThrow`), any other error is raised.
  */
  function BeforeRun(reg: Registry, rawArgs: seq<string>): (r: Result<Option<Blueprint>, Error>)
    ensures |rawArgs| == 0 ==> r == Success(None)
    ensures |rawArgs| > 0 && Lookup(reg, rawArgs[0], [], false).Success? ==> r == Lookup(reg, rawArgs[0], [], false)
    ensures r.Failure? ==> |rawArgs| > 0 && r == Lookup(reg, rawArgs[0], [], false) && r.error.kind != SilentError
  {
    if |rawArgs| == 0 then Success(None)
    else
      match Lookup(reg, rawArgs[0], [], false)
      case Success(b) => Success(b)
      case Failure(e) => if e.kind == SilentError then Success(None) else Failure(e)
  }

  /** The interactive step: `blueprint` always takes the answer; `name`, `lang` and
      `ciProvider` only when the answer is truthy; `yarn` records whether the chosen package
      manager is yarn, when one is chosen. Returns the options and the project name. */
  function Interact(o: NewOptions, projectName: Option<string>, a: Answers): (r: (NewOptions, Option<string>))
    ensures r.0.blueprint == a.blueprint
    ensures r.0.name == (if TruthyString(a.name) then a.name else o.name)
    ensures r.1 == (if TruthyString(a.name) then a.name else projectName)
    ensures r.0.lang == (if TruthyString(a.lang) then a.lang else o.lang)
    ensures r.0.yarn == (if TruthyString(a.packageManager) then Some(a.packageManager.value == "yarn") else o.yarn)
    ensures r.0.ciProvider == (if TruthyString(a.ciProvider) then a.ciProvider else o.ciProvider)
    ensures r.0.(blueprint := o.blueprint, name := o.name, lang := o.lang, yarn := o.yarn, ciProvider := o.ciProvider) == o
  {
    var asked := o.(
      blueprint := a.blueprint,
      name := if TruthyString(a.name) then a.name else o.name,
      lang := if TruthyString(a.lang) then a.lang else o.lang,
      yarn := if TruthyString(a.packageManager) then Some(a.packageManager.value == "yarn") else o.yarn,
      ciProvider := if TruthyString(a.ciProvider) then a.ciProvider else o.ciProvider);
    (asked, if TruthyString(a.name) then a.name else projectName)
  }

  /** The name a blueprint goes by in the `ember init` hint: `app` is called an application,
      and an unset blueprint prints as `undefined`. */
  function HintName(blueprint: Option<string>): (r: string)
    ensures blueprint == Some("app") ==> r == "application"
    ensures blueprint.Some? && blueprint.value != "app" ==> r == blueprint.value
  {
    match blueprint
    case Some(b) => if b == "app" then "application" else b
    case None => "undefined"
  }

  const InitPrefix: string := "Trying to generate an "
  const InitSuffix: string := " structure in this directory? Use `ember init` instead."
  const UnsupportedPrefix: string := "We currently do not support a name of `"

  function InitMessage(blueprint: Option<string>): string {
    InitPrefix + HintName(blueprint) + InitSuffix
  }

  function UnsupportedMessage(name: string): string {
    UnsupportedPrefix + name + "`."
  }

  /**
    `run(commandOptions, rawArgs)` up to the hand-over: the project name is the first raw
    argument, which is also taken off `rawArgs` into `name`; the prompt runs when that name
    is missing or empty or `interactive` is set; `ciProvider` defaults to `github`; a dry run
    skips git; then `.` and invalid names are rejected, in that order, and the blueprint
    option goes through `normalizeBlueprint`. A name still missing at the validity check makes
    `name.indexOf` throw a `TypeError`.
  */
  function Run(o: NewOptions, rawArgs: seq<string>, answers: Answers, normalizeBlueprint: Option<string> -> Option<string>): (r: Result<Prepared, Error>)
    ensures r.Success? ==> ValidProjectName.IsValidProjectName(r.value.projectName) && r.value.projectName != "."
    ensures r.Success? ==> r.value.options.skipGit == (o.skipGit || o.dryRun)
    ensures r.Success? ==> TruthyString(r.value.options.ciProvider)
    ensures r.Success? && |rawArgs| > 0 ==> r.value.rest == rawArgs[1..]
  {
    var head := if |rawArgs| > 0 then Some(rawArgs[0]) else None;
    var rest := if |rawArgs| > 0 then rawArgs[1..] else [];
    var taken := o.(name := head);
    var (asked, projectName) := if !TruthyString(head) || o.interactive then Interact(taken, head, answers) else (taken, head);
    var withCi := if TruthyString(asked.ciProvider) then asked else asked.(ciProvider := Some("github"));
    var checked := if withCi.dryRun then withCi.(skipGit := true) else withCi;
    if projectName == Some(".") then
      Failure(Error(SilentError, InitMessage(checked.blueprint)))
    else if projectName.None? then
      Failure(Error(TypeError, "Cannot read properties of undefined (reading 'indexOf')"))
    else if !ValidProjectName.IsValidProjectName(projectName.value) then
      Failure(Error(SilentError, UnsupportedMessage(projectName.value)))
    else
      Success(Prepared(checked.(blueprint := normalizeBlueprint(checked.blueprint)), projectName.value, rest))
  }

  /** Whether `run` prompts: the first raw argument is missing or empty, or `interactive` is
      set. */
  predicate Prompts(o: NewOptions, rawArgs: seq<string>) {
    |rawArgs| == 0 || rawArgs[0] == "" || o.interactive
  }

  /** With no raw arguments `beforeRun` does nothing. */
  lemma BeforeRunWithoutArguments(reg: Registry)
    ensures BeforeRun(reg, []) == Success(None)
  {
  }

  /** A missing blueprint never makes `beforeRun` throw: the lookup only fails silently. */
  lemma BeforeRunNeverThrows(reg: Registry, rawArgs: seq<string>)
    ensures BeforeRun(reg, rawArgs).Success?
  {
  }

  /** Outside interactive mode a valid first argument becomes both the project name and the
      `name` option, and the remaining arguments are what is left after it. */
  lemma NameTakenFromHead(o: NewOptions, rawArgs: seq<string>, answers: Answers, nb: Option<string> -> Option<string>)
    requires |rawArgs| > 0 && rawArgs[0] != "." && ValidProjectName.IsValidProjectName(rawArgs[0])
    requires !Prompts(o, rawArgs)
    ensures Run(o, rawArgs, answers, nb).Success?
    ensures Run(o, rawArgs, answers, nb).value.projectName == rawArgs[0]
    ensures Run(o, rawArgs, answers, nb).value.options.name == Some(rawArgs[0])
    ensures Run(o, rawArgs, answers, nb).value.rest == rawArgs[1..]
  {
  }

  /** Without the prompt, `ciProvider` keeps a truthy option and is `github` otherwise. */
  lemma CiProviderDefaults(o: NewOptions, rawArgs: seq<string>, answers: Answers, nb: Option<string> -> Option<string>)
    requires Run(o, rawArgs, answers, nb).Success?
    ensures !Prompts(o, rawArgs) ==>
      Run(o, rawArgs, answers, nb).value.options.ciProvider == (if TruthyString(o.ciProvider) then o.ciProvider else Some("github"))
  {
  }

  /** When the prompt runs, the blueprint is the answered one, whatever was passed. */
  lemma InteractiveBlueprint(o: NewOptions, rawArgs: seq<string>, answers: Answers, nb: Option<string> -> Option<string>)
    requires Prompts(o, rawArgs) && Run(o, rawArgs, answers, nb).Success?
    ensures Run(o, rawArgs, answers, nb).value.options.blueprint == nb(answers.blueprint)
  {
  }

  /** `.` is refused with the hint to use `ember init`, even though `.` is also an invalid
      name: the `.` check comes first. */
  lemma DotGetsInitHint(o: NewOptions, rest: seq<string>, answers: Answers, nb: Option<string> -> Option<string>)
    requires !o.interactive
    ensures !ValidProjectName.IsValidProjectName(".")
    ensures Run(o, ["."] + rest, answers, nb) == Failure(Error(SilentError, InitMessage(o.blueprint)))
  {
    assert (["."] + rest)[0] == ".";
  }

  /** Every other invalid name is refused with the unsupported-name message. */
  lemma InvalidNameRejected(o: NewOptions, name: string, rest: seq<string>, answers: Answers, nb: Option<string> -> Option<string>)
    requires !o.interactive && name != "" && name != "." && !ValidProjectName.IsValidProjectName(name)
    ensures Run(o, [name] + rest, answers, nb) == Failure(Error(SilentError, UnsupportedMessage(name)))
  {
    assert ([name] + rest)[0] == name;
  }

  /** With no name on the command line and none answered, the validity check throws. */
  lemma MissingNameThrows(o: NewOptions, answers: Answers, nb: Option<string> -> Option<string>)
    requires !TruthyString(answers.name)
    ensures Run(o, [], answers, nb).Failure? && Run(o, [], answers, nb).error.kind == TypeError
  {
  }

  /** An empty first argument prompts, and an answered name replaces it. */
  lemma EmptyNamePrompts(o: NewOptions, rest: seq<string>, answers: Answers, nb: Option<string> -> Option<string>)
    requires TruthyString(answers.name) && answers.name.value != "." && ValidProjectName.IsValidProjectName(answers.name.value)
    ensures Run(o, [""] + rest, answers, nb).Success?
    ensures Run(o, [""] + rest, answers, nb).value.projectName == answers.name.value
    ensures Run(o, [""] + rest, answers, nb).value.rest == rest
  {
    assert (["" ] + rest)[0] == "" && (["" ] + rest)[1..] == rest;
  }
}
