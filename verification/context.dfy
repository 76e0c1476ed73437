/**
  The data an installation works on: the entity being generated, the project, the option bag
  passed to `install`/`uninstall`, and the errors the engine raises.
*/
module Context {
  import opened Wrappers
  import opened JsValues

  /** `options.entity`; its `name` may be missing. */
  datatype Entity = Entity(name: Option<string>)

  /**
    The parts of the project the engine reads: its name, whether it is an addon, the pod
    module prefix of its configuration, the names of its dependencies, its parsed
    `package.json`, and whether it is an existing project being updated.
  */
  datatype Project = Project(
    name: string,
    isAddon: bool,
    podModulePrefix: Option<string>,
    dependencies: set<string>,
    pkg: JsValue,
    isUpdate: bool)

  /** The option bag of one `install`/`uninstall` call. `None` stands for an unset option;
      `inRepoAddon` may hold any value, `Undefined` when unset. */
  datatype Options = Options(
    entity: Option<Entity>,
    project: Project,
    dryRun: bool,
    pod: Option<bool>,
    dummy: bool,
    inRepoAddon: JsValue,
    originBlueprintName: Option<string>,
    targetFiles: seq<string>,
    args: seq<string>)

  /**
    `SilentError` is reported without a stack trace; `PlainError` and `TypeError` are ordinary
    exceptions. `Unanswered` stands for a conflict prompt that never gets an answer, and
    `TooDeep` for a chain of blueprints installing one another deeper than the model follows.
  */
  datatype ErrorKind = SilentError | PlainError | TypeError | Unanswered | TooDeep

  datatype Error = Error(kind: ErrorKind, message: string)

  /** The locals handed to templates: an object in insertion order. */
  type Locals = seq<(string, JsValue)>

  /** `options.entity && options.entity.name`, as a string when it is one. */
  function EntityName(options: Options): Option<string> {
    match options.entity
    case None => None
    case Some(e) => e.name
  }
}
