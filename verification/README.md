# layer-gen blueprint core, modelled in Dafny

layer-gen generates files from *blueprints*, which are directories of templates plus an
`index.js` of hooks. It descends from ember-cli's generator. This project models its core:

- **The blueprint engine.** It covers:
  - file-map tokens (`__name__`, `__path__`, `__root__`, `__test__`) and the default `mapFile`;
  - locals and entity-name normalisation;
  - blueprint lookup;
  - `install`, with its confirmation pass (`create` / `identical` / conflict prompts) and the
    actions that follow it;
  - `uninstall`, and `cleanRemove` with its pruning of emptied folders;
  - the npm, bower and addon package descriptors a blueprint hands to its tasks.
- **The addon model.** It covers:
  - the constructor checks;
  - `resolvePath` / `main` entry handling;
  - `_fileSystemInfo`;
  - `hintingEnabled` and `isDevelopingAddon`.
- **The `new` command.** It covers `beforeRun` and how `run` fills in and checks its options
  before it hands over.
- **`blueprintSearch`.** It collects the blueprints declared by a project's dependencies.
- **Concrete blueprints:**
  - `addon` (its package.json rewrite, file mapper, files and locals);
  - `lib`;
  - `server`;
  - both `http-mock` blueprints;
  - both `http-proxy` blueprints.
- **The utilities** `isPackageMissing` and `isValidProjectName`.

Everything is pure. The file system is a value `Tree`, made of a map from paths (sequences of
segments) to contents plus a set of directories. Prompts are a sequence of answers, and the
casing helpers are a record of functions (`Inflector`). The package manager, the process
environment and the module resolver are parameters. JavaScript objects with key order are
association lists (`Assoc`). Thrown exceptions and rejected promises are `Failure(Error(kind,
message))` values of a `Result`.

`lib/models/blueprint.js` and `lib/models/addon.js` are not part of this model. The engine and
the addon model are written against the behaviour their test suites assert:
`tests/integration/models/blueprint-test.js`, `tests/unit/models/addon-test.js` and
`tests/integration/utilities/clean-remove-test.js`. The README rows below cite those tests.

Modules, one per file: `Wrappers`, `Text`, `Assoc`, `JsValues`, `Context`, `Inflector`,
`FileTree`, `FileMap`, `Locals`, `EntityName`, `Blueprints`, `Engine` (install.dfy),
`InstallProperties` (install_props.dfy), `Packages`, `PackageMissing`, `ValidProjectName`,
`BlueprintSearch`, `NewCommand`, `AddonBlueprint`, `AddonModel`, `LibBlueprint`,
`ServerBlueprints`.

## Model

| member | source | states |
|---|---|---|
| ValidProjectName.IsValidProjectName | lib/utilities/valid-project-name.js:3-8 | a name is valid exactly when it is none of `test`, `ember`, `vendor` and holds no dot |
| ValidProjectName.DotsRejectedEmptyAccepted | lib/utilities/valid-project-name.js:3-8 | every name containing `.` (the lone `.` included) is rejected, while the empty name is accepted |
| PackageMissing.IsPackageMissing | packages/cli/lib/utilities/is-package-missing.js:14-19 | a package is missing exactly when neither `devDependencies[name]` nor `dependencies[name]` is truthy; an `undefined` or `null` manifest makes the property read fail |
| PackageMissing.PresentInDevDependencies | packages/cli/lib/utilities/is-package-missing.js:14-19 | a non-empty version under `devDependencies` makes the package present, whatever else the manifest holds |
| PackageMissing.PresentInDependencies | packages/cli/lib/utilities/is-package-missing.js:14-19 | a non-empty version under `dependencies` makes the package present, whatever else the manifest holds |
| PackageMissing.MissingWithoutDependencyMaps | packages/cli/lib/utilities/is-package-missing.js:14-19 | a manifest with neither dependency map misses every package |
| PackageMissing.EmptyVersionCountsAsMissing | packages/cli/lib/utilities/is-package-missing.js:14-19 | an entry whose version is the empty string is falsy, so the package counts as missing |
| BlueprintSearch.Search | lib/blueprint-search.js:11-40 | the search yields nothing (the promise rejects) exactly when the root manifest cannot be located or read, or parses to `null` or `undefined`; otherwise it is the scan over the parsed manifest |
| BlueprintSearch.ContributeSpec | lib/blueprint-search.js:26-33 | after one dependency's step, a blueprint it declares with a string path maps to that declaration, and every other blueprint keeps its earlier entry |
| BlueprintSearch.DeclaredUnderDependency | lib/blueprint-search.js:26-28 | a blueprint declared with a normalised relative path, with or without a leading `./`, is recorded at `<package directory>/<path>` |
| Text.Resolve | lib/blueprint-search.js:28 | `path.resolve` always yields a normalised absolute path |
| Text.ResolveNormal | lib/blueprint-search.js:28 | a normalised relative path resolved against a normalised absolute directory is `<dir>/<path>` |
| Text.ResolveNormalAbsolute | lib/blueprint-search.js:28 | a normalised absolute path resolves to itself, whatever the directory |
| Text.ResolveDropsDot | lib/blueprint-search.js:28 | a leading `./` on a relative path changes nothing |
| Text.ResolveDotIsDir | lib/blueprint-search.js:28 | `.` resolves to a normalised absolute directory itself |
| Text.ResolveChild | lib/blueprint-search.js:28 | one plain segment resolves to that segment under the directory itself |
| BlueprintSearch.FoldLastWins | lib/blueprint-search.js:18-37 | the entry for a blueprint is the one declared by the last dependency in scan order that declares it |
| BlueprintSearch.FoldKeeps | lib/blueprint-search.js:18-37 | dependencies that declare nothing for a blueprint leave its entry unchanged |
| BlueprintSearch.FoldSkips | lib/blueprint-search.js:18-37 | a dependency whose step changes nothing can be dropped from the scan anywhere without changing the result |
| BlueprintSearch.ScanOrder | lib/blueprint-search.js:18 | the names visited are exactly the keys of `dependencies` and `devDependencies`, each visited once |
| BlueprintSearch.SearchKeys | lib/blueprint-search.js:18-37 | a blueprint name is in the result exactly when some resolvable dependency declares it with a string path |
| BlueprintSearch.LaterPackageWins | lib/blueprint-search.js:18-37 | when two dependencies declare the same blueprint, the one visited later decides its path |
| BlueprintSearch.UnresolvableSkipped | lib/blueprint-search.js:19-36 | a dependency that cannot be resolved or read is skipped and the scan continues with the next one |
| BlueprintSearch.NoBlueprintsKeyNoContribution | lib/blueprint-search.js:26 | a dependency whose manifest has no `blueprints` object contributes nothing |
| BlueprintSearch.RootBlueprintsIgnored | lib/blueprint-search.js:16-18 | the project's own `blueprints` key never affects the result; only its dependency maps do |
| BlueprintSearch.SameDependencyMaps | lib/blueprint-search.js:16-18 | two root manifests with the same dependency maps yield the same result |
| NewCommand.BeforeRun | packages/cli/lib/commands/new.js:52-64 | with no raw arguments nothing is looked up; a successful lookup of the first argument is returned; a failure is passed on only when it is not a SilentError |
| NewCommand.BeforeRunWithoutArguments | packages/cli/lib/commands/new.js:53-55 | empty raw arguments return without a lookup |
| NewCommand.BeforeRunNeverThrows | packages/cli/lib/commands/new.js:57-63 | a missing blueprint never makes `beforeRun` fail, because lookup only fails silently |
| NewCommand.Interact | packages/cli/lib/commands/new.js:72-93 | the answered blueprint always replaces the option; name, lang, package manager (as `yarn`) and ciProvider are taken only when answered truthy; nothing else changes |
| NewCommand.Run | packages/cli/lib/commands/new.js:66-116 | a successful run has a valid project name other than `.`, a truthy ciProvider, `skipGit` set whenever `dryRun` is, and the raw arguments after the first as the rest |
| NewCommand.NameTakenFromHead | packages/cli/lib/commands/new.js:67-70 | without a prompt, a valid first argument becomes both the project name and the `name` option, and the rest are the remaining arguments |
| NewCommand.CiProviderDefaults | packages/cli/lib/commands/new.js:95-97 | without a prompt, ciProvider keeps a truthy option and otherwise becomes `github` |
| NewCommand.InteractiveBlueprint | packages/cli/lib/commands/new.js:72-75 | when the prompt runs, the blueprint is the normalised answered one, whatever was passed on the command line |
| NewCommand.DotGetsInitHint | packages/cli/lib/commands/new.js:103-108 | `.` is refused with the `ember init` hint even though it is also an invalid name: that check comes first |
| NewCommand.InvalidNameRejected | packages/cli/lib/commands/new.js:110-114 | any other invalid non-empty name is refused with the unsupported-name SilentError |
| NewCommand.MissingNameThrows | packages/cli/lib/commands/new.js:67-110 | with no argument and no answered name, the validity check reads a property of `undefined` and fails with a TypeError |
| NewCommand.EmptyNamePrompts | packages/cli/lib/commands/new.js:72-80 | an empty first argument prompts, and a valid answered name becomes the project name |
| NewCommand.HintName | packages/cli/lib/commands/new.js:104 | `app` is called `application` in the hint, and any other blueprint goes by its own name |
| LibBlueprint.LibFiles | blueprints/lib/index.js:13-21 | `lib/.jshintrc` is a template exactly when there is a project depending on `ember-cli-jshint`; there are no other templates |
| LibBlueprint.LibNormalize | blueprints/lib/index.js:6 | the entity name comes back unchanged, a missing one included |
| LibBlueprint.LibBeforeInstall | blueprints/lib/index.js:8-11 | `beforeInstall` requests the `lib` directory and leaves the locals alone |
| LibBlueprint.Lib | blueprints/lib/index.js:5-22 | the `lib` blueprint is named after its directory, and its hooks are the three above |
| LibBlueprint.NoProjectNoFiles | blueprints/lib/index.js:17-21 | without a project `hasJSHint` is falsy and there are no templates |
| LibBlueprint.AnyNameAccepted | blueprints/lib/index.js:6 | entity-name normalisation never fails and leaves the options as they are |
| LibBlueprint.LibDirectoryRequested | blueprints/lib/index.js:8-11 | whatever the project, the directories requested before installation are exactly `lib` |
| LibBlueprint.LibDirectoryCreated | blueprints/lib/index.js:9-10 | creating `lib` succeeds exactly when no file named `lib` is in the way, and then `lib` is a directory, even with no template |
| ServerBlueprints.ServerNormalize | packages/cli/blueprints/server/index.js:9 | the server's `normalizeEntityName` returns nothing, whatever the name |
| ServerBlueprints.ServerAfterInstall | packages/cli/blueprints/server/index.js:11-29 | an `undefined` or `null` manifest fails; otherwise a list is requested exactly when not a dry run and something is missing; it holds `morgan` exactly when that is missing and `glob` exactly when that is missing, each at most once and nothing else, and with both `morgan` comes first |
| ServerBlueprints.MissingEither | packages/cli/blueprints/server/index.js:12-13 | both `isPackageMissing` calls fail together, with a TypeError, exactly when the manifest is `undefined` or `null`; otherwise they give the two answers |
| ServerBlueprints.ServerDropsEntityName | packages/cli/blueprints/server/index.js:9 | installing the server clears the entity name, so normalisation cannot fail |
| ServerBlueprints.ServerDryRunRequestsNothing | packages/cli/blueprints/server/index.js:26-28 | a dry run requests no packages, even when both are missing |
| ServerBlueprints.ServerRequestsBoth | packages/cli/blueprints/server/index.js:18-28 | a manifest without dependency maps requests `morgan@^1.3.2` and `glob@^4.0.5`, in that order |
| ServerBlueprints.EndpointPath | packages/cli/blueprints/http-mock/index.js:11-15 | the endpoint is the entity name when it starts with `/`, and `/` followed by the name otherwise; a missing entity or name is a TypeError |
| ServerBlueprints.LeadingSlashIgnored | packages/cli/blueprints/http-mock/index.js:13 | one leading slash in the name does not change the endpoint path |
| ServerBlueprints.MockLocals | packages/ember-cli-blueprints/blueprints/http-mock/index.js:12-16 | a mock's locals succeed exactly when the endpoint path does, and bind `path` to it |
| ServerBlueprints.ProxyUrl | blueprints/http-proxy/index.js:11-17 | the proxy URL is the third argument when there is one, and `undefined` otherwise |
| ServerBlueprints.ProxyLocals | packages/ember-cli-blueprints/blueprints/http-proxy/index.js:11-17 | a proxy's locals succeed exactly when the endpoint path does; `path` is the endpoint and `proxyUrl` the third argument or `undefined` |
| ServerBlueprints.ServerBeside | packages/ember-cli-blueprints/blueprints/http-mock/index.js:18-26 | the packaged blueprints name the server by a path whose last segment is `server`, inside the directory their own parent resolves to; for a normalised absolute parent that is `<parent>/server` |
| ServerBlueprints.MockAfterInstall | packages/cli/blueprints/http-mock/index.js:27-31 | a dry run requests nothing and does not read the manifest; otherwise `express@^4.8.5` is requested exactly when it is missing, and an `undefined` or `null` manifest fails |
| ServerBlueprints.HttpMock | packages/cli/blueprints/http-mock/index.js:6-32 | the mock is named after its directory, installs the server first with its locals unchanged, uses the mock's locals and afterInstall, and keeps the default entity-name check |
| ServerBlueprints.CliHttpMock | packages/cli/blueprints/http-mock/index.js:17-25 | the command-line package's mock names the server by the name `server` |
| ServerBlueprints.PackagedHttpMock | packages/ember-cli-blueprints/blueprints/http-mock/index.js:18-26 | the blueprint package's mock names the server by the path beside it |
| ServerBlueprints.HttpProxy | blueprints/http-proxy/index.js:29-33 | the proxy is named after its directory, installs the server first, uses the proxy's locals, and requests `http-proxy@^1.1.6` on every install, dry run or not |
| ServerBlueprints.AppHttpProxy | blueprints/http-proxy/index.js:19-27 | the application blueprints' proxy names the server by the name `server` |
| ServerBlueprints.PackagedHttpProxy | packages/ember-cli-blueprints/blueprints/http-proxy/index.js:19-27 | the blueprint package's proxy names the server by the path beside it |
| ServerBlueprints.DryRunRequests | packages/cli/blueprints/http-mock/index.js:27-31 | in a dry run a mock requests nothing, while a proxy still requests `http-proxy` |
| ServerBlueprints.DelegateInstalledFirst | packages/cli/blueprints/http-mock/index.js:17-25 | a blueprint that delegates to one the registry holds installs that one first, so the delegate's heading comes right after its own |
| ServerBlueprints.CompleteLogOrder | packages/cli/blueprints/http-mock/index.js:17-25 | after the blueprint's heading, the log goes on with the delegate's log |
| ServerBlueprints.ServerNotFound | packages/cli/blueprints/http-mock/index.js:18 | when the registry holds no `server`, the mock's install fails with the lookup's unknown-blueprint error |
| ServerBlueprints.DelegateNotFound | packages/cli/blueprints/http-mock/index.js:18 | installing a blueprint by a name that resolves to no registered path in any lookup directory fails with `Unknown blueprint: <name>` |
| AddonBlueprint.GeneratePackageJson | blueprints/addon/index.js:11-28 | the rewrite succeeds exactly when the keywords value (`keywords` or `[]`) accepts `ember-addon`, meaning it is an array or a string already containing it; otherwise the `indexOf`/`push` call fails with a TypeError |
| AddonBlueprint.GeneratePackageJsonSpec | blueprints/addon/index.js:15-25 | after a successful rewrite there is no `private`, `name` is the project's name, `keywords` holds the extended keywords, `ember-addon` holds the entry with `configPath`, and every untouched key keeps its value |
| AddonBlueprint.KeywordAdded | blueprints/addon/index.js:17-21 | an array of keywords ends up containing `ember-addon` and still contains every earlier keyword |
| AddonBlueprint.ConfigPathWithoutAddonEntry | blueprints/addon/index.js:23-25 | a missing or falsy `ember-addon` entry becomes `{ configPath: 'tests/dummy/config' }` |
| AddonBlueprint.GenerateIdempotent | blueprints/addon/index.js:11-28 | rewriting a manifest that was already rewritten changes nothing |
| AddonBlueprint.FileMapper | blueprints/addon/index.js:88-96 | the first rule of the file map, in key order, whose pattern matches decides the mapped path, its `:path` replaced through `replace`; a path no rule matches is returned as it is |
| AddonBlueprint.DollarPatternsExpanded | blueprints/addon/index.js:91 | the path is inserted as a `replace` replacement, so in `app/$c` the pattern `$&` becomes `:path`, `$'` nothing, `$$` one `$` and `` $` `` `tests/dummy/`; a `$` before any other character stays |
| AddonBlueprint.LineTerminatorNotAnyChar | blueprints/addon/index.js:79 | the `.` of `^.jshintrc` does not match a line feed, so `\njshintrc` matches no rule and keeps its place |
| AddonBlueprint.JshintrcUnderDummy | blueprints/addon/index.js:79 | `.jshintrc`, and any path `^.jshintrc` matches, goes under `tests/dummy/`, as written when it holds no `$` |
| AddonBlueprint.GitkeepStays | blueprints/addon/index.js:80 | `app/.gitkeep` stays where it is, although `^app.*` would move it |
| AddonBlueprint.AppConfigPublicUnderDummy | blueprints/addon/index.js:81-83 | apart from what `^app/.gitkeep` matches, anything under `app`, `config` or `public` goes under `tests/dummy/`, with its `$` patterns expanded, and as written when it holds no `$` |
| AddonBlueprint.AddonConfigMoved | blueprints/addon/index.js:85 | `addon-config/environment.js`, and any path that pattern matches, becomes `config/environment.js` |
| AddonBlueprint.AddonPathsKept | blueprints/addon/index.js:88-96 | the addon's own templates, such as `addon/…`, `index.js` or `package.json`, match no rule and keep their place |
| AddonBlueprint.Uniq | blueprints/addon/index.js:70 | `uniq` yields no element twice and holds exactly the elements of its input |
| AddonBlueprint.UniqExtends | blueprints/addon/index.js:70 | appending elements only appends to the result of `uniq` |
| AddonBlueprint.AddonFiles | blueprints/addon/index.js:60-71 | the templates are the app blueprint's followed by the addon's own, each exactly once |
| AddonBlueprint.AppFilesFirst | blueprints/addon/index.js:70 | without repetitions among them, the app blueprint's templates come first, in their own order |
| AddonBlueprint.AddonLocals | blueprints/addon/index.js:38-58 | `name` and `modulePrefix` are the dasherized `dummy` and `namespace` its classified form; the addon's names are the dasherized and classified entity name; `emberCLIVersion` is the package version; a missing entity or name is a TypeError |
| AddonBlueprint.AddonTableNames | blueprints/addon/index.js:49-52 | `name`, `modulePrefix` and `namespace` describe the dummy app |
| AddonBlueprint.AddonTableAddonNames | blueprints/addon/index.js:53-55 | `addonName`, `addonModulePrefix` and `addonNamespace` describe the addon |
| AddonBlueprint.Addon | blueprints/addon/index.js:8-106 | the `addon` blueprint is named after its directory; its templates are `AddonFiles`; a template is read from the addon's own files when there and from the app blueprint's otherwise; paths go through the file mapper; its locals are `AddonLocals` |
| AddonModel.NewAddon | tests/unit/models/addon-test.js:29-36 | construction succeeds exactly when `root` is a truthy string and `name` is a string; a falsy `root` is refused before `name` is looked at |
| AddonModel.RootCheckedFirst | tests/unit/models/addon-test.js:345-350 | with neither property given, the complaint is about `root` |
| AddonModel.ResolvePath | tests/unit/models/addon-test.js:150-201 | the result is always a normalised absolute path; a normalised absolute entry is taken as it is; with an empty addon path and a normalised relative entry it is `<cwd>/<entry>`; the entry gains `.js` when it has no extension |
| AddonModel.ResolvePathResolves | tests/unit/models/addon-test.js:150-201 | the entry is resolved against the addon's directory, which is the current directory when the addon path is empty and the addon path resolved against it otherwise |
| AddonModel.ResolvePathBasename | tests/unit/models/addon-test.js:150-201 | an entry of one plain segment is the last segment of the resolved path, after `.js` is added when it has no extension |
| AddonModel.ResolvePathAddsJs | tests/unit/models/addon-test.js:162-166 | `index` resolves to `index.js` |
| AddonModel.ResolvePathKeepsExtension | tests/unit/models/addon-test.js:168-178 | an entry with an extension (`index.js`, `index.coffee`) is kept as it is |
| AddonModel.ResolvePathUsesMain | tests/unit/models/addon-test.js:180-186 | without `ember-addon.main`, a relative `main` entry with an extension resolves to `<cwd>/<main>` |
| AddonModel.ResolvePathFallsBackToIndex | tests/unit/models/addon-test.js:188-200 | without either entry, or with empty ones, the entry resolves to `<cwd>/index.js` |
| AddonModel.WithExtensionIdempotent | tests/unit/models/addon-test.js:162-178 | adding the default extension gives a name with an extension, and adding it again changes nothing |
| AddonModel.FileSystemInfoOf | tests/unit/models/addon-test.js:643-764 | scripts are the `.js` files; templates are the `.hbs` files of the addon tree or of a separate templates tree; pod templates are `template.hbs` files outside `templates/` |
| AddonModel.SeparateTreeAppended | tests/unit/models/addon-test.js:657-680 | a separate templates tree counts as if its files were listed after the addon tree's, and it does not change whether there are scripts |
| AddonModel.PodTemplatesAreTemplates | tests/unit/models/addon-test.js:683-697 | every pod template is also a template |
| AddonModel.PodListing | tests/unit/models/addon-test.js:683-697 | a pod component directory has JavaScript, templates and pod templates |
| AddonModel.TemplatesDirectoryListing | tests/unit/models/addon-test.js:715-730 | a pod-like `template.hbs` under `templates/` is not a pod template |
| AddonModel.ScriptsOnlyListing | tests/unit/models/addon-test.js:732-747 | JavaScript without templates reports scripts only |
| AddonModel.TemplatesOnlyListing | tests/unit/models/addon-test.js:699-713 | templates under `templates/` only report templates and no pod templates or scripts |
| AddonModel.NeitherListing | tests/unit/models/addon-test.js:749-764 | a listing with neither reports neither |
| AddonModel.HintingEnabled | tests/unit/models/addon-test.js:407-505 | hinting is off exactly when `hinting` is `false`, or the environment is `production` with no test command set |
| AddonModel.HintingTable | tests/unit/models/addon-test.js:466-505 | the table of the unit test, row by row |
| AddonModel.OnlyFalseDisables | tests/unit/models/addon-test.js:466-505 | any `hinting` value that is not a boolean behaves like `true` |
| AddonModel.IsDevelopingAddon | tests/unit/models/addon-test.js:353-404 | an addon is being developed exactly when `EMBER_ADDON_ENV` is `development`, its parent is the project, and the project's name is the addon's; failing any one of the three gives false |
| AddonModel.DevelopingAddonCases | tests/unit/models/addon-test.js:381-403 | the four cases of the unit test |
| AddonModel.NotDevelopingOutsideDevelopment | tests/unit/models/addon-test.js:387-397 | with `EMBER_ADDON_ENV` unset or other than `development`, no addon is being developed, whatever its name, root or parent |
| AddonModel.NotDevelopingOtherAddon | tests/unit/models/addon-test.js:399-404 | an addon whose name differs from the project's is never the one being developed, whatever the environment |
| AddonModel.DevelopingIgnoresRoot | tests/unit/models/addon-test.js:353-404 | the addon's root plays no part: two addons with the same name get the same answer |
| EntityName.DefaultNormalize | tests/integration/models/blueprint-test.js:449-471 | a missing or empty name is a SilentError; a name ending in `/` or `\` is refused with a message suggesting the name without it; any other name passes unchanged |
| EntityName.DefaultNormalizeIdempotent | tests/integration/models/blueprint-test.js:449-464 | a name the default hook accepts is accepted again unchanged |
| EntityName.SuggestedNameAccepted | tests/integration/models/blueprint-test.js:449-464 | the suggested name for a single trailing slash is itself accepted |
| EntityName.TrailingSeparatorRejected | tests/integration/models/blueprint-test.js:450-458 | `foo/` and `foo\` are refused with the message suggesting `foo` |
| EntityName.PlainAndMissingNames | tests/integration/models/blueprint-test.js:460-471 | `foo` is accepted and a missing name is a SilentError |
| EntityName.NormalizeOptions | tests/integration/models/blueprint-test.js:481-508 | with an entity, its name is replaced by what the hook returns (or the hook's failure is returned); without one the options pass through |
| FileMap.PodPath | tests/integration/models/blueprint-test.js:1435-1447 | the pod path holds no `/` and ends `podModulePrefix`; it is the whole prefix when that has no `/`, and empty when no prefix is configured |
| FileMap.PodPathIsLastSegment | tests/integration/models/blueprint-test.js:1435-1447 | a prefix `dir/name` yields `name`, whatever `dir` is |
| FileMap.GenerateFileMapVariables | tests/integration/models/blueprint-test.js:1367-1484 | `inAddon` holds exactly when the project is an addon or `inRepoAddon` is truthy, whatever its type; dummy, in-repo addon and pod flags come from the options; the origin blueprint name falls back to the blueprint's; the pod path comes from `podModulePrefix`; the module name is dasherized |
| FileMap.StandardFileMap | tests/integration/models/blueprint-test.js:115-128 | the built-in tokens are `__name__`, `__path__`, `__root__`, `__test__`, in that order |
| FileMap.GenerateFileMap | tests/integration/models/blueprint-test.js:130-153 | the map binds exactly the built-in tokens and the blueprint's own; a token the blueprint defines takes its value, any other built-in token the built-in one, each evaluated on the same variables |
| FileMap.NoLocalsInFileMap | tests/integration/models/blueprint-test.js:130-153 | the file map does not depend on the locals carried in the variables |
| FileMap.TestTokenFollowsName | tests/integration/models/blueprint-test.js:115-128 | outside pod layout `__test__` is `__name__` followed by `-test` |
| FileMap.TestBlueprintSharesPath | tests/integration/models/blueprint-test.js:130-153 | outside pod layout `__path__` is the plural of the blueprint name (`test` gives `tests`) with its first `-test` cut off, so a `-test` blueprint shares the folder of the blueprint it tests |
| FileMap.GenerateFileMapExample | tests/integration/models/blueprint-test.js:130-153 | the file map of the test, token by token |
| FileMap.DefaultFileMapVariablesExample | tests/integration/models/blueprint-test.js:1402-1406 | the default variables of the test |
| FileMap.InRepoAddonFlagExample | tests/integration/models/blueprint-test.js:1464-1473 | `inRepoAddon: true` sets both `inAddon` and `inRepoAddon` to true |
| FileMap.FileMapOf | tests/integration/models/blueprint-test.js:1579-1591 | when `locals.fileMap` is an object the map has its keys; when it is missing or falsy the map is the single `__name__` token bound to `dasherizedModuleName` |
| FileMap.ReplaceTokensAbsent | tests/integration/models/blueprint-test.js:256-284 | a path mentioning no token of the map comes out unchanged |
| FileMap.MapRootAndName | tests/integration/models/blueprint-test.js:256-284 | with the four built-in tokens, `__root__/__name__<ext>` becomes `<root>/<name><ext>` |
| FileMap.MapFileInApp | tests/integration/models/blueprint-test.js:256-284 | in an application without pod layout, addon or dummy app, `__root__/__name__<ext>` lands in `app/` under the dasherized module name |
| Locals.StandardLocals | tests/integration/models/blueprint-test.js:1486-1577 | the standard locals have exactly the standard keys, in their declared order |
| Locals.StandardLocalsLookup | tests/integration/models/blueprint-test.js:1520-1526 | each standard key is bound to its variant: package name dasherized and classified; module name dasherized as given; module name classified, camelized and decamelized after its `/` become `-`; `fileMap` to the file map |
| Locals.ResolveLocals | tests/integration/models/blueprint-test.js:1486-1608 | `fileMap` always holds the computed file map; any other custom key keeps the custom value; non-standard keys come only from the custom locals; keys the custom locals lack take the standard value |
| Locals.FileMapRoundTrip | tests/integration/models/blueprint-test.js:1579-1591 | a stored file map reads back as the same map |
| Locals.MapFileUsesGeneratedMap | tests/integration/models/blueprint-test.js:1579-1591 | the default `mapFile` reads back exactly the file map the engine computed |
| Locals.CustomLocalsWin | tests/integration/models/blueprint-test.js:1593-1605 | a custom local is kept as the blueprint returned it |
| Locals.LocalsWithoutCustom | tests/integration/models/blueprint-test.js:1520-1577 | without custom locals each variant is derived from the module name (the entity name, or the project's name) and the project's name |
| Locals.DefaultLocalsExample | tests/integration/models/blueprint-test.js:1520-1526 | the default locals of the test, for `mock-project` |
| Locals.EntityLocalsExample | tests/integration/models/blueprint-test.js:1562-1577 | the locals of the test for the entity `foo` |
| Locals.DefaultLocalsKeys | tests/integration/models/blueprint-test.js:1520-1526 | the key order of the default locals object |
| Locals.ModuleName | tests/integration/models/blueprint-test.js:1520-1577 | the module name is the entity's name when that is a non-empty string, and the project's name otherwise |
| Blueprints.Lookup | tests/integration/models/blueprint-test.js:155-209 | the lookup fails exactly when missing blueprints are not ignored and no candidate (given paths first, then built-in ones) exists, and it then fails with `Unknown blueprint: <name>` |
| Blueprints.LookupFirstMatch | tests/integration/models/blueprint-test.js:165-185 | when the candidate at position i is the first that exists, the lookup loads exactly that one |
| Blueprints.CandidatesPrefix | tests/integration/models/blueprint-test.js:165-185 | every lookup directory up to the first empty one contributes a candidate |
| Blueprints.ProjectPathShadowsDefault | tests/integration/models/blueprint-test.js:165-185 | a blueprint in a path the caller gives shadows a built-in one of the same name |
| Blueprints.LookupByAbsolutePath | tests/integration/models/blueprint-test.js:156-163 | an absolute path is looked up after normalisation, and a normalised absolute path is found as itself |
| Blueprints.FoundBlueprintName | tests/integration/models/blueprint-test.js:216-219 | a blueprint found by name in a directory is named after its own directory, at the path that name resolves to there; in a normalised absolute directory that is `<dir>/<name>` |
| Blueprints.UnknownBlueprint | tests/integration/models/blueprint-test.js:196-208 | with nothing found the lookup fails naming the blueprint, or yields nothing when asked to ignore it |
| Blueprints.Load | tests/integration/models/blueprint-test.js:1315-1325 | a directory entry loads as the blueprint named after the last segment of its path; anything else loads as nothing |
| FileTree.WriteFile | tests/integration/utilities/clean-remove-test.js:38 | writing succeeds exactly when the path is not a directory and no file lies on its way; the file takes the contents, no other file changes, only ancestors of the path become directories, and the tree stays well formed |
| FileTree.Mkdirs | tests/integration/utilities/clean-remove-test.js:38 | creating succeeds exactly when no file is at or on the way to the path; afterwards the directories are the old ones plus the path and its ancestors, no file changes, and the tree stays well formed |
| FileTree.CleanRemoveSpec | tests/integration/utilities/clean-remove-test.js:33-78 | the file goes and no other file changes; a directory not above the file stays; one above it stays exactly when something remains under it once the file and its emptied ancestors are gone |
| FileTree.CleanRemoveValid | tests/integration/utilities/clean-remove-test.js:33-78 | removing a file keeps the tree well formed |
| FileTree.RemovesEmptyFolders | tests/integration/utilities/clean-remove-test.js:33-51 | removing the only file of `nested1/nested2` leaves nothing behind |
| FileTree.PreservesFilledFolders | tests/integration/utilities/clean-remove-test.js:53-78 | a sibling file keeps the shared folders, and only the removed file disappears |
| Engine.ActionNamed | tests/integration/models/blueprint-test.js:473-479 | an action name maps to the action of that name, and to none when no action has it |
| Engine.SelectFiles | tests/integration/models/blueprint-test.js:361-402 | `targetFiles` restrict the templates to those listed, and with none given all templates are kept |
| Engine.IgnoredNames | tests/integration/models/blueprint-test.js:404-447 | `ignoredFiles` are always ignored, and `ignoredUpdateFiles` only when the project already exists (an update) |
| Engine.PlanFilesSpec | tests/integration/models/blueprint-test.js:256-284 | every planned output comes from a listed template that produces one, and every such template is planned |
| Engine.Classify | tests/integration/models/blueprint-test.js:286-359 | an output is new when absent, identical when it holds the rendered contents, and a conflict otherwise |
| Engine.Ask | tests/integration/models/blueprint-test.js:320-359 | `diff` answers ask again, and the first other answer is taken |
| Engine.Decide | tests/integration/models/blueprint-test.js:286-359 | on success every output has a decision in plan order, no more answers are consumed than given, a new file is written, an identical one skipped, and a conflict takes an answer other than `diff`; the only failure is an unanswered prompt |
| Engine.Save | tests/integration/models/blueprint-test.js:256-284 | a dry run writes nothing; otherwise the output takes the rendered contents, and the save succeeds exactly when the write can |
| Engine.Commit | tests/integration/models/blueprint-test.js:473-479 | an action missing from the table fails with `Tried to call action "<name>" but it does not exist`; otherwise one log line is produced; write and overwrite save the output; skip and edit leave the tree; remove deletes and prunes; a dry run changes nothing |
| Engine.CommitAll | tests/integration/models/blueprint-test.js:256-359 | on success each decision was dispatchable and logged one line, in order, and a dry run leaves the tree alone |
| Engine.MkdirsAll | blueprints/lib/index.js:8-11 | after success every requested directory exists, no directory was lost, and no file changed |
| Engine.Prepare | tests/integration/models/blueprint-test.js:481-523 | the entity name is normalised first and its failure stops everything; the locals are computed from the normalised options; `beforeInstall` sees both |
| Engine.Install | tests/integration/models/blueprint-test.js:256-523 | the log opens with `installing <name>`; no more prompts are answered than answers given; a dry run changes no file |
| Engine.Complete | tests/integration/models/blueprint-test.js:256-523 | the log opens with `installing <name>`; prompts consumed only grow; `afterInstall` succeeded; a dry run leaves the tree as the delegate left it |
| Engine.Delegate | packages/cli/blueprints/http-mock/index.js:17-25 | without a delegate nothing happens; with one, no more answers are consumed than given and a dry run changes no file |
| Engine.Uninstall | tests/integration/models/blueprint-test.js:530-647 | the log opens with `uninstalling <name>`, nothing is asked or requested, and a dry run leaves the tree alone |
| Engine.UninstallPlan | tests/integration/models/blueprint-test.js:561-584 | a normalisation failure stops uninstalling, and every output considered comes from the blueprint's full template list |
| Engine.Removals | tests/integration/models/blueprint-test.js:561-603 | every decision is a `remove` of a planned output that exists as a file, and every planned output that exists as a file gets one |
| InstallProperties.DecideAnswersCount | tests/integration/models/blueprint-test.js:320-359 | with answers that never ask for a diff, the confirmation pass succeeds exactly when there are at least as many answers as conflicts, and then consumes exactly one answer per conflict |
| InstallProperties.DecideAnswersInOrder | tests/integration/models/blueprint-test.js:320-359 | with answers that never ask for a diff, the pass succeeds exactly when there are as many answers as conflicts, consumes one per conflict, and the conflict preceded by k others takes answer k |
| InstallProperties.DecideWithoutConflicts | tests/integration/models/blueprint-test.js:286-318 | without conflicts the confirmation pass succeeds and consumes no answer |
| InstallProperties.ConflictsSettledByAnswers | tests/integration/models/blueprint-test.js:320-359 | over existing outputs with enough skip/overwrite answers, one answer is consumed per conflict; the commit succeeds; no file appears or disappears; an output answered `overwrite` takes the new contents and every other keeps its own |
| InstallProperties.CommitMatchesExpected | tests/integration/models/blueprint-test.js:256-359 | a successful commit leaves the files as replaying the decisions one by one predicts, and keeps the tree well formed |
| InstallProperties.CommitOverExisting | tests/integration/models/blueprint-test.js:320-359 | writing over files that exist never fails in a well-formed tree and keeps the set of files |
| InstallProperties.CommitSkips | tests/integration/models/blueprint-test.js:404-447 | skipping everything leaves the tree alone |
| InstallProperties.NoConflictsWhenFresh | tests/integration/models/blueprint-test.js:256-284 | outputs absent from the tree never conflict |
| InstallProperties.NoConflictsWhenIdentical | tests/integration/models/blueprint-test.js:286-318 | outputs holding the rendered contents never conflict |
| InstallProperties.CompleteFresh | tests/integration/models/blueprint-test.js:256-284 | into a fresh tree every output is written, one `create` line each, and nothing asked |
| InstallProperties.CompleteIdentical | tests/integration/models/blueprint-test.js:286-318 | over identical outputs everything is skipped with an `identical` line |
| InstallProperties.FreshInstall | tests/integration/models/blueprint-test.js:256-284 | installing into a tree holding none of the outputs asks nothing, logs `create` for each output in order, and leaves each output holding its contents |
| InstallProperties.ReinstallIsIdentical | tests/integration/models/blueprint-test.js:286-318 | installing the same blueprint again into the tree a fresh install left asks nothing, logs `identical` for every output and changes nothing |
| InstallProperties.InstallSelfContained | tests/integration/models/blueprint-test.js:510-523 | for a blueprint that neither creates directories nor delegates, install is the completion over the given tree |
| InstallProperties.CommitRemovals | tests/integration/models/blueprint-test.js:561-603 | removals never fail and delete exactly their outputs |
| InstallProperties.RemovalsCoverPlan | tests/integration/models/blueprint-test.js:561-584 | removing the chosen outputs deletes exactly the plan's outputs that exist |
| InstallProperties.UninstallRemovesOutputs | tests/integration/models/blueprint-test.js:561-603 | outside a dry run, uninstalling succeeds and the files left are exactly the files that are not outputs of the blueprint |
| InstallProperties.UninstallWithoutInstall | tests/integration/models/blueprint-test.js:525-528 | uninstalling from an empty tree succeeds and logs only its heading |
| InstallProperties.NormalizedNameReachesLocals | tests/integration/models/blueprint-test.js:481-508 | the options carry the normalised name, the `locals` hook receives them, and `dasherizedModuleName` is derived from the normalised name unless the hook sets it |
| InstallProperties.NormalizeFailureStopsInstall | tests/integration/models/blueprint-test.js:449-471 | a normalisation failure stops the installation before anything else |
| InstallProperties.MissingWriteAction | tests/integration/models/blueprint-test.js:473-479 | with an empty action table, installing a non-empty plan whose outputs are all new fails with the missing `write` message |
| Packages.NpmSpec | tests/integration/models/blueprint-test.js:683-820 | a descriptor is `name@target` with a non-empty target, and the bare name otherwise |
| Packages.NpmSpecRoundTrip | tests/integration/models/blueprint-test.js:683-820 | for a name and target without `@`, parsing a spec gives back the package, with an empty target read as none |
| Packages.CountLabel | tests/integration/models/blueprint-test.js:683-820 | one package is called a package and several are called packages |
| Packages.AddPackageToProject | tests/integration/models/blueprint-test.js:649-681 | a name and target become a one-element package list |
| Packages.SinglePackageInstalled | tests/integration/models/blueprint-test.js:666-680 | installing what `addPackageToProject(name, target)` returns hands `npm-install` exactly that package's spec, and the status line reads `install package` with its name |
| Packages.AddPackagesToProject | tests/integration/models/blueprint-test.js:683-820 | the `npm-install` task saves as a dev dependency, quietly, with each package's spec in order; the status names the count and lists the names |
| Packages.RemovePackagesFromProject | tests/integration/models/blueprint-test.js:857-977 | the `npm-uninstall` task gets each package's name in order; the status names the count and lists the names |
| Packages.InstallAndRemoveNameAlike | tests/integration/models/blueprint-test.js:683-977 | installing and removing the same packages name them identically on the status line |
| Packages.Decompose | tests/integration/models/blueprint-test.js:1111-1134 | a decomposed endpoint has a valid name, a source without surrounding white space, and a target that is `*` or a trimmed non-wildcard; a malformed one fails with `Invalid endpoint: <endpoint>` |
| Packages.ComposeDecompose | tests/integration/models/blueprint-test.js:1111-1134 | decomposing a composed endpoint gives back its name, its source and its target trimmed and normalised |
| Packages.ComposeParts | tests/integration/models/blueprint-test.js:1111-1134 | composing writes `name=source` (or just the source when unnamed), followed by `#target` with the target trimmed unless it is a wildcard |
| Packages.JsonToDecomposed | tests/integration/models/blueprint-test.js:1111-1134 | a key that is empty once trimmed fails with `The key must be specified`; any other failure is `Invalid endpoint` naming the text built from the trimmed key and value |
| Packages.JsonIgnoresSurroundingSpace | tests/integration/models/blueprint-test.js:979-1043 | white space around the key or the value makes no difference |
| Packages.BlankKeyRejected | tests/integration/models/blueprint-test.js:979-1043 | a key of white space only is rejected with `The key must be specified` |
| Packages.DecomposeRejectsMultiline | tests/integration/models/blueprint-test.js:1111-1134 | an endpoint whose target spans lines is invalid |
| Packages.AddBowerPackageToProject | tests/integration/models/blueprint-test.js:979-1043 | a `#` in the name with a target given is a SilentError; otherwise the name and target are read like a `bower.json` entry |
| Packages.BowerNameOnly | tests/integration/models/blueprint-test.js:1003-1009 | a bare name is any version of that package |
| Packages.BowerVersion | tests/integration/models/blueprint-test.js:1011-1017 | a version target that is not a source pins that version, trimmed, with wildcards written `*` |
| Packages.BowerLocalName | tests/integration/models/blueprint-test.js:1019-1033 | a `source#version` target installs that source under the local name |
| Packages.BowerSourceTarget | tests/integration/models/blueprint-test.js:1019-1033 | a source-like target installs that source, any version |
| Packages.BowerSingleArgument | tests/integration/models/blueprint-test.js:1035-1043 | the deprecated `name#version` single argument means the same as the two arguments apart |
| Packages.AddBowerPackagesToProject | tests/integration/models/blueprint-test.js:1045-1152 | the `bower-install` task runs verbosely with each package's composed endpoint in order, and the status names the count |
| Packages.AddBowerPackagesPair | tests/integration/models/blueprint-test.js:1077-1092 | two packages give their two endpoints, in order |
| Packages.AddBowerPackagesTargets | tests/integration/models/blueprint-test.js:1094-1109 | targets that are not wildcards are appended after `#`; names and targets are written trimmed |
| Packages.AddBowerPackagesNamesExample | tests/integration/models/blueprint-test.js:1077-1092 | names stand in for missing sources, and wildcard targets are dropped |
| Packages.BowerUrlExample | tests/integration/models/blueprint-test.js:1111-1134 | a URL target is taken as the source, any version |
| Packages.AddonSpec | tests/integration/models/blueprint-test.js:1188-1313 | a descriptor becomes `name@target`, or its name, and a string is passed through |
| Packages.AddAddonToProject | tests/integration/models/blueprint-test.js:1154-1186 | a single addon, string or descriptor, becomes the one-element list holding it |
| Packages.SingleAddonInstalled | tests/integration/models/blueprint-test.js:1170-1185 | installing what `addAddonToProject(addon)` returns hands the addon-install task exactly that addon's spec with the extra arguments and blueprint options, and the status line reads `install addon` with the spec |
| Packages.AddAddonsToProject | tests/integration/models/blueprint-test.js:1188-1313 | the addon-install task gets each addon's spec in order, the extra arguments and the blueprint options unchanged, and the status names the count and lists the specs |
| Packages.ParsedAddonOptionsExample | tests/integration/models/blueprint-test.js:1236-1263 | a descriptor, a bare name and a spec with extra arguments `['baz']` and blueprint options `'-foo'` reach the task as `foo-bar@1.0.0`, `stuff-things`, `baz-bat@0.0.1`, `['baz']` and `'-foo'` |
| Packages.AddonDescriptorAsString | tests/integration/models/blueprint-test.js:1188-1313 | a descriptor and the string of its spec install the same thing |

## Left out

- Template rendering (lodash templates), reading files from disk, console output and colours are not modelled. A template's rendered contents are a function of the blueprint's `source`, and the log is a sequence of tagged lines.
- Prompts are a finite sequence of answers. A conflict with no answer left fails with `Unanswered`; the process would wait instead.
- Glob patterns in `targetFiles`, and regular expressions in general, are not modelled: `targetFiles` match template paths exactly, and the addon file map's patterns are anchored prefixes in which `.` matches any character except the line terminators `\n`, `\r`, U+2028 and U+2029, optionally followed by `.*`, the only forms it uses.
- Paths are POSIX, with `/` as the only separator. `path.resolve` drops empty and `.` segments and lets `..` climb, stopping at the root; a relative starting directory is walked from the root instead of from the process's current directory, since every directory the engine passes is absolute.
- A failed installation leaves whatever tree its earlier steps produced. Only the successful tree and the error are modelled; the partly written tree is not.
- Engine.Install: a chain of blueprints installing one another is followed at most `fuel` levels deep, after which it fails with `TooDeep`. The source has no such bound.
- `beforeUninstall` and `afterUninstall` hooks, the dry-run notice, and the `abort` and `overwrite all` prompt choices are not modelled. The `edit` action is modelled as leaving the file alone, because opening an editor is I/O.
- Packages.NpmSpecRoundTrip: scoped names (`@scope/name`) are left out, because their leading `@` makes the name and target split differently.
- `files()` memoisation (`this._files`) and the addon `afterInstall` that deletes the generated `package.json` are left out, because they only affect later calls on the same object and the file system.
- The addon `srcPath` is modelled as a choice between the addon's files and the app blueprint's; `path.resolve` arithmetic on absolute paths is not.
- Exact JavaScript TypeError messages are approximated by one fixed message per kind.
- The `pkg` manifest is an explicit parameter.
- lib/models/blueprint.js and lib/models/addon.js are not part of this model. Their behaviour is taken from the tests cited above.
- `for…in` over values that are not objects, and JavaScript's ordering of integer-like keys before other keys, are not modelled. Keys keep insertion order.
- BlueprintSearch.Search: the current directory and `require.resolve` are folded into a resolver parameter. The inner `try` also guards `resolve(...)`, which throws a TypeError for a declaration that is not a string; the model skips such an entry and goes on with the next one, as the `catch` does. Only the `console.log` in that `catch` is left out.
- NewCommand.Run: `normalizeBlueprint` is a parameter. The `InteractiveNew` task becomes its answers. `CreateAndStepIntoDirectory` and the `init` command that follow the checks are left out as I/O. `SilentError.debugOrThrow` is modelled as swallowing exactly the SilentErrors.
- AddonModel.NewAddon: a `root` that is truthy but not a string is refused with a TypeError, after the `name` check. No test cited covers this branch; the cited test only shows a missing `root` being refused. The branch stands for the path operations the constructor applies to `root`, and its message is approximated.
- FileMap.TestBlueprintSharesPath: the cut at `-test` comes from the `__path__` token of lib/models/blueprint.js, which is not part of this model. The cited test only shows a name without `-test` (`test` gives `tests`); no cited test pins the cut down.
- FileMap.ReplaceTokens: a token's value is inserted as written. The `replace` behind it in lib/models/blueprint.js, which is not part of this model, would also expand `$&`, `$$`, `` $` `` and `$'` in that value.
- Packages.AddAddonsToProject: the blueprint options are handed on as given, so a call without them hands on `Undefined`. No cited test shows what lib/models/blueprint.js, which is not part of this model, hands on in that case.
- FileMap.RootToken: a truthy `inRepoAddon` that is not a string (such as `true`) is not modelled as the TypeError `path.join` would raise. Such a value falls through to the dummy-app and addon choices, and only a non-empty string names `lib/<addon>/addon`. That path is built by concatenation, without the normalisation `path.join` applies, so `foo/` gives `lib/foo//addon` where `path.join` gives `lib/foo/addon`.
- The bower-endpoint-parser library is not part of this model. `Packages.Decompose`, `Packages.Compose` and `Packages.JsonToDecomposed` follow its `decompose`, `compose` and `json2decomposed` functions as the bower tests cited above use them.
- Packages.JsonToDecomposed: trimming follows `String.prototype.trim` over the characters of the WhiteSpace and LineTerminator productions of ECMA-262; the `EINVEND` error code is not modelled.
- AddonModel.ResolvePath: edge cases of `path.extname` such as a trailing separator (`index.js/`, whose extension `path.extname` still finds) are not modelled. The `_shouldCompileTemplates` logic is left out.
- The build pipeline, `bin/`, `lib/generateFromBlueprint.mjs` and `packages/cli/blueprints/lib` are callers or copies of the modelled core, and are left out.
- Packages.ComposeParts: the jquery and backbone endpoints of the bower test are covered by the general composition lemma rather than restated literally.
- FileMap.MapRootAndName: stated only for names, roots and extensions without `_`, and names and extensions without `p`. Those characters could start another token's text, and ruling them out keeps the token-by-token replacement proof local.
- FileMap.MapFileInApp: the same restriction on the dasherized module name and the extension.
- InstallProperties.FreshInstall: stated for blueprints whose `beforeInstall` neither creates directories nor installs another blueprint. Those two steps are covered separately by `Engine.MkdirsAll` and `Engine.Delegate`.
- InstallProperties.ReinstallIsIdentical: the same restriction as `FreshInstall`.
- AddonBlueprint.AddonPathsKept: stated for paths recognised by their first characters (`i…`, `a…` other than `ap…` and `addon-…`, `p…` other than `pu…`), not for every path the rules miss. `UnmatchedPathKept` covers the general case.
- Engine.UninstallPlan: it does not state that `targetFiles` play no part. A blueprint's own `locals` hook receives the whole options object and may read them.
