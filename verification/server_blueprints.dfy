/**
  The `server` blueprint and the `http-mock` and `http-proxy` blueprints that install it
  first. The server asks for `morgan` and `glob` when the package manifest lacks them, a mock
  for `express`, a proxy always for `http-proxy`. Each mock and proxy exists in two variants
  that differ only in how they name the server: by name through the lookup paths, or by the
  directory beside their own.
*/
module ServerBlueprints {
  import opened Wrappers
  import opened JsValues
  import Assoc
  import opened Context
  import opened Packages
  import opened Blueprints
  import opened PackageMissing
  import opened FileTree
  import opened Engine
  import EntityName
  import Text

  const Morgan: NpmPackage := NpmPackage("morgan", Some("^1.3.2"))
  const Glob: NpmPackage := NpmPackage("glob", Some("^4.0.5"))
  const Express: NpmPackage := NpmPackage("express", Some("^4.8.5"))
  const HttpProxyPackage: NpmPackage := NpmPackage("http-proxy", Some("^1.1.6"))

  /** `isPackageMissing(this, name)` against the blueprint's manifest `pkg`, its `TypeError`
      carried as an installation error. */
  function Missing(pkg: JsValue, name: string): (r: Result<bool, Error>)
    ensures r.Failure? <==> pkg.Undefined? || pkg.Null?
    ensures r.Failure? ==> r.error.kind == TypeError
    ensures r.Success? ==> IsPackageMissing(pkg, name) == Success(r.value)
  {
    match IsPackageMissing(pkg, name)
    case Success(b) => Success(b)
    case Failure(msg) => Failure(Error(TypeError, msg))
  }

  /** Two `isPackageMissing` calls in a row: the first throws exactly when the second would. */
  function MissingEither(pkg: JsValue, a: string, b: string): (r: Result<(bool, bool), Error>)
    ensures r.Failure? <==> pkg.Undefined? || pkg.Null?
    ensures r.Failure? ==> r.error.kind == TypeError
    ensures r.Success? ==> IsPackageMissing(pkg, a) == Success(r.value.0) && IsPackageMissing(pkg, b) == Success(r.value.1)
  {
    match IsPackageMissing(pkg, a)
    case Failure(msg) => Failure(Error(TypeError, msg))
    case Success(x) => Success((x, IsPackageMissing(pkg, b).value))
  }

  // ---------------------------------------------------------------- server

  /** The server's `normalizeEntityName` returns nothing, whatever the name. */
  function ServerNormalize(name: Option<string>): (r: Result<Option<string>, Error>)
    ensures r.Success? && r.value.None?
  {
    Success(None)
  }

  /**
    The server's `afterInstall`: both packages are checked (even in a dry run), `morgan`
    then `glob` is listed when missing, and the list is requested only outside a dry run and
    only when something is missing.
  */
  function ServerAfterInstall(pkg: JsValue, options: Options): (r: Result<Option<seq<NpmPackage>>, Error>)
    ensures r.Failure? <==> pkg.Undefined? || pkg.Null?
    ensures r.Success? ==>
      var morgan := IsPackageMissing(pkg, "morgan").value;
      var glob := IsPackageMissing(pkg, "glob").value;
      && (r.value.Some? <==> !options.dryRun && (morgan || glob))
      && (r.value.Some? ==>
            && (Morgan in r.value.value <==> morgan)
            && (Glob in r.value.value <==> glob)
            && (forall p :: p in r.value.value ==> p == Morgan || p == Glob)
            && |r.value.value| == (if morgan then 1 else 0) + (if glob then 1 else 0)
            && (|r.value.value| == 2 ==> r.value.value == [Morgan, Glob]))
  {
    var missing :- MissingEither(pkg, "morgan", "glob");
    var (morgan, glob) := missing;
    var libs := (if morgan then [Morgan] else []) + (if glob then [Glob] else []);
    if !options.dryRun && (morgan || glob) then Success(Some(libs)) else Success(None)
  }

  /** The `server` blueprint at `path`, reading its manifest from `pkg`. */
  function Server(path: string, files: Project -> seq<string>, source: string -> string, pkg: JsValue): (b: Blueprint)
    ensures b.name == Text.Basename(path) && b.path == path
    ensures forall n :: b.normalizeEntityName(n) == ServerNormalize(n)
    ensures forall o :: b.afterInstall(o) == ServerAfterInstall(pkg, o)
    ensures forall o, l :: b.beforeInstall(o, l) == NoEffect(o, l)
  {
    Blueprint(Text.Basename(path), path, files, source, ServerNormalize,
      (o: Options) => Success([]), [], (f: string) => f, NoEffect,
      (o: Options) => ServerAfterInstall(pkg, o), ["name"])
  }

  /** Installing the server drops the entity name, so nothing about it can fail. */
  lemma ServerDropsEntityName(path: string, files: Project -> seq<string>, source: string -> string, pkg: JsValue, options: Options)
    requires options.entity.Some?
    ensures NormalizeOptionsOf(Server(path, files, source, pkg), options) == Success(options.(entity := Some(Entity(None))))
  {
  }

  /** A dry run never requests packages, even when both are missing. */
  lemma ServerDryRunRequestsNothing(pkg: JsValue, options: Options)
    requires options.dryRun && pkg.Obj?
    ensures ServerAfterInstall(pkg, options) == Success(None)
  {
  }

  /** A manifest without dependency maps misses both packages: both are requested, in order. */
  lemma ServerRequestsBoth(fields: seq<(string, JsValue)>, options: Options)
    requires !options.dryRun
    requires Assoc.Lookup(fields, "devDependencies").None? && Assoc.Lookup(fields, "dependencies").None?
    ensures ServerAfterInstall(Obj(fields), options) == Success(Some([Morgan, Glob]))
  {
    MissingWithoutDependencyMaps(fields, "morgan");
    MissingWithoutDependencyMaps(fields, "glob");
  }

  // ---------------------------------------------------------------- http-mock and http-proxy

  /** `'/' + options.entity.name.replace(/^\//, '')`; a missing entity or name throws. */
  function EndpointPath(options: Options): (r: Result<string, Error>)
    ensures r.Failure? <==> Context.EntityName(options).None?
    ensures r.Failure? ==> r.error.kind == TypeError
    ensures r.Success? ==> Text.StartsWith(r.value, "/")
    ensures r.Success? ==>
      var n := Context.EntityName(options).value;
      r.value == if Text.StartsWith(n, "/") then n else "/" + n
  {
    match options.entity
    case None => Failure(Error(TypeError, "Cannot read properties of undefined (reading 'name')"))
    case Some(e) =>
      match e.name
      case None => Failure(Error(TypeError, "Cannot read properties of undefined (reading 'replace')"))
      case Some(n) =>
        var stripped := if Text.StartsWith(n, "/") then n[1..] else n;
        assert Text.StartsWith(n, "/") ==> n == "/" + stripped;
        Success("/" + stripped)
  }

  /** One leading slash in the name makes no difference. */
  lemma LeadingSlashIgnored(options: Options, n: string)
    requires options.entity == Some(Entity(Some(n))) && !Text.StartsWith(n, "/")
    ensures EndpointPath(options.(entity := Some(Entity(Some("/" + n))))) == EndpointPath(options)
  {
    assert Text.StartsWith("/" + n, "/");
  }

  /** A mock's locals: the endpoint path. */
  function MockLocals(options: Options): (r: Result<Context.Locals, Error>)
    ensures r.Success? <==> EndpointPath(options).Success?
    ensures r.Success? ==> Assoc.Lookup(r.value, "path") == Some(Str(EndpointPath(options).value))
  {
    var p :- EndpointPath(options);
    Success([("path", Str(p))])
  }

  /** `options.args[2]`: the remote URL when three arguments were given, `undefined` otherwise. */
  function ProxyUrl(args: seq<string>): (r: JsValue)
    ensures r.Str? <==> |args| > 2
    ensures r.Str? ==> r.s == args[2]
    ensures !r.Str? ==> r.Undefined?
  {
    if |args| > 2 then Str(args[2]) else Undefined
  }

  /** A proxy's locals: the endpoint path and the remote URL (present as a key even when
      `undefined`). */
  function ProxyLocals(options: Options): (r: Result<Context.Locals, Error>)
    ensures r.Success? <==> EndpointPath(options).Success?
    ensures r.Success? ==> Assoc.Lookup(r.value, "path") == Some(Str(EndpointPath(options).value))
    ensures r.Success? ==> Assoc.Lookup(r.value, "proxyUrl") == Some(ProxyUrl(options.args))
  {
    var p :- EndpointPath(options);
    Success([("path", Str(p)), ("proxyUrl", ProxyUrl(options.args))])
  }

  /** `beforeInstall` of a mock or proxy: install the server first, on the same options. */
  function InstallServerFirst(server: Ref): (Options, Context.Locals) -> HookEffect {
    (o: Options, l: Context.Locals) => HookEffect(l, [], Some(server))
  }

  /** `path.resolve(path.join(__dirname, '../server'))`: the `server` directory beside the
      blueprint's own. */
  function ServerBeside(path: string): (r: Ref)
    ensures r.ByPath? && Text.Basename(r.path) == "server"
    ensures Text.Dirname(r.path) == Text.Resolve(Text.Dirname(path), ".")
    ensures Text.NormalAbsolute(Text.Dirname(path)) ==> r.path == Text.Under(Text.Dirname(path), "server")
  {
    var dir := Text.Dirname(path);
    ServerIsNormalSegment();
    Text.ResolveChild(dir, "server");
    Text.UnderParts(Text.Resolve(dir, "."), "server");
    if Text.NormalAbsolute(dir) then
      Text.ResolveDotIsDir(dir);
      ByPath(Text.Resolve(dir, "server"))
    else ByPath(Text.Resolve(dir, "server"))
  }

  /** `server` is a plain directory name. */
  lemma ServerIsNormalSegment()
    ensures Text.NormalSegment("server")
  {
    var s := "server";
    assert forall i :: 0 <= i < |s| ==> s[i] != '/';
  }

  /** A mock's `afterInstall`: outside a dry run, `express` is requested when missing; a dry
      run does not even consult the manifest. */
  function MockAfterInstall(pkg: JsValue, options: Options): (r: Result<Option<seq<NpmPackage>>, Error>)
    ensures options.dryRun ==> r == Success(None)
    ensures !options.dryRun ==> (r.Failure? <==> pkg.Undefined? || pkg.Null?)
    ensures r.Success? && !options.dryRun ==>
      (r.value.Some? <==> IsPackageMissing(pkg, "express") == Success(true))
    ensures r.Success? && r.value.Some? ==> r.value.value == [Express]
  {
    if options.dryRun then Success(None)
    else
      var missing :- Missing(pkg, "express");
      if missing then Success(Some([Express])) else Success(None)
  }

  /** The `http-mock` blueprint at `path`, naming the server through `server`. */
  function HttpMock(path: string, files: Project -> seq<string>, source: string -> string, pkg: JsValue, server: Ref): (b: Blueprint)
    ensures b.name == Text.Basename(path) && b.path == path
    ensures forall o :: b.locals(o) == MockLocals(o)
    ensures forall o, l :: b.beforeInstall(o, l) == HookEffect(l, [], Some(server))
    ensures forall o :: b.afterInstall(o) == MockAfterInstall(pkg, o)
    ensures forall n :: b.normalizeEntityName(n) == EntityName.DefaultNormalize(n)
    ensures b.anonymousOptions == ["endpoint-path"]
  {
    Blueprint(Text.Basename(path), path, files, source, EntityName.DefaultNormalize,
      MockLocals, [], (f: string) => f, InstallServerFirst(server),
      (o: Options) => MockAfterInstall(pkg, o), ["endpoint-path"])
  }

  /** The command-line package's `http-mock`: the server is looked up by name. */
  function CliHttpMock(path: string, files: Project -> seq<string>, source: string -> string, pkg: JsValue): (b: Blueprint)
    ensures forall o, l :: b.beforeInstall(o, l).delegate == Some(ByName("server"))
  {
    HttpMock(path, files, source, pkg, ByName("server"))
  }

  /** The blueprint package's `http-mock`: the server is the directory beside it. */
  function PackagedHttpMock(path: string, files: Project -> seq<string>, source: string -> string, pkg: JsValue): (b: Blueprint)
    ensures forall o, l :: b.beforeInstall(o, l).delegate == Some(ServerBeside(path))
  {
    HttpMock(path, files, source, pkg, ServerBeside(path))
  }

  /** The `http-proxy` blueprint at `path`: `http-proxy` is requested on every install. */
  function HttpProxy(path: string, files: Project -> seq<string>, source: string -> string, server: Ref): (b: Blueprint)
    ensures b.name == Text.Basename(path) && b.path == path
    ensures forall o :: b.locals(o) == ProxyLocals(o)
    ensures forall o, l :: b.beforeInstall(o, l) == HookEffect(l, [], Some(server))
    ensures forall o :: b.afterInstall(o) == Success(Some([HttpProxyPackage]))
    ensures b.anonymousOptions == ["local-path", "remote-url"]
  {
    Blueprint(Text.Basename(path), path, files, source, EntityName.DefaultNormalize,
      ProxyLocals, [], (f: string) => f, InstallServerFirst(server),
      (o: Options) => Success(Some([HttpProxyPackage])), ["local-path", "remote-url"])
  }

  /** The application blueprints' `http-proxy`: the server is looked up by name. */
  function AppHttpProxy(path: string, files: Project -> seq<string>, source: string -> string): (b: Blueprint)
    ensures forall o, l :: b.beforeInstall(o, l).delegate == Some(ByName("server"))
  {
    HttpProxy(path, files, source, ByName("server"))
  }

  /** The blueprint package's `http-proxy`: the server is the directory beside it. */
  function PackagedHttpProxy(path: string, files: Project -> seq<string>, source: string -> string): (b: Blueprint)
    ensures forall o, l :: b.beforeInstall(o, l).delegate == Some(ServerBeside(path))
  {
    HttpProxy(path, files, source, ServerBeside(path))
  }

  /** In a dry run a mock requests nothing while a proxy still requests `http-proxy`. */
  lemma DryRunRequests(path: string, files: Project -> seq<string>, source: string -> string, pkg: JsValue, server: Ref, options: Options)
    requires options.dryRun
    ensures HttpMock(path, files, source, pkg, server).afterInstall(options) == Success(None)
    ensures HttpProxy(path, files, source, server).afterInstall(options) == Success(Some([HttpProxyPackage]))
  {
  }

  // ---------------------------------------------------------------- installing the server first

  /** For a blueprint whose `beforeInstall` creates no directory, `install` is the delegate's
      installation followed by the completion over the tree it leaves. */
  lemma InstallThroughDelegate(env: Env, bp: Blueprint, options: Options, t: Tree, answers: seq<string>, fuel: nat)
    requires Prepare(env, bp, options).Success? && Prepare(env, bp, options).value.effect.mkdirs == []
    ensures var p := Prepare(env, bp, options).value;
      && (Delegate(env, p, t, answers, fuel).Failure? ==>
            Install(env, bp, options, t, answers, fuel) == Failure(Delegate(env, p, t, answers, fuel).error))
      && (Delegate(env, p, t, answers, fuel).Success? ==>
            Install(env, bp, options, t, answers, fuel) == Complete(env, bp, p, Delegate(env, p, t, answers, fuel).value, answers))
  {
    assert MkdirsAll(t, []) == Success(t);
  }

  /** The completion's log opens with the blueprint's line, then the delegate's lines. */
  lemma CompleteLogOrder(env: Env, bp: Blueprint, p: Prepared, pre: Outcome, answers: seq<string>)
    requires pre.prompts <= |answers| && |pre.log| > 0
    requires Complete(env, bp, p, pre, answers).Success?
    ensures var log := Complete(env, bp, p, pre, answers).value.log;
      |log| >= 2 && log[0] == Installing(bp.name) && log[1] == pre.log[0]
  {
  }

  /**
    A blueprint whose `beforeInstall` names a blueprint the registry holds installs that one
    first: the second log line is the delegate's.
  */
  lemma DelegateInstalledFirst(env: Env, bp: Blueprint, server: Ref, s: Blueprint, options: Options, t: Tree,
                               answers: seq<string>, fuel: nat)
    requires forall o, l :: bp.beforeInstall(o, l) == HookEffect(l, [], Some(server))
    requires Find(env.registry, server) == Success(Some(s))
    requires Install(env, bp, options, t, answers, fuel).Success?
    ensures fuel > 0
    ensures var r := Install(env, bp, options, t, answers, fuel).value;
      |r.log| >= 2 && r.log[0] == Installing(bp.name) && r.log[1] == Installing(s.name)
  {
    var p := Prepare(env, bp, options).value;
    InstallThroughDelegate(env, bp, options, t, answers, fuel);
    DelegateStep(env, p, server, s, t, answers, fuel);
    var pre := Delegate(env, p, t, answers, fuel).value;
    CompleteLogOrder(env, bp, p, pre, answers);
  }

  /** The step `DelegateInstalledFirst` rests on: when the delegate runs, it is the blueprint
      the registry finds, installed on the same options. */
  lemma DelegateStep(env: Env, p: Prepared, server: Ref, s: Blueprint, t: Tree, answers: seq<string>, fuel: nat)
    requires p.effect.delegate == Some(server) && Find(env.registry, server) == Success(Some(s))
    ensures Delegate(env, p, t, answers, fuel).Success? ==>
      && fuel > 0 && Delegate(env, p, t, answers, fuel) == Install(env, s, p.options, t, answers, fuel - 1)
      && |Delegate(env, p, t, answers, fuel).value.log| > 0
      && Delegate(env, p, t, answers, fuel).value.log[0] == Installing(s.name)
  {
  }

  /** Without a `server` blueprint in the lookup paths, a mock or proxy that looks it up by
      name fails with the lookup's error before any of its own files. */
  lemma MissingServer(env: Env, bp: Blueprint, options: Options, t: Tree, answers: seq<string>, fuel: nat)
    requires forall o, l :: bp.beforeInstall(o, l) == HookEffect(l, [], Some(ByName("server")))
    requires forall i :: 0 <= i < |env.registry.defaults| ==> Text.Resolve(env.registry.defaults[i], "server") !in env.registry.entries
    requires Prepare(env, bp, options).Success?
    ensures Install(env, bp, options, t, answers, fuel) == Failure(Error(SilentError, "Unknown blueprint: server"))
  {
    var p := Prepare(env, bp, options).value;
    InstallThroughDelegate(env, bp, options, t, answers, fuel);
    ServerNotFound(env, p, t, answers, fuel);
  }

  lemma ServerNotFound(env: Env, p: Prepared, t: Tree, answers: seq<string>, fuel: nat)
    requires p.effect.delegate == Some(ByName("server"))
    requires forall i :: 0 <= i < |env.registry.defaults| ==> Text.Resolve(env.registry.defaults[i], "server") !in env.registry.entries
    ensures Delegate(env, p, t, answers, fuel) == Failure(Error(SilentError, "Unknown blueprint: server"))
  {
    assert "Unknown blueprint: " + "server" == "Unknown blueprint: server";
    DelegateNotFound(env, p, t, answers, fuel, "server");
  }

  /** A delegate named by a name no lookup path holds fails with the lookup's error. */
  lemma DelegateNotFound(env: Env, p: Prepared, t: Tree, answers: seq<string>, fuel: nat, name: string)
    requires p.effect.delegate == Some(ByName(name))
    requires forall i :: 0 <= i < |env.registry.defaults| ==> Text.Resolve(env.registry.defaults[i], name) !in env.registry.entries
    ensures Delegate(env, p, t, answers, fuel) == Failure(Error(SilentError, "Unknown blueprint: " + name))
  {
    assert [] + env.registry.defaults == env.registry.defaults;
    UnknownBlueprint(env.registry, name, []);
  }
}
