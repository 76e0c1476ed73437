/**
  `blueprintSearch()`: the map from blueprint name to blueprint directory built from the
  `blueprints` key of the `package.json` of every dependency of the current project.
  Module resolution, the upward search for a `package.json` and file reads are oracles.
*/
module BlueprintSearch {
  import opened Wrappers
  import opened JsValues
  import opened Assoc
  import Text

  /**
    The outside world the search consults, for the current working directory: `resolve(name)`
    is `require.resolve` (the entry file of the dependency, or `None` when it throws),
    `packageUp(dir)` is the nearest `package.json` at or above `dir`, and `read(file)` is the
    parsed content of a file (`None` when reading or parsing throws).
  */
  datatype Resolver = Resolver(
    resolve: string -> Option<string>,
    packageUp: string -> Option<string>,
    read: string -> Option<JsValue>)

  /** The own properties of a value as `for … in` and object spread see them; a value that is
      not an object has none. */
  function Entries(v: JsValue): (r: Assoc<JsValue>)
    ensures v.Obj? ==> r == v.fields
    ensures !v.Obj? ==> r == []
  {
    if v.Obj? then v.fields else []
  }

  /** The dependency names the search visits: the keys of
      `{...pkgJson.dependencies, ...pkgJson.devDependencies}`, each once. */
  function ScanOrder(pkg: JsValue): (r: seq<string>)
    ensures forall k :: k in r <==>
      Lookup(Entries(Get(pkg, "dependencies")), k).Some? || Lookup(Entries(Get(pkg, "devDependencies")), k).Some?
    ensures Distinct(r)
  {
    Keys(Merge(Entries(Get(pkg, "dependencies")), Entries(Get(pkg, "devDependencies"))))
  }

  /** Where the dependency `name` lives: its `package.json` path and content, or `None` when
      any of the three steps throws (the whole dependency is then skipped). */
  function Locate(r: Resolver, name: string): (loc: Option<(string, JsValue)>)
    ensures loc.Some? <==>
      r.resolve(name).Some? && r.packageUp(Text.Dirname(r.resolve(name).value)).Some?
      && r.read(r.packageUp(Text.Dirname(r.resolve(name).value)).value).Some?
  {
    var entry :- r.resolve(name);
    var manifest :- r.packageUp(Text.Dirname(entry));
    var json :- r.read(manifest);
    Some((manifest, json))
  }

  /** The directory the dependency `name` declares for blueprint `bp`: its declared path
      resolved against the directory of the dependency's `package.json`. `None` when the
      dependency cannot be located, does not declare `bp`, or declares something that is not a
      string (then `path.resolve` throws and the entry is skipped). */
  function Declared(r: Resolver, name: string, bp: string): Option<string> {
    match Locate(r, name)
    case None => None
    case Some((manifest, json)) =>
      var value := Lookup(Entries(Get(json, "blueprints")), bp);
      if value.Some? && value.value.Str? then Some(Text.Resolve(Text.Dirname(manifest), value.value.s))
      else None
  }

  /** The value a map holds for `k`, if any. */
  function MapGet(m: map<string, string>, k: string): Option<string> {
    if k in m then Some(m[k]) else None
  }

  /** The inner loop: `blueprints.set(name, resolve(dir, declared[name]))` for each name in
      turn; an entry that is not a string is skipped. */
  function SetDeclared(acc: map<string, string>, dir: string, declared: Assoc<JsValue>, names: seq<string>): (m: map<string, string>)
    decreases |names|
  {
    if |names| == 0 then acc
    else
      var last := names[|names| - 1];
      var m := SetDeclared(acc, dir, declared, names[..|names| - 1]);
      var value := Lookup(declared, last);
      if value.Some? && value.value.Str? then m[last := Text.Resolve(dir, value.value.s)] else m
  }

  /** What one dependency adds to the map built so far. */
  function Contribute(acc: map<string, string>, r: Resolver, name: string): map<string, string> {
    match Locate(r, name)
    case None => acc
    case Some((manifest, json)) =>
      var declared := Entries(Get(json, "blueprints"));
      SetDeclared(acc, Text.Dirname(manifest), declared, Keys(declared))
  }

  /** A loop over `names` that applies `step` to the map built so far and each name in turn. */
  function Fold(acc: map<string, string>, step: (map<string, string>, string) -> map<string, string>, names: seq<string>): map<string, string>
    decreases |names|
  {
    if |names| == 0 then acc
    else step(Fold(acc, step, names[..|names| - 1]), names[|names| - 1])
  }

  /** The outer loop over the dependency names, in order. */
  function Scan(acc: map<string, string>, r: Resolver, names: seq<string>): map<string, string> {
    Fold(acc, (m, name) => Contribute(m, r, name), names)
  }

  /** The search starting from an already parsed root `package.json`. */
  function SearchFrom(r: Resolver, pkg: JsValue): map<string, string> {
    Scan(map[], r, ScanOrder(pkg))
  }

  /**
    `blueprintSearch()` run in `cwd`: `None` when the promise rejects, which happens when the
    project's own `package.json` cannot be found, read or parsed, or parses to `null`.
  */
  function Search(r: Resolver, cwd: string): (result: Option<map<string, string>>)
    ensures result.None? <==>
      r.packageUp(cwd).None? || r.read(r.packageUp(cwd).value).None?
      || r.read(r.packageUp(cwd).value).value.Null? || r.read(r.packageUp(cwd).value).value.Undefined?
    ensures result.Some? ==> result.value == SearchFrom(r, r.read(r.packageUp(cwd).value).value)
  {
    var location :- r.packageUp(cwd);
    var pkg :- r.read(location);
    if pkg.Null? || pkg.Undefined? then None else Some(SearchFrom(r, pkg))
  }

  /** A blueprint declared as `blueprints/x` or `./blueprints/x` lives in `blueprints/x`
      under the directory of the dependency's `package.json`: the `./` is dropped. */
  lemma DeclaredUnderDependency(r: Resolver, name: string, bp: string, p: string)
    requires Locate(r, name).Some?
    requires Text.NormalAbsolute(Text.Dirname(Locate(r, name).value.0)) && Text.NormalRelative(p)
    requires var declared := Lookup(Entries(Get(Locate(r, name).value.1, "blueprints")), bp);
      declared == Some(Str(p)) || declared == Some(Str("./" + p))
    ensures Declared(r, name, bp) == Some(Text.Under(Text.Dirname(Locate(r, name).value.0), p))
  {
    var dir := Text.Dirname(Locate(r, name).value.0);
    Text.NormalRelativeIsRelative(p);
    Text.ResolveDropsDot(dir, p);
    Text.ResolveNormal(dir, p);
  }

  /** The inner loop sets exactly the names whose declared value is a string, to that value
      resolved against `dir`, and leaves every other name as it was. */
  lemma {:induction false} SetDeclaredSpec(acc: map<string, string>, dir: string, declared: Assoc<JsValue>, names: seq<string>, bp: string)
    ensures MapGet(SetDeclared(acc, dir, declared, names), bp) ==
      if bp in names && Lookup(declared, bp).Some? && Lookup(declared, bp).value.Str?
      then Some(Text.Resolve(dir, Lookup(declared, bp).value.s))
      else MapGet(acc, bp)
    decreases |names|
  {
    if |names| > 0 {
      var init, last := names[..|names| - 1], names[|names| - 1];
      assert bp in names <==> bp in init || bp == last by {
        assert names == init + [last];
      }
      var m := SetDeclared(acc, dir, declared, init);
      assert MapGet(m, bp) ==
        if bp in init && Lookup(declared, bp).Some? && Lookup(declared, bp).value.Str?
        then Some(Text.Resolve(dir, Lookup(declared, bp).value.s))
        else MapGet(acc, bp)
      by {
        SetDeclaredSpec(acc, dir, declared, init, bp);
      }
      var value := Lookup(declared, last);
      if value.Some? && value.value.Str? {
        var v := Text.Resolve(dir, value.value.s);
        assert SetDeclared(acc, dir, declared, names) == m[last := v];
      } else {
        assert SetDeclared(acc, dir, declared, names) == m;
      }
    }
  }

  /** One dependency sets exactly the blueprints it declares with a string path. */
  lemma ContributeSpec(acc: map<string, string>, r: Resolver, name: string, bp: string)
    ensures MapGet(Contribute(acc, r, name), bp) ==
      if Declared(r, name, bp).Some? then Declared(r, name, bp) else MapGet(acc, bp)
  {
    match Locate(r, name)
    case None =>
    case Some((manifest, json)) =>
      var declared := Entries(Get(json, "blueprints"));
      SetDeclaredSpec(acc, Text.Dirname(manifest), declared, Keys(declared), bp);
  }

  /** `step` sets the entry for `bp` to `decl(name, bp)` when that is defined and leaves it
      alone otherwise. */
  ghost predicate StepSets(step: (map<string, string>, string) -> map<string, string>, decl: (string, string) -> Option<string>, bp: string) {
    forall m, name :: MapGet(step(m, name), bp) == if decl(name, bp).Some? then decl(name, bp) else MapGet(m, bp)
  }

  /** A fold of such steps holds `bp` exactly when some name declares it or it was there
      before. */
  lemma {:induction false} FoldHas(acc: map<string, string>, step: (map<string, string>, string) -> map<string, string>,
                                   decl: (string, string) -> Option<string>, names: seq<string>, bp: string)
    requires StepSets(step, decl, bp)
    ensures bp in Fold(acc, step, names) <==> bp in acc || exists i :: 0 <= i < |names| && decl(names[i], bp).Some?
    decreases |names|
  {
    if |names| > 0 {
      var n := |names| - 1;
      var init := names[..n];
      FoldHas(acc, step, decl, init, bp);
      assert MapGet(Fold(acc, step, names), bp) ==
        if decl(names[n], bp).Some? then decl(names[n], bp) else MapGet(Fold(acc, step, init), bp);
      assert forall i :: 0 <= i < n ==> init[i] == names[i];
    }
  }

  /** Names that declare nothing for `bp` leave its entry as it was. */
  lemma {:induction false} FoldKeeps(acc: map<string, string>, step: (map<string, string>, string) -> map<string, string>,
                                     decl: (string, string) -> Option<string>, names: seq<string>, bp: string)
    requires StepSets(step, decl, bp)
    requires forall i :: 0 <= i < |names| ==> decl(names[i], bp).None?
    ensures MapGet(Fold(acc, step, names), bp) == MapGet(acc, bp)
    decreases |names|
  {
    if |names| > 0 {
      var n := |names| - 1;
      var init := names[..n];
      assert forall i :: 0 <= i < n ==> init[i] == names[i];
      FoldKeeps(acc, step, decl, init, bp);
      assert MapGet(Fold(acc, step, names), bp) == MapGet(Fold(acc, step, init), bp);
    }
  }

  /** The entry for `bp` is the one declared by the LAST name that declares it. */
  lemma {:induction false} FoldLastWins(acc: map<string, string>, step: (map<string, string>, string) -> map<string, string>,
                                        decl: (string, string) -> Option<string>, names: seq<string>, i: nat, bp: string)
    requires StepSets(step, decl, bp)
    requires i < |names| && decl(names[i], bp).Some?
    requires forall j :: i < j < |names| ==> decl(names[j], bp).None?
    ensures MapGet(Fold(acc, step, names), bp) == decl(names[i], bp)
    decreases |names|
  {
    var n := |names| - 1;
    var init := names[..n];
    assert MapGet(Fold(acc, step, names), bp) ==
      if decl(names[n], bp).Some? then decl(names[n], bp) else MapGet(Fold(acc, step, init), bp);
    if i < n {
      assert init[i] == names[i];
      assert forall j :: i < j < n ==> init[j] == names[j];
      FoldLastWins(acc, step, decl, init, i, bp);
    }
  }

  /** A name whose step changes nothing can be dropped from the fold wherever it stands. */
  lemma {:induction false} FoldSkips(acc: map<string, string>, step: (map<string, string>, string) -> map<string, string>,
                                     names: seq<string>, name: string, rest: seq<string>)
    requires forall m :: step(m, name) == m
    ensures Fold(acc, step, names + [name] + rest) == Fold(acc, step, names + rest)
    decreases |rest|
  {
    if |rest| == 0 {
      assert names + [name] + rest == names + [name];
      assert (names + [name])[..|names|] == names;
      assert names + rest == names;
    } else {
      var n := |rest| - 1;
      FoldSkips(acc, step, names, name, rest[..n]);
      assert (names + [name] + rest)[..|names| + 1 + n] == names + [name] + rest[..n];
      assert (names + rest)[..|names| + n] == names + rest[..n];
    }
  }

  /** Each step of the outer loop sets the entries its dependency declares. */
  lemma ContributeSets(r: Resolver, bp: string)
    ensures StepSets((m, name) => Contribute(m, r, name), (name, b) => Declared(r, name, b), bp)
  {
    forall m, name ensures MapGet(Contribute(m, r, name), bp) ==
      if Declared(r, name, bp).Some? then Declared(r, name, bp) else MapGet(m, bp)
    {
      ContributeSpec(m, r, name, bp);
    }
  }

  /** The map after scanning `names` holds `bp` exactly when some scanned dependency declares
      it, or it was there before. */
  lemma ScanHas(acc: map<string, string>, r: Resolver, names: seq<string>, bp: string)
    ensures bp in Scan(acc, r, names) <==>
      bp in acc || exists i :: 0 <= i < |names| && Declared(r, names[i], bp).Some?
  {
    ContributeSets(r, bp);
    FoldHas(acc, (m, name) => Contribute(m, r, name), (name, b) => Declared(r, name, b), names, bp);
  }

  /** Dependencies that declare nothing for `bp` leave its entry as it was. */
  lemma ScanKeeps(acc: map<string, string>, r: Resolver, names: seq<string>, bp: string)
    requires forall i :: 0 <= i < |names| ==> Declared(r, names[i], bp).None?
    ensures MapGet(Scan(acc, r, names), bp) == MapGet(acc, bp)
  {
    ContributeSets(r, bp);
    FoldKeeps(acc, (m, name) => Contribute(m, r, name), (name, b) => Declared(r, name, b), names, bp);
  }

  /** The entry for `bp` is the path declared by the LAST dependency that declares it: a later
      package overwrites an earlier one. */
  lemma ScanLastWins(acc: map<string, string>, r: Resolver, names: seq<string>, i: nat, bp: string)
    requires i < |names| && Declared(r, names[i], bp).Some?
    requires forall j :: i < j < |names| ==> Declared(r, names[j], bp).None?
    ensures MapGet(Scan(acc, r, names), bp) == Declared(r, names[i], bp)
  {
    ContributeSets(r, bp);
    FoldLastWins(acc, (m, name) => Contribute(m, r, name), (name, b) => Declared(r, name, b), names, i, bp);
  }

  /** The keys of the result are exactly the blueprints declared, with a string path, by a
      dependency the search visits and can locate. */
  lemma SearchKeys(r: Resolver, pkg: JsValue, bp: string)
    ensures bp in SearchFrom(r, pkg) <==>
      exists name :: name in ScanOrder(pkg) && Declared(r, name, bp).Some?
  {
    var names := ScanOrder(pkg);
    ScanHas(map[], r, names, bp);
    if exists name :: name in names && Declared(r, name, bp).Some? {
      var name :| name in names && Declared(r, name, bp).Some?;
      var i :| 0 <= i < |names| && names[i] == name;
    }
  }

  /** When two dependencies declare the same blueprint, the one visited later wins. */
  lemma LaterPackageWins(r: Resolver, pkg: JsValue, i: nat, bp: string)
    requires i < |ScanOrder(pkg)|
    requires Declared(r, ScanOrder(pkg)[i], bp).Some?
    requires forall j :: i < j < |ScanOrder(pkg)| ==> Declared(r, ScanOrder(pkg)[j], bp).None?
    ensures bp in SearchFrom(r, pkg)
    ensures SearchFrom(r, pkg)[bp] == Declared(r, ScanOrder(pkg)[i], bp).value
  {
    ScanLastWins(map[], r, ScanOrder(pkg), i, bp);
  }

  /** A dependency that cannot be located is skipped and the scan goes on with the next. */
  lemma UnresolvableSkipped(acc: map<string, string>, r: Resolver, names: seq<string>, name: string, rest: seq<string>)
    requires Locate(r, name).None?
    ensures Scan(acc, r, names + [name] + rest) == Scan(acc, r, names + rest)
  {
    FoldSkips(acc, (m, name) => Contribute(m, r, name), names, name, rest);
  }

  /** A dependency whose `package.json` has no `blueprints` object adds nothing. */
  lemma NoBlueprintsKeyNoContribution(acc: map<string, string>, r: Resolver, name: string)
    requires Locate(r, name).Some? && !Get(Locate(r, name).value.1, "blueprints").Obj?
    ensures Contribute(acc, r, name) == acc
  {
  }

  /** The project's own `blueprints` key is never read: only its dependency maps matter. */
  lemma RootBlueprintsIgnored(r: Resolver, fields: Assoc<JsValue>, v: JsValue)
    ensures SearchFrom(r, Obj(Set(fields, "blueprints", v))) == SearchFrom(r, Obj(fields))
  {
    var updated := Set(fields, "blueprints", v);
    assert Lookup(updated, "dependencies") == Lookup(fields, "dependencies");
    assert Lookup(updated, "devDependencies") == Lookup(fields, "devDependencies");
    SameDependencyMaps(r, Obj(updated), Obj(fields));
  }

  /** Two root manifests with the same dependency maps give the same search result. */
  lemma SameDependencyMaps(r: Resolver, a: JsValue, b: JsValue)
    requires Get(a, "dependencies") == Get(b, "dependencies")
    requires Get(a, "devDependencies") == Get(b, "devDependencies")
    ensures SearchFrom(r, a) == SearchFrom(r, b)
  {
  }
}
