/** The `isPackageMissing(context, packageName)` utility used by the server and mock blueprints. */
module PackageMissing {
  import opened Wrappers
  import opened JsValues
  import opened Assoc

  /**
    Whether `name` is absent from a package manifest `pkg` (the context's `pkg`): it is
    missing unless `devDependencies[name]` or `dependencies[name]` holds a truthy value.
    Reading a property of an `undefined` or `null` manifest throws a `TypeError`.
  */
  function IsPackageMissing(pkg: JsValue, name: string): (r: Result<bool, string>)
    ensures r.Failure? <==> pkg.Undefined? || pkg.Null?
    ensures r.Success? ==>
      (r.value <==> !Truthy(Get(Get(pkg, "devDependencies"), name))
                    && !Truthy(Get(Get(pkg, "dependencies"), name)))
  {
    if pkg.Undefined? || pkg.Null? then
      Failure("TypeError: Cannot read properties of " + (if pkg.Null? then "null" else "undefined"))
    else
      var dev := Get(pkg, "devDependencies");
      var deps := Get(pkg, "dependencies");
      var inDev := And(dev, Get(dev, name));
      var inDeps := And(deps, Get(deps, name));
      Success(!Truthy(Or(inDev, inDeps)))
  }

  /** A manifest whose `devDependencies` names the package with a truthy value does not miss it,
      whatever `dependencies` holds. */
  lemma PresentInDevDependencies(fields: seq<(string, JsValue)>, dev: seq<(string, JsValue)>, name: string, version: string)
    requires version != ""
    ensures IsPackageMissing(Obj(Set(fields, "devDependencies", Obj(Set(dev, name, Str(version))))), name) == Success(false)
  {
  }

  /** Likewise for `dependencies`. */
  lemma PresentInDependencies(fields: seq<(string, JsValue)>, deps: seq<(string, JsValue)>, name: string, version: string)
    requires version != ""
    ensures IsPackageMissing(Obj(Set(fields, "dependencies", Obj(Set(deps, name, Str(version))))), name) == Success(false)
  {
  }

  /** A manifest without either dependency map misses every package. */
  lemma MissingWithoutDependencyMaps(fields: seq<(string, JsValue)>, name: string)
    requires Lookup(fields, "devDependencies").None? && Lookup(fields, "dependencies").None?
    ensures IsPackageMissing(Obj(fields), name) == Success(true)
  {
  }

  /** An entry whose value is the empty string counts as missing. */
  lemma EmptyVersionCountsAsMissing(name: string)
    ensures IsPackageMissing(Obj([("devDependencies", Obj([(name, Str(""))])),
                                  ("dependencies", Obj([(name, Str(""))]))]), name) == Success(true)
  {
  }
}
