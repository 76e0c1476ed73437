/**
  The pure decisions of the addon model as its unit tests pin them down: where an addon's
  entry point is (`Addon.resolvePath`), what a listing of the addon tree says about it
  (`_fileSystemInfo`), whether linting runs (`hintingEnabled`), whether the addon is the one
  being developed (`isDevelopingAddon`), and the constructor's required properties.
  Environment variables are parameters.
*/
module AddonModel {
  import opened Wrappers
  import opened Context
  import opened JsValues
  import Text

  // ---------------------------------------------------------------- construction

  /** An addon instance: its name and root directory. */
  datatype Addon = Addon(name: string, root: string)

  const RootMessage: string := "Addon classes must be instantiated with the `root` property"
  const NameMessage: string := "An addon must define a `name` property."

  /** `new Addon(...)`: a falsy `root` is refused first, then a `name` that is not a string. */
  function NewAddon(name: JsValue, root: JsValue): (r: Result<Addon, Error>)
    ensures r.Success? <==> Truthy(root) && root.Str? && name.Str?
    ensures !Truthy(root) ==> r == Failure(Error(PlainError, RootMessage))
    ensures Truthy(root) && !name.Str? ==> r == Failure(Error(PlainError, NameMessage))
    ensures r.Success? ==> r.value == Addon(name.s, root.s)
  {
    if !Truthy(root) then Failure(Error(PlainError, RootMessage))
    else if !name.Str? then Failure(Error(PlainError, NameMessage))
    else if !root.Str? then Failure(Error(TypeError, "The `root` property must be a path"))
    else Success(Addon(name.s, root.s))
  }

  /** Neither property given: the complaint is about `root`. */
  lemma RootCheckedFirst()
    ensures NewAddon(Undefined, Undefined).Failure?
    ensures Text.Contains(NewAddon(Undefined, Undefined).error.message, "root")
  {
    assert Text.OccursAt("root", RootMessage, 45) by {
      assert RootMessage[45..49] == "root";
    }
  }

  // ---------------------------------------------------------------- resolvePath

  /** The fields of the addon's `package.json` that locate its entry point. */
  datatype AddonPackage = AddonPackage(emberAddonMain: Option<string>, main: Option<string>)

  /** `path.extname(p) !== ''`: the basename's last dot is not its first character, and the
      basename is not `..`. */
  predicate HasExtension(p: string) {
    var b := Text.Basename(p);
    match Text.LastIndexOfChar(b, '.')
    case None => false
    case Some(i) => i > 0 && b != ".."
  }

  /** The declared entry: `ember-addon.main`, else `main`, else `index.js` (empty strings are
      falsy and fall through). */
  function EntryOf(pkg: AddonPackage): (r: string)
    ensures TruthyString(pkg.emberAddonMain) ==> r == pkg.emberAddonMain.value
    ensures !TruthyString(pkg.emberAddonMain) && TruthyString(pkg.main) ==> r == pkg.main.value
    ensures !TruthyString(pkg.emberAddonMain) && !TruthyString(pkg.main) ==> r == "index.js"
    ensures r != ""
  {
    if TruthyString(pkg.emberAddonMain) then pkg.emberAddonMain.value
    else if TruthyString(pkg.main) then pkg.main.value
    else "index.js"
  }

  /** `.js` is appended to an entry without an extension. */
  function WithExtension(entry: string): (r: string)
    ensures HasExtension(entry) ==> r == entry
    ensures !HasExtension(entry) ==> r == entry + ".js"
  {
    if HasExtension(entry) then entry else entry + ".js"
  }

  /** `path.resolve(addon.path, entry)` with `path.resolve`'s treatment of an empty `addon.path`
      as the working directory `cwd`. */
  function ResolvePath(cwd: string, addonPath: string, pkg: AddonPackage): (r: string)
    ensures Text.NormalAbsolute(r)
    ensures Text.NormalAbsolute(WithExtension(EntryOf(pkg))) ==> r == WithExtension(EntryOf(pkg))
    ensures addonPath == "" && Text.NormalAbsolute(cwd) && Text.NormalRelative(WithExtension(EntryOf(pkg)))
      ==> r == Text.Under(cwd, WithExtension(EntryOf(pkg)))
  {
    var dir := if addonPath == "" then cwd else Text.Resolve(cwd, addonPath);
    var entry := WithExtension(EntryOf(pkg));
    Text.AbsoluteNotRelative(entry);
    if Text.NormalAbsolute(entry) then
      Text.ResolveNormalAbsolute(dir, entry);
      Text.Resolve(dir, entry)
    else if addonPath == "" && Text.NormalAbsolute(cwd) && Text.NormalRelative(entry) then
      Text.ResolveNormal(cwd, entry);
      Text.Resolve(dir, entry)
    else Text.Resolve(dir, entry)
  }

  /** The entry is resolved against the addon's directory. */
  lemma ResolvePathResolves(cwd: string, addonPath: string, pkg: AddonPackage)
    ensures ResolvePath(cwd, addonPath, pkg)
      == Text.Resolve(if addonPath == "" then cwd else Text.Resolve(cwd, addonPath), WithExtension(EntryOf(pkg)))
  {
  }

  /** The last occurrence of `c` is at `i` when `s[i]` is `c` and nothing after it is. */
  lemma LastIndexIs(s: string, c: char, i: nat)
    requires i < |s| && s[i] == c
    requires forall j :: i < j < |s| ==> s[j] != c
    ensures Text.LastIndexOfChar(s, c) == Some(i)
  {
    assert s[i] in s;
  }

  /** Nothing in `a + b` is `c` when neither part holds it. */
  lemma NotInConcat(a: string, b: string, c: char)
    requires c !in a && c !in b
    ensures c !in a + b
  {
    forall j | 0 <= j < |a + b| ensures (a + b)[j] != c {
      if j < |a| { assert (a + b)[j] == a[j]; } else { assert (a + b)[j] == b[j - |a|]; }
    }
  }

  /** Appending a separator-free suffix extends the basename by it. */
  lemma BasenameAppend(p: string, suffix: string)
    requires '/' !in suffix
    ensures Text.Basename(p + suffix) == Text.Basename(p) + suffix
  {
    var s := p + suffix;
    match Text.LastIndexOfChar(p, '/')
    case None =>
      NotInConcat(p, suffix, '/');
    case Some(i) =>
      forall j | i < j < |s| ensures s[j] != '/' {
        if j < |p| { assert s[j] == p[j]; } else { assert s[j] == suffix[j - |p|]; }
      }
      LastIndexIs(s, '/', i);
      assert s[i + 1..] == p[i + 1..] + suffix;
  }

  /** A separator-free name whose last dot is past its first character has an extension. */
  lemma ExtensionAt(s: string, i: nat)
    requires '/' !in s && s != ".." && 0 < i < |s| && s[i] == '.'
    requires forall j :: i < j < |s| ==> s[j] != '.'
    ensures HasExtension(s)
  {
    assert Text.Basename(s) == s;
    LastIndexIs(s, '.', i);
  }

  /** A name without separators, a dot, and a dot-free extension: the name has an extension,
      also below a directory. */
  lemma HasExtensionOf(dir: string, b: string, ext: string)
    requires b != "" && '/' !in b && '.' !in b && '/' !in ext && '.' !in ext
    ensures HasExtension(b + "." + ext)
    ensures HasExtension(dir + "/" + b + "." + ext)
  {
    var s := b + "." + ext;
    NotInConcat(b + ".", ext, '/');
    forall j | |b| < j < |s| ensures s[j] != '.' {
      assert s[j] == ext[j - |b| - 1];
    }
    assert s != ".." by {
      assert s[0] == b[0] && b[0] != '.';
    }
    ExtensionAt(s, |b|);
    assert dir + "/" + b + "." + ext == dir + "/" + s;
    Text.BasenameOfChild(dir, s);
  }

  /** A name without separators or dots has no extension. */
  lemma NoExtension(b: string)
    requires '/' !in b && '.' !in b
    ensures !HasExtension(b)
  {
    assert Text.Basename(b) == b;
  }

  /** A non-empty name followed by `.js` has an extension. */
  lemma DotJsIsExtension(b: string)
    requires b != "" && '/' !in b
    ensures HasExtension(b + ".js")
  {
    var s := b + ".js";
    assert ".js"[0] == '.' && ".js"[1] == 'j' && ".js"[2] == 's';
    NotInConcat(b, ".js", '/');
    forall j | |b| < j < |s| ensures s[j] != '.' {
      assert s[j] == ".js"[j - |b|];
    }
    assert |s| > 2;
    ExtensionAt(s, |b|);
  }

  /** Adding `.js` is done at most once: the result already has an extension whenever the
      entry's basename is not empty. */
  lemma WithExtensionIdempotent(entry: string)
    requires Text.Basename(entry) != ""
    ensures HasExtension(WithExtension(entry))
    ensures WithExtension(WithExtension(entry)) == WithExtension(entry)
  {
    if !HasExtension(entry) {
      BasenameAppend(entry, ".js");
      DotJsIsExtension(Text.Basename(entry));
      assert Text.Basename(Text.Basename(entry) + ".js") == Text.Basename(entry) + ".js";
    }
  }

  /** Resolving a plain name keeps it as the basename, whatever the directory. */
  lemma {:induction false} ResolvedBasename(dir: string, name: string)
    requires Text.NormalSegment(name)
    ensures Text.Basename(Text.Resolve(dir, name)) == name
  {
    Text.ResolveChild(dir, name);
    Text.UnderParts(Text.Resolve(dir, "."), name);
  }

  /** When the entry is a plain name, it is the basename of the resolved path. */
  lemma {:induction false} ResolvePathBasename(cwd: string, addonPath: string, pkg: AddonPackage)
    requires Text.NormalSegment(WithExtension(EntryOf(pkg)))
    ensures Text.Basename(ResolvePath(cwd, addonPath, pkg)) == WithExtension(EntryOf(pkg))
  {
    ResolvePathResolves(cwd, addonPath, pkg);
    ResolvedBasename(if addonPath == "" then cwd else Text.Resolve(cwd, addonPath), WithExtension(EntryOf(pkg)));
  }

  /** An entry without an extension, such as `index`, gains `.js`. */
  lemma {:induction false} ResolvePathAddsJs(cwd: string, path: string, name: string)
    requires name != "" && '/' !in name && '.' !in name
    ensures Text.Basename(ResolvePath(cwd, path, AddonPackage(Some(name), Some("")))) == name + ".js"
  {
    NoExtension(name);
    NotInConcat(name, ".js", '/');
    ResolvePathBasename(cwd, path, AddonPackage(Some(name), Some("")));
  }

  /** Neither `.` nor `..` has an extension. */
  lemma DotsHaveNoExtension()
    ensures !HasExtension(".") && !HasExtension("..")
  {
    assert Text.Basename(".") == ".";
    assert Text.LastIndexOfChar(".", '.') == Some(0);
    assert Text.Basename("..") == "..";
  }

  /** An entry with an extension, such as `index.js` or `index.coffee`, is kept as it is. */
  lemma {:induction false} ResolvePathKeepsExtension(cwd: string, path: string, entry: string)
    requires entry != "" && '/' !in entry && HasExtension(entry)
    ensures Text.Basename(ResolvePath(cwd, path, AddonPackage(Some(entry), Some("")))) == entry
  {
    DotsHaveNoExtension();
    assert WithExtension(EntryOf(AddonPackage(Some(entry), Some("")))) == entry;
    ResolvePathBasename(cwd, path, AddonPackage(Some(entry), Some("")));
  }

  /** Without `ember-addon.main` the package's `main` (such as `some/other/path.js`) is used,
      resolved against the working directory when the addon's path is empty. */
  lemma ResolvePathUsesMain(cwd: string, main: string)
    requires Text.NormalAbsolute(cwd) && main != "" && Text.NormalRelative(main) && HasExtension(main)
    ensures ResolvePath(cwd, "", AddonPackage(None, Some(main))) == Text.Under(cwd, main)
  {
    assert EntryOf(AddonPackage(None, Some(main))) == main;
  }

  /** `index.js` has an extension. */
  lemma IndexJsHasExtension()
    ensures HasExtension("index.js")
  {
    var s := "index.js";
    assert s[5] == '.' && s[6] != '.' && s[7] != '.';
    assert forall j :: 0 <= j < |s| ==> s[j] != '/';
    assert s != "..";
    ExtensionAt(s, 5);
  }

  /** `index.js` is a plain relative path. */
  lemma IndexJsIsNormal()
    ensures Text.NormalRelative("index.js")
  {
    var s := "index.js";
    assert forall j :: 0 <= j < |s| ==> s[j] != '/';
    Text.SplitSingle(s, '/');
  }

  /** Without either entry, or with empty ones, the entry is `index.js`. */
  lemma ResolvePathFallsBackToIndex(cwd: string, emberAddonMain: Option<string>, main: Option<string>)
    requires Text.NormalAbsolute(cwd) && !TruthyString(emberAddonMain) && !TruthyString(main)
    ensures ResolvePath(cwd, "", AddonPackage(emberAddonMain, main)) == Text.Under(cwd, "index.js")
  {
    IndexJsHasExtension();
    IndexJsIsNormal();
    assert EntryOf(AddonPackage(emberAddonMain, main)) == "index.js";
    assert WithExtension("index.js") == "index.js";
  }

  // ---------------------------------------------------------------- _fileSystemInfo

  /** Where the addon's templates tree is: inside the addon tree under `prefix` (the default
      `templates/`), or a separate tree with its own listing. */
  datatype TemplatesTree = InAddonTree(prefix: string) | Separate(files: seq<string>)

  datatype FileSystemInfo = FileSystemInfo(hasJSFiles: bool, hasTemplates: bool, hasPodTemplates: bool)

  /** A template in pod layout: a `template.hbs` file outside the templates directory. */
  predicate IsPodTemplate(file: string, tree: TemplatesTree) {
    Text.EndsWith(file, "template.hbs") && !(tree.InAddonTree? && Text.StartsWith(file, tree.prefix))
  }

  function AnyEndsWith(files: seq<string>, suffix: string): (r: bool)
    ensures r <==> exists i :: 0 <= i < |files| && Text.EndsWith(files[i], suffix)
  {
    if |files| == 0 then false
    else
      assert forall i :: 0 < i < |files| ==> files[1..][i - 1] == files[i];
      Text.EndsWith(files[0], suffix) || AnyEndsWith(files[1..], suffix)
  }

  function AnyPodTemplate(files: seq<string>, tree: TemplatesTree): (r: bool)
    ensures r <==> exists i :: 0 <= i < |files| && IsPodTemplate(files[i], tree)
  {
    if |files| == 0 then false
    else
      assert forall i :: 0 < i < |files| ==> files[1..][i - 1] == files[i];
      IsPodTemplate(files[0], tree) || AnyPodTemplate(files[1..], tree)
  }

  /** Whether the separate templates listing is consulted: only for a templates tree outside
      the addon tree. */
  predicate ReadsTemplatesTree(tree: TemplatesTree) {
    tree.Separate?
  }

  /** The listing searched for templates: the addon tree's, followed by the separate
      templates tree's when there is one. */
  function TemplateListing(files: seq<string>, tree: TemplatesTree): seq<string> {
    if ReadsTemplatesTree(tree) then files + tree.files else files
  }

  /**
    `_fileSystemInfo()` over the addon tree's listing `files`: JavaScript files are those
    ending in `.js`, templates those ending in `.hbs` (in the addon tree or in a separate
    templates tree), pod templates those ending in `template.hbs` outside the templates
    directory.
  */
  function FileSystemInfoOf(files: seq<string>, tree: TemplatesTree): (r: FileSystemInfo)
    ensures r.hasJSFiles <==> exists i :: 0 <= i < |files| && Text.EndsWith(files[i], ".js")
    ensures r.hasTemplates <==>
      (exists i :: 0 <= i < |files| && Text.EndsWith(files[i], ".hbs"))
      || (tree.Separate? && exists i :: 0 <= i < |tree.files| && Text.EndsWith(tree.files[i], ".hbs"))
    ensures r.hasPodTemplates <==> exists i :: 0 <= i < |files| && IsPodTemplate(files[i], tree)
  {
    var listing := TemplateListing(files, tree);
    var templates := AnyEndsWith(listing, ".hbs");
    assert tree.Separate? ==> forall i :: 0 <= i < |files| ==> listing[i] == files[i];
    assert tree.Separate? ==> forall i :: 0 <= i < |tree.files| ==> listing[|files| + i] == tree.files[i];
    FileSystemInfo(AnyEndsWith(files, ".js"), templates, AnyPodTemplate(files, tree))
  }

  /** A separate templates tree counts as if its files were listed after the addon tree's:
      only its `.hbs` files make templates, and it changes nothing else. */
  lemma SeparateTreeAppended(files: seq<string>, extra: seq<string>, prefix: string)
    ensures FileSystemInfoOf(files, Separate(extra)).hasTemplates
            == FileSystemInfoOf(files + extra, InAddonTree(prefix)).hasTemplates
    ensures FileSystemInfoOf(files, Separate(extra)).hasJSFiles == FileSystemInfoOf(files, InAddonTree(prefix)).hasJSFiles
  {
    var all := files + extra;
    assert forall i :: 0 <= i < |files| ==> all[i] == files[i];
    assert forall i :: 0 <= i < |extra| ==> all[|files| + i] == extra[i];
    if FileSystemInfoOf(all, InAddonTree(prefix)).hasTemplates {
      var i :| 0 <= i < |all| && Text.EndsWith(all[i], ".hbs");
      if i >= |files| {
        assert extra[i - |files|] == all[i];
      }
    }
  }

  /** A pod template is a template. */
  lemma PodTemplatesAreTemplates(files: seq<string>, tree: TemplatesTree)
    ensures FileSystemInfoOf(files, tree).hasPodTemplates ==> FileSystemInfoOf(files, tree).hasTemplates
  {
    var r := FileSystemInfoOf(files, tree);
    if r.hasPodTemplates {
      var i :| 0 <= i < |files| && IsPodTemplate(files[i], tree);
      TemplateSuffix(files[i]);
    }
  }

  /** A name ending in `template.hbs` ends in `.hbs`. */
  lemma TemplateSuffix(f: string)
    requires Text.EndsWith(f, "template.hbs")
    ensures Text.EndsWith(f, ".hbs")
  {
    assert f[|f| - 4..] == "template.hbs"[8..];
  }

  const DefaultTemplates: TemplatesTree := InAddonTree("templates/")

  /** A pod component directory: JavaScript, a template, and a pod template. */
  lemma PodListing()
    ensures FileSystemInfoOf(["foo-bar/", "foo-bar/component.js", "foo-bar/template.hbs"], DefaultTemplates)
      == FileSystemInfo(true, true, true)
  {
    var files := ["foo-bar/", "foo-bar/component.js", "foo-bar/template.hbs"];
    assert Text.EndsWith(files[1], ".js");
    assert Text.EndsWith(files[2], "template.hbs");
    assert files[2][0] != "templates/"[0];
    assert IsPodTemplate(files[2], DefaultTemplates);
  }

  /** Templates under `templates/` are templates but not pod templates, even in a pod-like
      layout. */
  lemma TemplatesDirectoryListing()
    ensures FileSystemInfoOf(["templates/", "templates/foo-bar/template.hbs"], DefaultTemplates)
      == FileSystemInfo(false, true, false)
  {
    var files := ["templates/", "templates/foo-bar/template.hbs"];
    assert Text.EndsWith(files[1], ".hbs");
    assert Text.StartsWith(files[1], "templates/");
    assert !Text.EndsWith(files[0], ".js") && !Text.EndsWith(files[1], ".js");
    assert !Text.EndsWith(files[0], "template.hbs");
  }

  /** A directory entry (ending in `/`) is neither a script nor a template. */
  lemma DirectoryEntry(f: string)
    requires |f| > 0 && f[|f| - 1] == '/'
    ensures !Text.EndsWith(f, ".js") && !Text.EndsWith(f, ".hbs") && !Text.EndsWith(f, "template.hbs")
  {
  }

  /** A `.js` file is not a template. */
  lemma ScriptEntry(f: string)
    requires Text.EndsWith(f, ".js")
    ensures !Text.EndsWith(f, ".hbs") && !Text.EndsWith(f, "template.hbs")
  {
    assert f[|f| - 3] == '.';
  }

  /** JavaScript without templates. */
  lemma ScriptsOnlyListing()
    ensures FileSystemInfoOf(["components/", "components/foo-bar.js", "templates/", "templates/components/"], DefaultTemplates)
      == FileSystemInfo(true, false, false)
  {
    var files := ["components/", "components/foo-bar.js", "templates/", "templates/components/"];
    assert Text.EndsWith(files[1], ".js");
    forall i | 0 <= i < |files|
      ensures !Text.EndsWith(files[i], ".hbs") && !Text.EndsWith(files[i], "template.hbs")
    {
      if i == 1 {
        ScriptEntry(files[i]);
      } else {
        DirectoryEntry(files[i]);
      }
    }
    ScriptsListing(files, DefaultTemplates, 1);
  }

  /** A listing with a script and no template names has scripts and nothing else. */
  lemma ScriptsListing(files: seq<string>, tree: TemplatesTree, k: nat)
    requires tree.InAddonTree? && k < |files| && Text.EndsWith(files[k], ".js")
    requires forall i :: 0 <= i < |files| ==> !Text.EndsWith(files[i], ".hbs") && !Text.EndsWith(files[i], "template.hbs")
    ensures FileSystemInfoOf(files, tree) == FileSystemInfo(true, false, false)
  {
    var r := FileSystemInfoOf(files, tree);
    assert !r.hasPodTemplates by {
      forall i | 0 <= i < |files|
        ensures !IsPodTemplate(files[i], tree)
      {
      }
    }
  }

  /** A `.hbs` file is not a script. */
  lemma TemplateEntry(f: string)
    requires Text.EndsWith(f, ".hbs")
    ensures !Text.EndsWith(f, ".js")
  {
    assert f[|f| - 3] == 'h';
  }

  /** A file whose third-to-last character is neither the dot of `.js` nor the `h` of `.hbs`
      is neither a script nor a template. */
  lemma OtherEntry(f: string)
    requires |f| >= 3 && f[|f| - 3] != '.' && f[|f| - 3] != 'h'
    ensures !Text.EndsWith(f, ".js") && !Text.EndsWith(f, ".hbs") && !Text.EndsWith(f, "template.hbs")
  {
  }

  /** Templates under `templates/` only: templates, no pod templates, no scripts. */
  lemma TemplatesOnlyListing()
    ensures FileSystemInfoOf(["templates/", "templates/components/", "templates/components/foo-bar.hbs"], DefaultTemplates)
      == FileSystemInfo(false, true, false)
  {
    var files := ["templates/", "templates/components/", "templates/components/foo-bar.hbs"];
    assert Text.EndsWith(files[2], ".hbs");
    forall i | 0 <= i < |files|
      ensures !Text.EndsWith(files[i], ".js") && !IsPodTemplate(files[i], DefaultTemplates)
    {
      if i == 2 {
        TemplateEntry(files[i]);
        assert Text.StartsWith(files[i], "templates/");
      } else {
        DirectoryEntry(files[i]);
      }
    }
    TemplatesListing(files, DefaultTemplates, 2);
  }

  /** A listing with a template, no script and no pod template has templates only. */
  lemma TemplatesListing(files: seq<string>, tree: TemplatesTree, k: nat)
    requires tree.InAddonTree? && k < |files| && Text.EndsWith(files[k], ".hbs")
    requires forall i :: 0 <= i < |files| ==> !Text.EndsWith(files[i], ".js") && !IsPodTemplate(files[i], tree)
    ensures FileSystemInfoOf(files, tree) == FileSystemInfo(false, true, false)
  {
    var r := FileSystemInfoOf(files, tree);
    assert r.hasTemplates;
  }

  /** Neither scripts nor templates. */
  lemma NeitherListing()
    ensures FileSystemInfoOf(["components/", "templates/", "templates/components/", "styles/foo.css"], DefaultTemplates)
      == FileSystemInfo(false, false, false)
  {
    var files := ["components/", "templates/", "templates/components/", "styles/foo.css"];
    forall i | 0 <= i < |files|
      ensures !Text.EndsWith(files[i], ".js") && !Text.EndsWith(files[i], ".hbs") && !Text.EndsWith(files[i], "template.hbs")
    {
      if i < 3 {
        DirectoryEntry(files[i]);
      } else {
        OtherEntry(files[i]);
      }
    }
    PlainListing(files, DefaultTemplates);
  }

  /** A listing with no script, template or pod-template names has none of them. */
  lemma PlainListing(files: seq<string>, tree: TemplatesTree)
    requires tree.InAddonTree?
    requires forall i :: 0 <= i < |files| ==>
      !Text.EndsWith(files[i], ".js") && !Text.EndsWith(files[i], ".hbs") && !Text.EndsWith(files[i], "template.hbs")
    ensures FileSystemInfoOf(files, tree) == FileSystemInfo(false, false, false)
  {
    var r := FileSystemInfoOf(files, tree);
    assert !r.hasPodTemplates by {
      forall i | 0 <= i < |files|
        ensures !IsPodTemplate(files[i], tree)
      {
      }
    }
  }

  // ---------------------------------------------------------------- hintingEnabled

  /**
    `hintingEnabled()`: tests run by default when a test command is set (`EMBER_CLI_TEST_COMMAND`
    is a non-empty string) or the environment (`EMBER_ENV`) is not `production`, and hinting is
    off only when the app's `options.hinting` is exactly `false`.
  */
  function HintingEnabled(emberEnv: Option<string>, testCommand: Option<string>, hinting: JsValue): (r: bool)
    ensures !r <==> hinting == Bool(false) || (emberEnv == Some("production") && !TruthyString(testCommand))
  {
    var testsByDefault := TruthyString(testCommand) || emberEnv != Some("production");
    var explicitlyDisabled := hinting == Bool(false);
    testsByDefault && !explicitlyDisabled
  }

  /** The five columns of the table in the unit test. */
  lemma HintingTable()
    ensures HintingEnabled(Some("development"), Some("test"), Bool(true))
    ensures HintingEnabled(None, Some("test"), Bool(true))
    ensures !HintingEnabled(Some("production"), None, Bool(true))
    ensures !HintingEnabled(None, Some("test"), Bool(false))
    ensures HintingEnabled(None, Some("test"), Undefined)
  {
  }

  /** Only the boolean `false` turns hinting off: other falsy values do not. */
  lemma OnlyFalseDisables(emberEnv: Option<string>, testCommand: Option<string>, hinting: JsValue)
    requires !hinting.Bool?
    ensures HintingEnabled(emberEnv, testCommand, hinting) == HintingEnabled(emberEnv, testCommand, Bool(true))
  {
  }

  // ---------------------------------------------------------------- isDevelopingAddon

  /**
    `isDevelopingAddon()`: `EMBER_ADDON_ENV` is `development`, the addon's parent is the
    project itself, and the project's name is the addon's name.
  */
  function IsDevelopingAddon(addonEnv: Option<string>, parentIsProject: bool, projectName: string, addon: Addon): (r: bool)
    ensures addonEnv != Some("development") ==> !r
    ensures !parentIsProject ==> !r
    ensures addon.name != projectName ==> !r
    ensures addonEnv == Some("development") && parentIsProject && addon.name == projectName ==> r
  {
    addonEnv == Some("development") && parentIsProject && projectName == addon.name
  }

  /** The four cases of the unit test, for an addon named like the project. */
  lemma DevelopingAddonCases(root: string)
    ensures IsDevelopingAddon(Some("development"), true, "test-project", Addon("test-project", root))
    ensures !IsDevelopingAddon(None, true, "test-project", Addon("test-project", root))
    ensures !IsDevelopingAddon(Some("production"), true, "test-project", Addon("test-project", root))
    ensures !IsDevelopingAddon(Some("development"), true, "test-project", Addon("my-addon", root))
  {
  }

  /** Unset or set to anything but `development`, `EMBER_ADDON_ENV` means no addon is being
      developed, whatever its name, parent and root. */
  lemma NotDevelopingOutsideDevelopment(addonEnv: Option<string>, parentIsProject: bool, projectName: string, addon: Addon)
    requires addonEnv != Some("development")
    ensures !IsDevelopingAddon(addonEnv, parentIsProject, projectName, addon)
  {
  }

  /** An addon named differently from the project is never the one being developed. */
  lemma NotDevelopingOtherAddon(addonEnv: Option<string>, parentIsProject: bool, projectName: string, addon: Addon)
    requires addon.name != projectName
    ensures !IsDevelopingAddon(addonEnv, parentIsProject, projectName, addon)
  {
  }

  /** The addon's root plays no part in the decision. */
  lemma DevelopingIgnoresRoot(addonEnv: Option<string>, parentIsProject: bool, projectName: string, name: string, root1: string, root2: string)
    ensures IsDevelopingAddon(addonEnv, parentIsProject, projectName, Addon(name, root1))
      == IsDevelopingAddon(addonEnv, parentIsProject, projectName, Addon(name, root2))
  {
  }
}
