/** The default `normalizeEntityName` hook and how `install`/`uninstall` apply it. */
module EntityName {
  import opened Wrappers
  import opened Context
  import Text

  const MissingNameMessage: string :=
    "The `ember generate <entity-name>` command requires an entity name to be specified. For more details, use `ember help`."

  predicate HasTrailingSlash(name: string) {
    Text.EndsWith(name, "/") || Text.EndsWith(name, "\\")
  }

  const SpecifiedPrefix: string := "You specified \""
  const TrailingSlashMiddle: string :=
    "\", but you can't use a trailing slash as an entity name with generators. Please re-run the command with \""

  /** The error for `name`, suggesting that the command be re-run with `suggestion`. */
  function TrailingSlashMessage(name: string, suggestion: string): string {
    SpecifiedPrefix + name + TrailingSlashMiddle + suggestion + "\"."
  }

  /**
    The default hook: a missing or empty name is a `SilentError`, a name ending in `/` or `\`
    is an error suggesting the name without that character, any other name passes unchanged.
  */
  function DefaultNormalize(name: Option<string>): (r: Result<Option<string>, Error>)
    ensures r.Success? <==> TruthyString(name) && !HasTrailingSlash(name.value)
    ensures r.Success? ==> r.value == name
    ensures !TruthyString(name) ==> r == Failure(Error(SilentError, MissingNameMessage))
    ensures TruthyString(name) && HasTrailingSlash(name.value) ==>
      r == Failure(Error(PlainError, TrailingSlashMessage(name.value, name.value[..|name.value| - 1])))
  {
    if name.None? || name.value == "" then Failure(Error(SilentError, MissingNameMessage))
    else if HasTrailingSlash(name.value) then
      Failure(Error(PlainError, TrailingSlashMessage(name.value, name.value[..|name.value| - 1])))
    else
      Success(name)
  }

  /** The default hook is idempotent: a name it accepts is accepted again unchanged. */
  lemma DefaultNormalizeIdempotent(name: Option<string>)
    requires DefaultNormalize(name).Success?
    ensures DefaultNormalize(DefaultNormalize(name).value) == DefaultNormalize(name)
  {
  }

  /** The name the trailing-slash error suggests loses exactly one separator, so a name with a
      single trailing separator is accepted once it is re-run as suggested. */
  lemma SuggestedNameAccepted(base: string, sep: char)
    requires base != "" && !HasTrailingSlash(base)
    requires sep == '/' || sep == '\\'
    ensures DefaultNormalize(Some(base + [sep])).Failure?
    ensures DefaultNormalize(Some((base + [sep])[..|base|])) == Success(Some(base))
  {
    var s := base + [sep];
    assert s[..|base|] == base;
    assert s[|s| - 1..] == [sep];
  }

  /** `foo/` and `foo\` are rejected with a message suggesting `foo`. */
  lemma TrailingSeparatorRejected(sep: char)
    requires sep == '/' || sep == '\\'
    ensures DefaultNormalize(Some("foo" + [sep])) == Failure(Error(PlainError, TrailingSlashMessage("foo" + [sep], "foo")))
  {
    SuggestedNameAccepted("foo", sep);
    assert ("foo" + [sep])[..3] == "foo";
  }

  /** 'foo' is accepted as it is, and a missing or empty name is a `SilentError`. */
  lemma PlainAndMissingNames()
    ensures DefaultNormalize(Some("foo")) == Success(Some("foo"))
    ensures DefaultNormalize(None) == Failure(Error(SilentError, MissingNameMessage))
    ensures DefaultNormalize(Some("")) == Failure(Error(SilentError, MissingNameMessage))
  {
    assert !Text.EndsWith("foo", "/") by { assert "foo"[2..] != "/"; }
    assert !Text.EndsWith("foo", "\\") by { assert "foo"[2..] != "\\"; }
  }

  /**
    `_normalizeEntityName`: when `options.entity` is present its name is replaced by what the
    hook returns (the hook may fail); without an entity the options pass through untouched.
  */
  function NormalizeOptions(hook: Option<string> -> Result<Option<string>, Error>, options: Options): (r: Result<Options, Error>)
    ensures options.entity.None? ==> r == Success(options)
    ensures options.entity.Some? ==>
      (r.Success? <==> hook(options.entity.value.name).Success?)
    ensures options.entity.Some? && r.Success? ==>
      r.value == options.(entity := Some(Entity(hook(options.entity.value.name).value)))
  {
    match options.entity
    case None => Success(options)
    case Some(e) =>
      var name :- hook(e.name);
      Success(options.(entity := Some(Entity(name))))
  }
}
