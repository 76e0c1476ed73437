/**
  The casing and inflection helpers the blueprint engine uses (`dasherize`, `classify`,
  `camelize`, `decamelize` from the string utilities and the inflector's `pluralize`).
  Their implementations are not part of this model: an `Inflector` is any record of
  functions, and `AgreesWithTests` pins down only the values the test suite relies on.
*/
module Inflector {

  datatype Inflector = Inflector(
    dasherize: string -> string,
    classify: string -> string,
    camelize: string -> string,
    decamelize: string -> string,
    pluralize: string -> string)

  /** The example values the test suite asserts for the casing helpers. */
  predicate AgreesWithTests(inf: Inflector) {
    && inf.dasherize("mock-project") == "mock-project"
    && inf.classify("mock-project") == "MockProject"
    && inf.camelize("mock-project") == "mockProject"
    && inf.decamelize("mock-project") == "mock-project"
    && inf.dasherize("foo") == "foo"
    && inf.classify("foo") == "Foo"
    && inf.camelize("foo") == "foo"
    && inf.decamelize("foo") == "foo"
    && inf.dasherize("foo-baz") == "foo-baz"
    && inf.dasherize("dummy") == "dummy"
    && inf.classify("dummy") == "Dummy"
    && inf.pluralize("test") == "tests"
  }

  /** An inflector that gives the values the repository's tests expect and leaves every other input unchanged. */
  function Example(): (inf: Inflector)
    ensures AgreesWithTests(inf)
  {
    Inflector(
      s => s,
      s => if s == "mock-project" then "MockProject"
           else if s == "foo" then "Foo"
           else if s == "dummy" then "Dummy"
           else s,
      s => if s == "mock-project" then "mockProject" else s,
      s => s,
      s => s + "s")
  }
}
