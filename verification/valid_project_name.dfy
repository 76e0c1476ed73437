/** The project-name check of `lib/utilities/valid-project-name.js`. */
module ValidProjectName {
  import opened Wrappers
  import Text

  const ReservedNames: seq<string> := ["test", "ember", "vendor"]

  /** The index of `x` in `xs`, like `Array.prototype.indexOf`; `None` stands for -1. */
  function IndexIn(xs: seq<string>, x: string): (r: Option<nat>)
    ensures r.None? <==> x !in xs
    ensures r.Some? ==> r.value < |xs| && xs[r.value] == x
  {
    if |xs| == 0 then None
    else if xs[0] == x then Some(0)
    else match IndexIn(xs[1..], x)
      case None => None
      case Some(i) => Some(i + 1)
  }

  /** A name is rejected when it is reserved or contains a dot. */
  function IsValidProjectName(name: string): (r: bool)
    ensures r <==> name != "test" && name != "ember" && name != "vendor" && '.' !in name
  {
    if IndexIn(ReservedNames, name).Some? then false
    else if Text.IndexOfChar(name, '.').Some? then false
    else true
  }

  /** Every dotted name is rejected, the lone "." included, and the empty name is accepted. */
  lemma DotsRejectedEmptyAccepted(a: string, b: string)
    ensures !IsValidProjectName(a + "." + b)
    ensures !IsValidProjectName(".")
    ensures IsValidProjectName("")
  {
    assert (a + "." + b)[|a|] == '.';
  }
}
