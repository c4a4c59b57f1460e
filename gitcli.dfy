/**
 * The `git` helper of index.js. The git executable itself is outside the
 * model: `Oracle` gives, for an argument vector, what git prints on standard
 * output in the repository at hand.
 */
module GitCli {
  import opened JsText

  type Oracle = seq<string> -> string

  /** `git(...args)`: git's output with trailing white space removed. */
  function Git(repo: Oracle, args: seq<string>): (out: string)
    ensures |out| <= |repo(args)| && out == repo(args)[..|out|] && AllSpace(repo(args)[|out|..])
    ensures out == "" || !IsSpace(out[|out| - 1])
  {
    TrimEnd(repo(args))
  }
}
