/** What the command lines of both scripts share. */
module Cli {

  /** The file suffix a Wabbajack modlist container carries. */
  const ARCHIVE_SUFFIX := ".wabbajack"

  const NOT_AN_ARCHIVE := "The file you provided is not a Wabbajack mod archive."

  /** Python's `str.endswith`: `s` is some string followed by `suffix`. */
  predicate EndsWith(s: string, suffix: string)
    ensures EndsWith(s, suffix) <==> exists head :: s == head + suffix
  {
    assert |suffix| <= |s| && s[|s| - |suffix|..] == suffix ==> s == s[..|s| - |suffix|] + suffix;
    |suffix| <= |s| && s[|s| - |suffix|..] == suffix
  }

  predicate IsHelpFlag(arg: string)
  {
    arg == "-h" || arg == "--help"
  }

  /** How the entry point reacts to its arguments: it stops with a message and
      an exit status, or it runs on the given container paths. */
  datatype Invocation =
    | Exit(message: string, status: int)
    | Proceed(containers: seq<string>)
}
