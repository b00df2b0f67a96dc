/** `echo` (src/lib/commands/echo.ts): print the arguments. */
module Echo {
  import opened JsString

  /** `echo(args, systemState)`: the arguments joined by single spaces. */
  function Echo(args: seq<string>): (output: string)
  {
    Join(args, " ")
  }

  /** Splitting the output on spaces gives the arguments back when none of them holds a space. */
  lemma EchoRoundTrip(args: seq<string>)
    requires |args| >= 1 && forall i :: 0 <= i < |args| ==> ' ' !in args[i]
    ensures Split(Echo(args), ' ') == args
  {
    SplitJoin(args, ' ');
  }

  /** Echoing the pieces of a line split on spaces gives the line back, spaces included. */
  lemma EchoOfSplit(line: string)
    ensures Echo(Split(line, ' ')) == line
  {
  }
}
