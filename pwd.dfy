/** `pwd` (src/lib/commands/pwd.ts): print the current directory as an absolute path. */
module Pwd {
  import opened JsString
  import opened State
  import opened StateUtil

  /** `pwd(args, systemState)`: `currentDirectoryPath` without replacing the home directory. */
  function Pwd(s: Snapshot, args: seq<string>): (output: string)
    ensures output != [] && output[0] == '/'
  {
    CurrentDirectoryPath(s, false)
  }

  /**
   * What `pwd` prints is an absolute path that names the current directory
   * from anywhere: resolved with any other current and home directory it
   * still leads to the node the shell is in. The arguments are not read.
   */
  lemma PwdResolves(s: Snapshot, args: seq<string>, cwd: seq<string>, home: seq<string>)
    requires Consistent(s)
    ensures Resolve(Snapshot(s.fileSystem, cwd, home), Pwd(s, args)) == Lookup(s.fileSystem, s.currentDirectory)
  {
    RenderedPathResolves(s);
    ResolveAbsolute(s, Pwd(s, args), cwd, home);
  }
}
