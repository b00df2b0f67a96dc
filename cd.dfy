/** `cd` (src/lib/commands/cd.ts): move the current directory to a path that names a directory. */
module Cd {
  import opened Maybe
  import opened JsString
  import opened State
  import opened StateUtil

  /**
   * What `cd args` prints and leaves: an error without a target, for a path
   * that resolves to nothing and for one that names a file; otherwise the
   * current directory becomes the path of the node it names.
   */
  function CdEffect(s: Snapshot, args: seq<string>): (e: Effect)
    requires WellFormed(s.fileSystem)
    ensures e.state.fileSystem == s.fileSystem && e.state.homeDirectory == s.homeDirectory
  {
    if |args| == 0 then Effect("cd: missing argument", s)
    else
      var target := args[0];
      ResolveInTree(s, target);
      match Resolve(s, target)
      case None => Effect("cd: no such file or directory: " + target, s)
      case Some(n) =>
        if s.fileSystem.nodes[n].File? then Effect("cd: not a directory: " + target, s)
        else Effect("", s.(currentDirectory := PathOf(s.fileSystem, n)))
  }

  /** `cd(args, systemState)`: resolves the target, then rewrites the current directory from the node's path. */
  method Cd(args: seq<string>, st: SystemState) returns (output: string)
    requires st.Valid()
    modifies st`currentDirectory
    ensures st.Valid()
    ensures Effect(output, st.View()) == CdEffect(old(st.View()), args)
  {
    if |args| == 0 {
      return "cd: missing argument";
    }
    var target := args[0];
    var newFileNode := ResolvePath(st.View(), target);
    if newFileNode.None? {
      return "cd: no such file or directory: " + target;
    }
    if st.fileSystem.nodes[newFileNode.value].File? {
      return "cd: not a directory: " + target;
    }
    var newPath := GetFilePath(st.fileSystem, newFileNode.value);
    st.currentDirectory := newPath;
    return "";
  }

  /**
   * `cd` succeeds, printing nothing, exactly when it has a target that
   * resolves to a directory or the root; when it fails nothing changes.
   */
  lemma CdOutcome(s: Snapshot, args: seq<string>)
    requires WellFormed(s.fileSystem)
    ensures CdEffect(s, args).output == "" <==> |args| > 0 && DirectoryAt(s.fileSystem, Resolve(s, args[0]))
    ensures CdEffect(s, args).output != "" ==> CdEffect(s, args).state == s
  {
    if |args| > 0 {
      ResolveInTree(s, args[0]);
    }
  }

  /**
   * After a successful `cd` the shell is in the directory the target named:
   * the new current directory walks back to it, and the shell stays
   * consistent.
   */
  lemma CdArrives(s: Snapshot, args: seq<string>)
    requires Consistent(s)
    ensures Consistent(CdEffect(s, args).state)
    ensures CdEffect(s, args).output == "" ==>
              Lookup(s.fileSystem, CdEffect(s, args).state.currentDirectory) == Resolve(s, args[0])
  {
    if |args| > 0 {
      ResolveInTree(s, args[0]);
      var r := Resolve(s, args[0]);
      if r.Some? && !s.fileSystem.nodes[r.value].File? {
        PathOfRoundTrip(s.fileSystem, r.value);
      }
    }
  }

  /** `..` from the root has nowhere to go. */
  lemma CdUpFromRoot(s: Snapshot)
    requires WellFormed(s.fileSystem) && s.currentDirectory == []
    ensures CdEffect(s, [".."]) == Effect("cd: no such file or directory: ..", s)
  {
    SplitPlain("..", '/');
    DotSegments(s.fileSystem, s.fileSystem.root, []);
    assert Segments(s, "..") == [".."];
  }
}
