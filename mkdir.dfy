/** `mkdir` (src/lib/commands/mkdir.ts): create an empty directory. */
module Mkdir {
  import opened Maybe
  import opened JsString
  import opened State
  import opened StateUtil
  import opened TreeEdit
  import opened Create
  import Cd

  /** What `mkdir args` prints and leaves: the shared creation with an empty directory. */
  function MkdirEffect(s: Snapshot, args: seq<string>): (e: Effect)
    requires ValidTree(s.fileSystem)
    ensures e.state.currentDirectory == s.currentDirectory && ValidTree(e.state.fileSystem)
  {
    CreateEffect(s, args, "mkdir", "directory", DirectoryKind)
  }

  /** `mkdir(args, systemState)`. */
  method Mkdir(args: seq<string>, st: SystemState) returns (output: string)
    requires st.Valid()
    modifies st`fileSystem
    ensures st.Valid()
    ensures Effect(output, st.View()) == MkdirEffect(old(st.View()), args)
  {
    output := CreateNode(args, st, "mkdir", "directory", DirectoryKind);
  }

  /** After `mkdir a/b` succeeds, `cd a/b` succeeds and lands in the new directory. */
  lemma MkdirThenCd(s: Snapshot, args: seq<string>)
    requires Consistent(s) && Creates(s, args)
    requires ParentPath(args[0]) != "" && PlainName(LastPiece(args[0], '/'))
    ensures var after := MkdirEffect(s, args).state;
            var moved := Cd.CdEffect(after, [args[0]]);
            moved.output == "" && Lookup(after.fileSystem, moved.state.currentDirectory) == Some(s.fileSystem.next)
  {
    var after := MkdirEffect(s, args).state;
    CreateResolves(s, args, "mkdir", "directory", DirectoryKind);
    CreateOutcome(s, args, "mkdir", "directory", DirectoryKind);
    CreateKeepsConsistent(s, args, "mkdir", "directory", DirectoryKind);
    Cd.CdOutcome(after, [args[0]]);
    Cd.CdArrives(after, [args[0]]);
  }

  /**
   * `mkdir name` with no `/` creates the directory below the root, wherever
   * the shell is: afterwards `/name` names it.
   */
  lemma MkdirBareName(s: Snapshot, name: string)
    requires Consistent(s) && '/' !in name && PlainName(name)
    requires FindChild(s.fileSystem.nodes, s.fileSystem.nodes[s.fileSystem.root].children, name).None?
    ensures MkdirEffect(s, [name]).output == ""
    ensures Resolve(MkdirEffect(s, [name]).state, "/" + name) == Some(s.fileSystem.next)
  {
    var fs := s.fileSystem;
    CreateBareName(s, [name], "mkdir", "directory", DirectoryKind);
    assert LastPiece(name, '/') == name;
    ResolveEmpty(s);
    assert Creates(s, [name]);
    CreateOutcome(s, [name], "mkdir", "directory", DirectoryKind);
    var node := Directory(name, [], fs.root);
    AddChildValid(fs, fs.root, node);
    var after := MkdirEffect(s, [name]).state;
    assert after.fileSystem == AddChild(fs, fs.root, node);
    ResolveAbsolute(after, "/" + name, after.currentDirectory, after.homeDirectory);
    assert ("/" + name)[1..] == name;
    SplitPlain(name, '/');
    DotSegments(after.fileSystem, fs.root, [name]);
  }

  /** `mkdir .` succeeds, but no path can ever reach the directory it creates. */
  lemma MkdirDotUnreachable(s: Snapshot)
    requires Consistent(s)
    ensures MkdirEffect(s, ["."]).output == ""
    ensures forall path :: Lookup(MkdirEffect(s, ["."]).state.fileSystem, path) != Some(s.fileSystem.next)
  {
    var fs := s.fileSystem;
    CreateBareName(s, ["."], "mkdir", "directory", DirectoryKind);
    assert LastPiece(".", '/') == ".";
    ResolveEmpty(s);
    assert fs.root in fs.nodes;
    forall c | c in fs.nodes[fs.root].children ensures !HasName(fs.nodes, c, ".") {
      assert ChildrenLinked(fs.nodes, fs.root);
    }
    assert Creates(s, ["."]);
    CreateOutcome(s, ["."], "mkdir", "directory", DirectoryKind);
    CreateDotUnreachable(s, ["."], "mkdir", "directory", DirectoryKind);
  }
}
