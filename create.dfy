/**
 * What `mkdir` and `touch` share (src/lib/commands/mkdir.ts,
 * src/lib/commands/touch.ts): the last piece of the target is the new
 * name, everything before it is the parent's path, and a new node of that
 * name is pushed onto the parent's children unless one exists. The two
 * commands differ only in the kind of node and the words of two messages.
 */
module Create {
  import opened Maybe
  import opened JsString
  import opened State
  import opened StateUtil
  import opened TreeEdit

  datatype Kind = DirectoryKind | FileKind

  /** The node `mkdir` (an empty directory) or `touch` (an empty file) pushes below `p`. */
  function NewNode(kind: Kind, name: string, p: NodeId): (n: Node)
    ensures NewChild(n, p) && n.name == name
  {
    match kind
    case DirectoryKind => Directory(name, [], p)
    case FileKind => File(name, "", p)
  }

  /** `target.substring(0, target.length - newName.length)`: the target up to its last piece. */
  function ParentPath(target: string): (r: string)
    ensures r + LastPiece(target, '/') == target
    ensures r != "" ==> r[|r| - 1] == '/'
  {
    target[..|target| - |LastPiece(target, '/')|]
  }

  /**
   * What `cmd args` prints and leaves, `cmd` being `mkdir` or `touch` and
   * `noun` the word its invalid-name message uses: an error without a
   * target, for a target that ends in `/` or is empty, for a parent that
   * resolves to nothing or to a file, and for a name the parent already
   * holds; otherwise the new node is pushed onto the parent's children.
   */
  function CreateEffect(s: Snapshot, args: seq<string>, cmd: string, noun: string, kind: Kind): (e: Effect)
    requires ValidTree(s.fileSystem)
    ensures e.state.currentDirectory == s.currentDirectory && e.state.homeDirectory == s.homeDirectory
    ensures ValidTree(e.state.fileSystem)
  {
    if |args| == 0 then Effect(cmd + ": missing argument", s)
    else
      var target := args[0];
      var name := LastPiece(target, '/');
      if name == "" then Effect(cmd + ": invalid " + noun + " name: " + target, s)
      else
        var parentPath := ParentPath(target);
        ResolveInTree(s, parentPath);
        match Resolve(s, parentPath)
        case None => Effect(cmd + ": no such file or directory: " + parentPath, s)
        case Some(p) =>
          if s.fileSystem.nodes[p].File? then Effect(cmd + ": not a directory: " + parentPath, s)
          else if FindChild(s.fileSystem.nodes, s.fileSystem.nodes[p].children, name).Some? then
            Effect(cmd + ": " + target + ": file exists", s)
          else
            AddChildValid(s.fileSystem, p, NewNode(kind, name, p));
            Effect("", s.(fileSystem := AddChild(s.fileSystem, p, NewNode(kind, name, p))))
  }

  /** The body shared by `mkdir(args, systemState)` and `touch(args, systemState)`. */
  method CreateNode(args: seq<string>, st: SystemState, cmd: string, noun: string, kind: Kind) returns (output: string)
    requires st.Valid()
    modifies st`fileSystem
    ensures st.Valid()
    ensures Effect(output, st.View()) == CreateEffect(old(st.View()), args, cmd, noun, kind)
  {
    if |args| == 0 {
      return cmd + ": missing argument";
    }
    var target := args[0];
    var newName := LastPiece(target, '/');
    if newName == "" {
      return cmd + ": invalid " + noun + " name: " + target;
    }
    var parentPath := target[..|target| - |newName|];
    var parentNode := ResolvePath(st.View(), parentPath);
    if parentNode.None? {
      return cmd + ": no such file or directory: " + parentPath;
    }
    var p := parentNode.value;
    if st.fileSystem.nodes[p].File? {
      return cmd + ": not a directory: " + parentPath;
    }
    var existingNode := FindChild(st.fileSystem.nodes, st.fileSystem.nodes[p].children, newName);
    if existingNode.Some? {
      return cmd + ": " + target + ": file exists";
    }
    AddChildValid(st.fileSystem, p, NewNode(kind, newName, p));
    st.fileSystem := AddChild(st.fileSystem, p, NewNode(kind, newName, p));
    return "";
  }

  /** The conditions under which the node is created. */
  ghost predicate Creates(s: Snapshot, args: seq<string>)
  {
    && |args| > 0 && LastPiece(args[0], '/') != ""
    && DirectoryAt(s.fileSystem, Resolve(s, ParentPath(args[0])))
    && FindChild(s.fileSystem.nodes, s.fileSystem.nodes[Resolve(s, ParentPath(args[0])).value].children,
                 LastPiece(args[0], '/')).None?
  }

  /** When the checks pass, the command prints nothing and pushes the new node below the parent the target names. */
  lemma CreateSucceeds(s: Snapshot, args: seq<string>, cmd: string, noun: string, kind: Kind)
    requires ValidTree(s.fileSystem) && Creates(s, args)
    ensures var p := Resolve(s, ParentPath(args[0])).value;
            var node := NewNode(kind, LastPiece(args[0], '/'), p);
            && CanAdd(s.fileSystem, p, node)
            && CreateEffect(s, args, cmd, noun, kind) == Effect("", s.(fileSystem := AddChild(s.fileSystem, p, node)))
  {
    ResolveInTree(s, ParentPath(args[0]));
  }

  /**
   * The command succeeds, printing nothing, exactly when it creates the
   * node; when it fails nothing changes. When it succeeds the new node is
   * the last child of the parent the target names, with the target's last
   * piece as its name, and every other record stays as it was.
   */
  lemma CreateOutcome(s: Snapshot, args: seq<string>, cmd: string, noun: string, kind: Kind)
    requires ValidTree(s.fileSystem) && cmd != ""
    ensures CreateEffect(s, args, cmd, noun, kind).output == "" <==> Creates(s, args)
    ensures !Creates(s, args) ==> CreateEffect(s, args, cmd, noun, kind).state == s
    ensures Creates(s, args) ==>
              var p := Resolve(s, ParentPath(args[0])).value;
              var fs := s.fileSystem;
              var r := CreateEffect(s, args, cmd, noun, kind).state.fileSystem;
              && r.nodes.Keys == fs.nodes.Keys + {fs.next}
              && r.nodes[fs.next] == NewNode(kind, LastPiece(args[0], '/'), p)
              && r.nodes[p].children == fs.nodes[p].children + [fs.next]
              && (forall k :: k in fs.nodes && k != p ==> r.nodes[k] == fs.nodes[k])
  {
    if Creates(s, args) {
      CreateAdds(s, args, cmd, noun, kind);
    } else {
      CreateRefuses(s, args, cmd, noun, kind);
    }
  }

  /** What a successful run leaves: the tree with the new node pushed onto the parent's children. */
  lemma CreateAdds(s: Snapshot, args: seq<string>, cmd: string, noun: string, kind: Kind)
    requires ValidTree(s.fileSystem) && Creates(s, args)
    ensures var p := Resolve(s, ParentPath(args[0])).value;
            var fs := s.fileSystem;
            var e := CreateEffect(s, args, cmd, noun, kind);
            && e.output == ""
            && e.state.fileSystem.nodes.Keys == fs.nodes.Keys + {fs.next}
            && e.state.fileSystem.nodes[fs.next] == NewNode(kind, LastPiece(args[0], '/'), p)
            && e.state.fileSystem.nodes[p].children == fs.nodes[p].children + [fs.next]
            && (forall k :: k in fs.nodes && k != p ==> e.state.fileSystem.nodes[k] == fs.nodes[k])
  {
    var p := Resolve(s, ParentPath(args[0])).value;
    var node := NewNode(kind, LastPiece(args[0], '/'), p);
    CreateSucceeds(s, args, cmd, noun, kind);
    PushShape(s.fileSystem, p, node);
  }

  /** The records after a push: one more key, the new record, the parent's longer list, the rest as they were. */
  lemma PushShape(fs: FileSystem, p: NodeId, node: Node)
    requires CanAdd(fs, p, node)
    ensures var r := AddChild(fs, p, node);
            && r.nodes.Keys == fs.nodes.Keys + {fs.next}
            && r.nodes[fs.next] == node
            && !r.nodes[p].File? && r.nodes[p].children == fs.nodes[p].children + [fs.next]
            && (forall k :: k in fs.nodes && k != p ==> r.nodes[k] == fs.nodes[k])
  {
    AddFrame(fs, p, node);
  }

  /** When a check fails the command prints a message and changes nothing. */
  lemma CreateRefuses(s: Snapshot, args: seq<string>, cmd: string, noun: string, kind: Kind)
    requires ValidTree(s.fileSystem) && cmd != "" && !Creates(s, args)
    ensures CreateEffect(s, args, cmd, noun, kind).output != ""
    ensures CreateEffect(s, args, cmd, noun, kind).state == s
  {
    if |args| > 0 {
      ResolveInTree(s, ParentPath(args[0]));
    }
  }

  /** Creating a node with a name a path can reach keeps the shell consistent. */
  lemma CreateKeepsConsistent(s: Snapshot, args: seq<string>, cmd: string, noun: string, kind: Kind)
    requires Consistent(s)
    requires |args| > 0 ==> PlainName(LastPiece(args[0], '/'))
    ensures Consistent(CreateEffect(s, args, cmd, noun, kind).state)
  {
    if |args| > 0 {
      ResolveInTree(s, ParentPath(args[0]));
      if Creates(s, args) {
        var fs := s.fileSystem;
        var p := Resolve(s, ParentPath(args[0])).value;
        var node := NewNode(kind, LastPiece(args[0], '/'), p);
        CreateSucceeds(s, args, cmd, noun, kind);
        AddChildValid(fs, p, node);
        var r := AddChild(fs, p, node);
        EmbedsWalk(fs.nodes, r.nodes, fs.root, s.currentDirectory);
        AddFrame(fs, p, node);
      }
    }
  }

  /**
   * A target with a `/` in it names the new node once it exists: resolving
   * it afterwards gives the new node, when its last piece is a name a path
   * can reach.
   */
  lemma CreateResolves(s: Snapshot, args: seq<string>, cmd: string, noun: string, kind: Kind)
    requires ValidTree(s.fileSystem) && Creates(s, args)
    requires ParentPath(args[0]) != "" && PlainName(LastPiece(args[0], '/'))
    ensures var after := CreateEffect(s, args, cmd, noun, kind).state;
            Resolve(after, args[0]) == Some(s.fileSystem.next)
  {
    var target := args[0];
    var name := LastPiece(target, '/');
    var parentPath := ParentPath(target);
    var p := Resolve(s, parentPath).value;
    CreateSucceeds(s, args, cmd, noun, kind);
    var x := parentPath[..|parentPath| - 1];
    assert x + "/" == parentPath;
    assert x + "/" + name == target;
    AddedResolves(s, x, p, NewNode(kind, name, p));
  }

  /** After a push below the directory `x/` resolves to, `x/name` resolves to the new node. */
  lemma AddedResolves(s: Snapshot, x: string, p: NodeId, node: Node)
    requires CanAdd(s.fileSystem, p, node) && Resolve(s, x + "/") == Some(p) && PlainName(node.name)
    ensures Resolve(s.(fileSystem := AddChild(s.fileSystem, p, node)), x + "/" + node.name) == Some(s.fileSystem.next)
  {
    var r := AddChild(s.fileSystem, p, node);
    AddChildValid(s.fileSystem, p, node);
    ResolveEmbeds(s, r, x + "/");
    ResolveChildPath(s.(fileSystem := r), x, node.name);
  }

  /**
   * A target without a `/` has the empty parent path, which resolves to the
   * root: the new node goes below the root, not below the current directory.
   */
  lemma CreateBareName(s: Snapshot, args: seq<string>, cmd: string, noun: string, kind: Kind)
    requires ValidTree(s.fileSystem) && |args| > 0 && '/' !in args[0]
    ensures ParentPath(args[0]) == ""
    ensures Creates(s, args) ==>
              CreateEffect(s, args, cmd, noun, kind).state.fileSystem.nodes[s.fileSystem.next].parent == s.fileSystem.root
  {
    var target := args[0];
    if |LastPiece(target, '/')| < |target| {
      assert false;
    }
    ResolveEmpty(s);
    if Creates(s, args) {
      AddFrame(s.fileSystem, s.fileSystem.root, NewNode(kind, LastPiece(target, '/'), s.fileSystem.root));
    }
  }

  /**
   * A node named `.` or `..` that has no children is never the end of a
   * walk that starts elsewhere: those segments are read as navigation, and
   * the node is no node's parent.
   */
  lemma {:induction false} DotNamedUnreachable(fs: FileSystem, id: NodeId, current: NodeId, path: seq<string>)
    requires WellFormed(fs) && id in fs.nodes && !fs.nodes[id].Root? && current != id
    requires fs.nodes[id].name == "." || fs.nodes[id].name == ".."
    requires fs.nodes[id].File? || fs.nodes[id].children == []
    ensures Walk(fs.nodes, current, path) != Some(id)
    decreases |path|
  {
    if path != [] {
      var step := Step(fs.nodes, current, path[0]);
      if step.Some? {
        var seg := path[0];
        if seg == ".." {
          assert ParentLinked(fs.nodes, current);
        }
        DotNamedUnreachable(fs, id, step.value, path[1..]);
      }
    }
  }

  /** A node created under the name `.` or `..` can never be reached by any path. */
  lemma CreateDotUnreachable(s: Snapshot, args: seq<string>, cmd: string, noun: string, kind: Kind)
    requires ValidTree(s.fileSystem) && Creates(s, args)
    requires LastPiece(args[0], '/') == "." || LastPiece(args[0], '/') == ".."
    ensures var after := CreateEffect(s, args, cmd, noun, kind).state;
            forall path :: Lookup(after.fileSystem, path) != Some(s.fileSystem.next)
  {
    var fs := s.fileSystem;
    ResolveInTree(s, ParentPath(args[0]));
    var p := Resolve(s, ParentPath(args[0])).value;
    var node := NewNode(kind, LastPiece(args[0], '/'), p);
    AddChildValid(fs, p, node);
    AddFrame(fs, p, node);
    var r := AddChild(fs, p, node);
    forall path ensures Lookup(r, path) != Some(fs.next) {
      DotNamedUnreachable(r, fs.next, r.root, path);
    }
  }

  /** Once the node exists, its parent path still resolves to the same directory, which now has a child of that name. */
  lemma CreatedIsFound(s: Snapshot, args: seq<string>, cmd: string, noun: string, kind: Kind)
    requires ValidTree(s.fileSystem) && Creates(s, args)
    ensures var after := CreateEffect(s, args, cmd, noun, kind).state;
            var p := Resolve(s, ParentPath(args[0])).value;
            && Resolve(after, ParentPath(args[0])) == Some(p)
            && p in after.fileSystem.nodes && !after.fileSystem.nodes[p].File?
            && FindChild(after.fileSystem.nodes, after.fileSystem.nodes[p].children, LastPiece(args[0], '/')).Some?
  {
    var p := Resolve(s, ParentPath(args[0])).value;
    CreateSucceeds(s, args, cmd, noun, kind);
    AddedIsFound(s, ParentPath(args[0]), p, NewNode(kind, LastPiece(args[0], '/'), p));
  }

  /** Adding a child below the directory a path resolves to leaves the path resolving there, and the directory holds the child. */
  lemma AddedIsFound(s: Snapshot, path: string, p: NodeId, node: Node)
    requires CanAdd(s.fileSystem, p, node) && Resolve(s, path) == Some(p)
    ensures var r := AddChild(s.fileSystem, p, node);
            && Resolve(s.(fileSystem := r), path) == Some(p)
            && p in r.nodes && !r.nodes[p].File?
            && FindChild(r.nodes, r.nodes[p].children, node.name).Some?
  {
    var r := AddChild(s.fileSystem, p, node);
    AddChildValid(s.fileSystem, p, node);
    AddFrame(s.fileSystem, p, node);
    ResolveEmbeds(s, r, path);
    var cs := r.nodes[p].children;
    assert cs[|cs| - 1] == s.fileSystem.next && HasName(r.nodes, cs[|cs| - 1], node.name);
  }

  /** Repeating a successful `mkdir` or `touch` fails with "file exists" and changes nothing. */
  lemma CreateTwice(s: Snapshot, args: seq<string>, cmd: string, noun: string, kind: Kind)
    requires ValidTree(s.fileSystem) && Creates(s, args)
    ensures var after := CreateEffect(s, args, cmd, noun, kind).state;
            CreateEffect(after, args, cmd, noun, kind) == Effect(cmd + ": " + args[0] + ": file exists", after)
  {
    CreatedIsFound(s, args, cmd, noun, kind);
  }
}
