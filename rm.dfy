/**
 * `rm` (src/lib/commands/rm.ts): an optional first argument of flags, then
 * a target. Without `-r` only files are removed, with it only directories;
 * the target is filtered out of its parent's children, and when the
 * current directory no longer resolves the shell moves to that parent.
 */
module Rm {
  import opened Maybe
  import opened JsString
  import opened State
  import opened StateUtil
  import opened TreeEdit

  /** The outcome of the flag loop: the mode it settles on, or the first flag it rejects. */
  datatype FlagScan = Flags(removingFile: bool) | InvalidOption(flag: char)

  /** The flags `rm` accepts. */
  predicate RmFlag(c: char)
  {
    c == 'r' || c == 'f'
  }

  /** The flag loop from a given mode: `r` clears the mode, `f` keeps it, anything else stops the loop. */
  function ScanFlags(flags: string, removingFile: bool): FlagScan
  {
    if flags == [] then Flags(removingFile)
    else if flags[0] == 'r' then ScanFlags(flags[1..], false)
    else if flags[0] == 'f' then ScanFlags(flags[1..], removingFile)
    else InvalidOption(flags[0])
  }

  /** The loop over `args[0].slice(1).split('')`. */
  method ParseFlags(flags: string) returns (r: FlagScan)
    ensures r == ScanFlags(flags, true)
  {
    var removingFile := true;
    for i := 0 to |flags|
      invariant ScanFlags(flags, true) == ScanFlags(flags[i..], removingFile)
    {
      assert flags[i..][1..] == flags[i + 1..];
      if flags[i] == 'r' {
        removingFile := false;
      } else if flags[i] == 'f' {
        continue;
      } else {
        return InvalidOption(flags[i]);
      }
    }
    assert flags[|flags|..] == [];
    return Flags(removingFile);
  }

  /**
   * The flags are accepted exactly when every one is `r` or `f`; the mode
   * stays "files only" exactly when no `r` occurs; a rejected flag is the
   * first one that is neither.
   */
  lemma {:induction false} ScanFlagsMeaning(flags: string, removingFile: bool)
    ensures ScanFlags(flags, removingFile).Flags? <==> forall i :: 0 <= i < |flags| ==> RmFlag(flags[i])
    ensures ScanFlags(flags, removingFile).Flags? ==>
              (ScanFlags(flags, removingFile).removingFile <==> removingFile && 'r' !in flags)
    ensures ScanFlags(flags, removingFile).InvalidOption? ==>
              exists i :: 0 <= i < |flags| && flags[i] == ScanFlags(flags, removingFile).flag && !RmFlag(flags[i])
                          && forall j :: 0 <= j < i ==> RmFlag(flags[j])
  {
    if flags != [] {
      var rest := flags[1..];
      if RmFlag(flags[0]) {
        ScanFlagsMeaning(rest, if flags[0] == 'r' then false else removingFile);
        assert forall i :: 1 <= i < |flags| ==> flags[i] == rest[i - 1];
        assert flags == [flags[0]] + rest;
        if ScanFlags(flags, removingFile).InvalidOption? {
          var i :| 0 <= i < |rest| && rest[i] == ScanFlags(flags, removingFile).flag && !RmFlag(rest[i])
                   && forall j :: 0 <= j < i ==> RmFlag(rest[j]);
          assert flags[i + 1] == rest[i];
        }
      } else {
        assert !RmFlag(flags[0]);
      }
    }
  }

  const MissingArgument := "rm: missing argument"
  const CannotRemoveRoot := "rm: cannot remove root directory"

  /** The flags of the first argument, when it starts with `-`; files only otherwise. */
  function FirstFlags(args: seq<string>): FlagScan
    requires |args| > 0
  {
    if StartsWith(args[0], "-") then ScanFlags(args[0][1..], true) else Flags(true)
  }

  /** The arguments left once a first argument of flags is shifted off. */
  function Operands(args: seq<string>): seq<string>
    requires |args| > 0
  {
    if StartsWith(args[0], "-") then args[1..] else args
  }

  /**
   * What `rm args` prints and leaves: errors for a missing argument (before
   * and after the flags), a rejected flag, a target that resolves to
   * nothing, the root, a directory without `-r` and a file with it;
   * otherwise the target is filtered out of its parent's children and, if
   * the current directory no longer resolves, the parent's path becomes it.
   */
  function RmEffect(s: Snapshot, args: seq<string>): (e: Effect)
    requires ValidTree(s.fileSystem)
    ensures e.state.homeDirectory == s.homeDirectory
    ensures ValidTree(e.state.fileSystem)
  {
    if |args| == 0 then Effect(MissingArgument, s)
    else
      match FirstFlags(args)
      case InvalidOption(c) => Effect("rm: invalid option -- '" + [c] + "'", s)
      case Flags(removingFile) =>
        var operands := Operands(args);
        if |operands| == 0 then Effect(MissingArgument, s)
        else RemoveTarget(s, operands[0], removingFile)
  }

  /** The part of `rm` after the flags: resolve, check the kind, then filter and fix the current directory. */
  function RemoveTarget(s: Snapshot, target: string, removingFile: bool): (e: Effect)
    requires ValidTree(s.fileSystem)
    ensures e.state.homeDirectory == s.homeDirectory
    ensures ValidTree(e.state.fileSystem)
  {
    var fs := s.fileSystem;
    ResolveInTree(s, target);
    match Resolve(s, target)
    case None => Effect("rm: no such file or directory: " + target, s)
    case Some(n) =>
      if fs.nodes[n].Root? then Effect(CannotRemoveRoot, s)
      else if removingFile && !fs.nodes[n].File? then Effect("rm: '" + target + "': is a directory", s)
      else if !removingFile && !fs.nodes[n].Directory? then Effect("rm: not a directory: " + target, s)
      else
        assert ParentLinked(fs.nodes, n);
        var parent := fs.nodes[n].parent;
        RemoveNamedValid(fs, parent, fs.nodes[n].name);
        var after := RemoveNamed(fs, parent, fs.nodes[n].name);
        var cwd := if Lookup(after, s.currentDirectory).None? then PathOf(after, parent) else s.currentDirectory;
        Effect("", Snapshot(after, cwd, s.homeDirectory))
  }

  /** `rm(args, systemState)`. */
  method Rm(args: seq<string>, st: SystemState) returns (output: string)
    requires st.Valid()
    modifies st`fileSystem, st`currentDirectory
    ensures st.Valid()
    ensures Effect(output, st.View()) == RmEffect(old(st.View()), args)
  {
    if |args| == 0 {
      return MissingArgument;
    }
    var removingFile := true;
    var operands := args;
    if StartsWith(args[0], "-") {
      var scan := ParseFlags(args[0][1..]);
      if scan.InvalidOption? {
        return "rm: invalid option -- '" + [scan.flag] + "'";
      }
      removingFile := scan.removingFile;
      operands := args[1..];
    }
    if |operands| == 0 {
      return MissingArgument;
    }
    output := RemoveOperand(operands[0], removingFile, st);
  }

  /** The second half of `rm(args, systemState)`: from resolving the target on. */
  method RemoveOperand(target: string, removingFile: bool, st: SystemState) returns (output: string)
    requires st.Valid()
    modifies st`fileSystem, st`currentDirectory
    ensures st.Valid()
    ensures Effect(output, st.View()) == RemoveTarget(old(st.View()), target, removingFile)
  {
    var fileNode := ResolvePath(st.View(), target);
    if fileNode.None? {
      return "rm: no such file or directory: " + target;
    }
    var n := fileNode.value;
    if st.fileSystem.nodes[n].Root? {
      return CannotRemoveRoot;
    }
    if removingFile && !st.fileSystem.nodes[n].File? {
      return "rm: '" + target + "': is a directory";
    }
    if !removingFile && !st.fileSystem.nodes[n].Directory? {
      return "rm: not a directory: " + target;
    }
    assert ParentLinked(st.fileSystem.nodes, n);
    var parent := st.fileSystem.nodes[n].parent;
    RemoveNamedValid(st.fileSystem, parent, st.fileSystem.nodes[n].name);
    st.fileSystem := RemoveNamed(st.fileSystem, parent, st.fileSystem.nodes[n].name);
    var current := GetFileNode(st.fileSystem, st.currentDirectory);
    if current.None? {
      st.currentDirectory := GetFilePath(st.fileSystem, parent);
    }
    return "";
  }

  /** The node `rm args` removes, when its checks pass. */
  ghost function Removed(s: Snapshot, args: seq<string>): Option<NodeId>
  {
    if |args| == 0 || FirstFlags(args).InvalidOption? || |Operands(args)| == 0 then None
    else
      var removingFile := FirstFlags(args).removingFile;
      match Resolve(s, Operands(args)[0])
      case None => None
      case Some(n) =>
        if n in s.fileSystem.nodes
           && (if removingFile then s.fileSystem.nodes[n].File? else s.fileSystem.nodes[n].Directory?)
        then Some(n) else None
  }

  /**
   * `rm` succeeds, printing nothing, exactly when it finds a node to
   * remove: a file without `-r`, a directory with it. On failure nothing
   * changes. On success the node and every record below it are gone, the
   * parent keeps its other children, every other record is unchanged, and
   * the parent no longer has a child of the removed node's name.
   */
  lemma RmOutcome(s: Snapshot, args: seq<string>)
    requires ValidTree(s.fileSystem)
    ensures RmEffect(s, args).output == "" <==> Removed(s, args).Some?
    ensures Removed(s, args).None? ==> RmEffect(s, args).state == s
    ensures Removed(s, args).Some? ==>
              var fs := s.fileSystem;
              var n := Removed(s, args).value;
              var p := fs.nodes[n].parent;
              var after := RmEffect(s, args).state.fileSystem;
              && p in fs.nodes && p in after.nodes && n !in after.nodes
              && !fs.nodes[p].File? && !after.nodes[p].File?
              && (forall k :: k in after.nodes <==> k in fs.nodes && !Below(fs.nodes, k, p, fs.nodes[n].name))
              && after.nodes[p] == WithChildren(fs.nodes[p], Without(fs.nodes[p].children, n))
              && (forall k :: k in after.nodes && k != p ==> after.nodes[k] == fs.nodes[k])
              && FindChild(after.nodes, after.nodes[p].children, fs.nodes[n].name).None?
  {
    if Removed(s, args).Some? {
      RmRemoves(s, args);
    } else {
      RmRefuses(s, args);
    }
  }

  /** When no node qualifies, `rm` prints a message and changes nothing. */
  lemma RmRefuses(s: Snapshot, args: seq<string>)
    requires ValidTree(s.fileSystem) && Removed(s, args).None?
    ensures RmEffect(s, args).output != "" && RmEffect(s, args).state == s
  {
    if |args| > 0 && FirstFlags(args).Flags? && |Operands(args)| > 0 {
      ResolveInTree(s, Operands(args)[0]);
    }
  }

  /** When a node qualifies, `rm` prints nothing and filters it out of its parent's children. */
  lemma RmSucceeds(s: Snapshot, args: seq<string>)
    requires ValidTree(s.fileSystem) && Removed(s, args).Some?
    ensures var fs := s.fileSystem;
            var n := Removed(s, args).value;
            && n in fs.nodes && !fs.nodes[n].Root? && CanRemove(fs, fs.nodes[n].parent)
            && RmEffect(s, args).output == ""
            && RmEffect(s, args).state.fileSystem == RemoveNamed(fs, fs.nodes[n].parent, fs.nodes[n].name)
  {
    ResolveInTree(s, Operands(args)[0]);
    assert ParentLinked(s.fileSystem.nodes, Removed(s, args).value);
  }

  lemma RmRemoves(s: Snapshot, args: seq<string>)
    requires ValidTree(s.fileSystem) && Removed(s, args).Some?
    ensures var fs := s.fileSystem;
            var n := Removed(s, args).value;
            var p := fs.nodes[n].parent;
            var e := RmEffect(s, args);
            var after := e.state.fileSystem;
            && e.output == ""
            && p in fs.nodes && p in after.nodes && n !in after.nodes
            && !fs.nodes[p].File? && !after.nodes[p].File?
            && (forall k :: k in after.nodes <==> k in fs.nodes && !Below(fs.nodes, k, p, fs.nodes[n].name))
            && after.nodes[p] == WithChildren(fs.nodes[p], Without(fs.nodes[p].children, n))
            && (forall k :: k in after.nodes && k != p ==> after.nodes[k] == fs.nodes[k])
            && FindChild(after.nodes, after.nodes[p].children, fs.nodes[n].name).None?
  {
    RmSucceeds(s, args);
    var fs := s.fileSystem;
    var n := Removed(s, args).value;
    RemoveShape(fs, n);
  }

  /** Removing a node by name from its parent: what the records look like afterwards. */
  lemma RemoveShape(fs: FileSystem, n: NodeId)
    requires ValidTree(fs) && n in fs.nodes && !fs.nodes[n].Root?
    ensures var p := fs.nodes[n].parent;
            var name := fs.nodes[n].name;
            && p in fs.nodes && !fs.nodes[p].File?
            && var after := RemoveNamed(fs, p, name);
            && p in after.nodes && n !in after.nodes && !after.nodes[p].File?
            && (forall k :: k in after.nodes <==> k in fs.nodes && !Below(fs.nodes, k, p, name))
            && after.nodes[p] == WithChildren(fs.nodes[p], Without(fs.nodes[p].children, n))
            && (forall k :: k in after.nodes && k != p ==> after.nodes[k] == fs.nodes[k])
            && FindChild(after.nodes, after.nodes[p].children, name).None?
  {
    assert ParentLinked(fs.nodes, n);
    var p := fs.nodes[n].parent;
    var name := fs.nodes[n].name;
    RemoveNamedValid(fs, p, name);
    RemoveFrame(fs, p, name);
    assert Below(fs.nodes, n, p, name);
    assert ChildrenLinked(fs.nodes, p);
    assert UniqueChildNames(fs.nodes, fs.nodes[p].children);
    var cs := fs.nodes[p].children;
    forall i | 0 <= i < |cs| ensures HasName(fs.nodes, cs[i], name) <==> cs[i] == n {
      assert HasName(fs.nodes, n, name);
    }
    DropNamedIsWithout(fs.nodes, cs, name, n);
  }

  /**
   * `rm` keeps the shell consistent. When it succeeds, the current
   * directory stays exactly when the node it named was not removed;
   * otherwise it becomes the path of the removed node's parent, which
   * resolves to that parent.
   */
  lemma RmKeepsConsistent(s: Snapshot, args: seq<string>)
    requires Consistent(s)
    ensures Consistent(RmEffect(s, args).state)
    ensures Removed(s, args).Some? ==>
              var fs := s.fileSystem;
              var n := Removed(s, args).value;
              var p := fs.nodes[n].parent;
              var after := RmEffect(s, args).state;
              && (after.currentDirectory == s.currentDirectory <==>
                    !Below(fs.nodes, Lookup(fs, s.currentDirectory).value, p, fs.nodes[n].name))
              && (after.currentDirectory != s.currentDirectory ==>
                    && p in after.fileSystem.nodes
                    && after.currentDirectory == PathOf(after.fileSystem, p)
                    && Lookup(after.fileSystem, after.currentDirectory) == Some(p))
  {
    if |args| > 0 && FirstFlags(args).Flags? && |Operands(args)| > 0 {
      var target := Operands(args)[0];
      ResolveInTree(s, target);
      if Removed(s, args).Some? {
        var fs := s.fileSystem;
        var n := Removed(s, args).value;
        assert ParentLinked(fs.nodes, n);
        var p := fs.nodes[n].parent;
        var name := fs.nodes[n].name;
        RemoveNamedValid(fs, p, name);
        RemoveFrame(fs, p, name);
        RemovedLookup(fs, p, name, s.currentDirectory);
        var r := RemoveNamed(fs, p, name);
        PathOfRoundTrip(r, p);
        var w := Lookup(r, s.currentDirectory);
        if w.Some? {
          WalkInTree(r, r.root, s.currentDirectory);
          assert Within(r.nodes[w.value], fs.nodes[w.value]);
        }
      }
    }
  }

  /** The empty path and `/` name the root, which `rm` refuses to remove with or without flags. */
  lemma RmRootRefused(s: Snapshot, flags: string)
    requires ValidTree(s.fileSystem)
    requires forall i :: 0 <= i < |flags| ==> RmFlag(flags[i])
    ensures RmEffect(s, [""]) == Effect(CannotRemoveRoot, s)
    ensures RmEffect(s, ["-" + flags, ""]) == Effect(CannotRemoveRoot, s)
  {
    ResolveEmpty(s);
    ScanFlagsMeaning(flags, true);
    assert ("-" + flags)[1..] == flags;
    assert StartsWith("-" + flags, "-");
  }

  /** A first argument of accepted flags with nothing after it is a missing argument, and `-` alone counts as flags. */
  lemma RmFlagsOnly(s: Snapshot, flags: string)
    requires ValidTree(s.fileSystem)
    requires forall i :: 0 <= i < |flags| ==> RmFlag(flags[i])
    ensures RmEffect(s, ["-" + flags]) == Effect(MissingArgument, s)
  {
    ScanFlagsMeaning(flags, true);
    assert ("-" + flags)[1..] == flags;
    assert StartsWith("-" + flags, "-");
  }

  /** A flag other than `r` and `f` is reported, and nothing is removed. */
  lemma RmInvalidFlag(s: Snapshot, flag: char, rest: seq<string>)
    requires ValidTree(s.fileSystem) && !RmFlag(flag)
    ensures RmEffect(s, ["-" + [flag]] + rest) == Effect("rm: invalid option -- '" + [flag] + "'", s)
  {
    var args := ["-" + [flag]] + rest;
    assert args[0][1..] == [flag];
    assert StartsWith(args[0], "-");
  }
}
