/** `cat` (src/lib/commands/cat.ts): print the content of the file a path names. */
module Cat {
  import opened Maybe
  import opened JsString
  import opened State
  import opened StateUtil

  /**
   * `cat(args, systemState)`: an error without a target, for a path that
   * resolves to nothing and for one that names a directory or the root;
   * otherwise the file's content. Only the first argument is read.
   */
  function Cat(s: Snapshot, args: seq<string>): (output: string)
    requires WellFormed(s.fileSystem)
  {
    if |args| == 0 then "cat: missing argument"
    else
      var target := args[0];
      ResolveInTree(s, target);
      match Resolve(s, target)
      case None => "cat: no such file or directory: " + target
      case Some(n) =>
        if !s.fileSystem.nodes[n].File? then "cat: not a file: " + target
        else s.fileSystem.nodes[n].content
  }

  /** `cat` reads its first argument only. */
  lemma CatFirstArgument(s: Snapshot, args: seq<string>)
    requires WellFormed(s.fileSystem) && |args| > 0
    ensures Cat(s, args) == Cat(s, args[..1])
  {
  }

  /**
   * Every file can be printed from anywhere: `cat` of the absolute path
   * rendered from the file's path prints its content, whatever the current
   * and home directories and whatever arguments follow.
   */
  lemma CatReadsFile(s: Snapshot, n: NodeId, rest: seq<string>)
    requires ValidTree(s.fileSystem) && PlainNames(s.fileSystem)
    requires n in s.fileSystem.nodes && s.fileSystem.nodes[n].File?
    ensures Cat(s, ["/" + Join(PathOf(s.fileSystem, n), "/")] + rest) == s.fileSystem.nodes[n].content
  {
    ResolveCanonical(s, n);
  }

  /**
   * The errors of `cat`: without a target, for a target that resolves to
   * nothing, and for one that resolves to a directory or the root, each
   * naming the target as typed; otherwise the output is the content of the
   * file the target names.
   */
  lemma CatOutcome(s: Snapshot, args: seq<string>)
    requires WellFormed(s.fileSystem)
    ensures |args| == 0 ==> Cat(s, args) == "cat: missing argument"
    ensures |args| > 0 && Resolve(s, args[0]).None? ==> Cat(s, args) == "cat: no such file or directory: " + args[0]
    ensures |args| > 0 && DirectoryAt(s.fileSystem, Resolve(s, args[0])) ==> Cat(s, args) == "cat: not a file: " + args[0]
    ensures |args| > 0 && Resolve(s, args[0]).Some? && !DirectoryAt(s.fileSystem, Resolve(s, args[0])) ==>
              var n := Resolve(s, args[0]).value;
              n in s.fileSystem.nodes && s.fileSystem.nodes[n].File? && Cat(s, args) == s.fileSystem.nodes[n].content
  {
    if |args| > 0 {
      ResolveInTree(s, args[0]);
    }
  }

  /** In the initial session, `cat description.txt` prints the text of that file. */
  lemma CatInitialDescription()
    ensures Cat(Snapshot(InitialFileSystem(), ["home", "oli"], ["home", "oli"]), ["description.txt"]) == DescriptionText
  {
    CatDescription(DescriptionText, SitesText);
  }

  /** In the built-in tree, whatever its texts, `cat description.txt` from `/home/oli` prints the first text. */
  lemma CatDescription(d: string, t: string)
    ensures Cat(Snapshot(FileSystemWith(d, t), ["home", "oli"], ["home", "oli"]), ["description.txt"]) == d
  {
    var fs := FileSystemWith(d, t);
    var s := Snapshot(fs, ["home", "oli"], ["home", "oli"]);
    HomeIn(d, t);
    var o := Lookup(fs, ["home", "oli"]).value;
    var input := TreeWith(d, t);
    var n := fs.nodes[o].children[0];
    assert Reflects(fs.nodes, n, input.children[0].children[0].children[0]);
    assert UniqueChildNames(fs.nodes, fs.nodes[o].children);
    FindUnique(fs.nodes, fs.nodes[o].children, n, "description.txt");
    assert Walk(fs.nodes, o, ["description.txt"]) == Some(n);
    SplitPlain("description.txt", '/');
    assert Segments(s, "description.txt") == ["home", "oli"] + ["description.txt"];
    WalkAppend(fs.nodes, fs.root, ["home", "oli"], ["description.txt"]);
  }
}
