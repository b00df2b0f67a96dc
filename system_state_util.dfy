/**
 * Path handling over the tree (src/lib/system_state_util.ts): walking a
 * list of segments from the root, the absolute path of a node, resolving a
 * path string typed by the user, and rendering the current directory.
 */
module StateUtil {
  import opened Maybe
  import opened JsString
  import opened State

  // ---------------------------------------------------------------------
  // getFileNode
  // ---------------------------------------------------------------------

  /**
   * `children.find(child => child.name === name)`: the first listed child
   * with that name, or none when no child has it.
   */
  function FindChild(nodes: map<NodeId, Node>, cs: seq<NodeId>, name: string): (r: Option<NodeId>)
    ensures r.None? <==> forall i :: 0 <= i < |cs| ==> !HasName(nodes, cs[i], name)
    ensures r.Some? ==> HasName(nodes, r.value, name)
    ensures r.Some? ==>
              exists i :: 0 <= i < |cs| && cs[i] == r.value && forall j :: 0 <= j < i ==> !HasName(nodes, cs[j], name)
  {
    if cs == [] then None
    else if HasName(nodes, cs[0], name) then Some(cs[0])
    else
      var r := FindChild(nodes, cs[1..], name);
      assert r.Some? ==> forall i :: 0 <= i < |cs[1..]| && cs[1..][i] == r.value ==> cs[i + 1] == r.value;
      r
  }

  /**
   * One iteration of the loop of `getFileNode`: a file cannot be walked
   * through, `.` and the empty segment stay put, `..` climbs to the parent and
   * fails at the root, any other segment descends to the child of that name.
   */
  function Step(nodes: map<NodeId, Node>, current: NodeId, segment: string): Option<NodeId>
  {
    if current !in nodes || nodes[current].File? then None
    else if segment == "." || segment == "" then Some(current)
    else if segment == ".." then
      if nodes[current].Root? then None else Some(nodes[current].parent)
    else FindChild(nodes, nodes[current].children, segment)
  }

  /** The node reached from `current` by taking the segments in order, if every step succeeds. */
  function Walk(nodes: map<NodeId, Node>, current: NodeId, path: seq<string>): Option<NodeId>
    decreases |path|
  {
    if path == [] then Some(current)
    else
      match Step(nodes, current, path[0])
      case None => None
      case Some(next) => Walk(nodes, next, path[1..])
  }

  /** `getFileNode(path, systemState)`: the walk starts at the root. */
  function Lookup(fs: FileSystem, path: seq<string>): Option<NodeId>
  {
    Walk(fs.nodes, fs.root, path)
  }

  /** The loop of `getFileNode`, segment by segment; it finds what `Lookup` specifies. */
  method GetFileNode(fs: FileSystem, path: seq<string>) returns (r: Option<NodeId>)
    requires WellFormed(fs)
    ensures r == Lookup(fs, path)
    ensures r.Some? ==> r.value in fs.nodes
  {
    var current := fs.root;
    for i := 0 to |path|
      invariant current in fs.nodes
      invariant Walk(fs.nodes, current, path[i..]) == Lookup(fs, path)
    {
      assert path[i..][1..] == path[i + 1..];
      var segment := path[i];
      if fs.nodes[current].File? {
        return None;
      }
      if segment == "." || segment == "" {
        continue;
      }
      if segment == ".." {
        if !fs.nodes[current].Root? {
          assert ParentLinked(fs.nodes, current);
          current := fs.nodes[current].parent;
        } else {
          return None;
        }
        continue;
      }
      var next := FindChild(fs.nodes, fs.nodes[current].children, segment);
      if next.None? {
        return None;
      }
      ChildInTree(fs, current, next.value);
      current := next.value;
    }
    return Some(current);
  }

  /** A child found by name is a node of the tree whose parent is the node searched. */
  lemma ChildInTree(fs: FileSystem, current: NodeId, child: NodeId)
    requires WellFormed(fs) && current in fs.nodes && !fs.nodes[current].File?
    requires child in fs.nodes[current].children
    ensures child in fs.nodes && !fs.nodes[child].Root? && fs.nodes[child].parent == current
  {
    assert ChildrenLinked(fs.nodes, current);
  }

  /** Walking `p + q` is walking `p`, then walking `q` from where `p` ended. */
  lemma {:induction false} WalkAppend(nodes: map<NodeId, Node>, current: NodeId, p: seq<string>, q: seq<string>)
    ensures Walk(nodes, current, p + q) ==
              match Walk(nodes, current, p)
              case None => None
              case Some(m) => Walk(nodes, m, q)
    decreases |p|
  {
    if p == [] {
      assert p + q == q;
    } else {
      assert (p + q)[0] == p[0];
      assert (p + q)[1..] == p[1..] + q;
      match Step(nodes, current, p[0])
      case None =>
      case Some(next) => WalkAppend(nodes, next, p[1..], q);
    }
  }

  /** Every walk in a well-formed tree that succeeds ends at a node of the tree. */
  lemma {:induction false} WalkInTree(fs: FileSystem, current: NodeId, path: seq<string>)
    requires WellFormed(fs) && current in fs.nodes
    ensures Walk(fs.nodes, current, path).Some? ==> Walk(fs.nodes, current, path).value in fs.nodes
    decreases |path|
  {
    if path != [] {
      match Step(fs.nodes, current, path[0])
      case None =>
      case Some(next) =>
        var n := fs.nodes[current];
        if path[0] == ".." && !n.Root? {
          assert ParentLinked(fs.nodes, current);
        } else if path[0] != "." && path[0] != "" && path[0] != ".." {
          assert ChildrenLinked(fs.nodes, current);
        }
        WalkInTree(fs, next, path[1..]);
    }
  }

  /** A walk that still has segments to take fails at a file. */
  lemma FileStopsWalk(nodes: map<NodeId, Node>, current: NodeId, path: seq<string>)
    requires current in nodes && nodes[current].File? && path != []
    ensures Walk(nodes, current, path) == None
  {
  }

  /**
   * `.` and empty segments leave a directory where it is; `..` moves a
   * directory to its parent and fails at the root.
   */
  lemma DotSegments(fs: FileSystem, current: NodeId, path: seq<string>)
    requires WellFormed(fs) && current in fs.nodes && !fs.nodes[current].File?
    ensures Walk(fs.nodes, current, ["."] + path) == Walk(fs.nodes, current, path)
    ensures Walk(fs.nodes, current, [""] + path) == Walk(fs.nodes, current, path)
    ensures fs.nodes[current].Directory? ==>
              Walk(fs.nodes, current, [".."] + path) == Walk(fs.nodes, fs.nodes[current].parent, path)
    ensures Walk(fs.nodes, fs.root, [".."] + path) == None
  {
    assert (["."] + path)[1..] == path;
    assert ([""] + path)[1..] == path;
    assert ([".."] + path)[1..] == path;
  }

  // ---------------------------------------------------------------------
  // getFilePath
  // ---------------------------------------------------------------------

  /**
   * `getFilePath(node)`: the names from just below the root down to the
   * node. The root's own path is empty, and only the root's is.
   */
  function PathOf(fs: FileSystem, id: NodeId): (p: seq<string>)
    requires WellFormed(fs) && id in fs.nodes
    ensures p == [] <==> id == fs.root
    decreases id
  {
    if fs.nodes[id].Root? then []
    else
      assert ParentLinked(fs.nodes, id);
      PathOf(fs, fs.nodes[id].parent) + [fs.nodes[id].name]
  }

  /** The loop of `getFilePath`: prepend the name and climb until the root. */
  method GetFilePath(fs: FileSystem, node: NodeId) returns (path: seq<string>)
    requires WellFormed(fs) && node in fs.nodes
    ensures path == PathOf(fs, node)
  {
    path := [];
    var current := node;
    while !fs.nodes[current].Root?
      invariant current in fs.nodes
      invariant PathOf(fs, current) + path == PathOf(fs, node)
      decreases current
    {
      assert ParentLinked(fs.nodes, current);
      path := [fs.nodes[current].name] + path;
      current := fs.nodes[current].parent;
    }
  }

  /** A list of names that the walk treats as child names. */
  predicate PlainPath(path: seq<string>)
  {
    forall i :: 0 <= i < |path| ==> PlainName(path[i])
  }

  /** Among children with distinct names, a child's own name takes the walk to it. */
  lemma StepToChild(nodes: map<NodeId, Node>, p: NodeId, id: NodeId)
    requires p in nodes && !nodes[p].File? && id in nodes[p].children && id in nodes
    requires UniqueChildNames(nodes, nodes[p].children)
    requires PlainName(nodes[id].name)
    ensures Walk(nodes, p, [nodes[id].name]) == Some(id)
  {
    var name := nodes[id].name;
    var found := FindChild(nodes, nodes[p].children, name);
    assert found.Some? by {
      var i :| 0 <= i < |nodes[p].children| && nodes[p].children[i] == id;
      assert HasName(nodes, nodes[p].children[i], name);
    }
    assert Step(nodes, p, name) == Some(id);
  }

  /** What the tree invariant says about a node and its parent. */
  lemma ParentFacts(fs: FileSystem, id: NodeId)
    requires ValidTree(fs) && id in fs.nodes && !fs.nodes[id].Root?
    ensures var p := fs.nodes[id].parent;
            p < id && p in fs.nodes && !fs.nodes[p].File? && id in fs.nodes[p].children
            && UniqueChildNames(fs.nodes, fs.nodes[p].children)
  {
    assert ParentLinked(fs.nodes, id);
  }

  lemma PlainPathAppend(q: seq<string>, x: string)
    requires PlainPath(q) && PlainName(x)
    ensures PlainPath(q + [x])
  {
  }

  /** With reachable names, the path of a node leads back to it. */
  lemma {:induction false} PathOfRoundTrip(fs: FileSystem, id: NodeId)
    requires ValidTree(fs) && PlainNames(fs) && id in fs.nodes
    ensures PlainPath(PathOf(fs, id))
    ensures Lookup(fs, PathOf(fs, id)) == Some(id)
    decreases id
  {
    if !fs.nodes[id].Root? {
      ParentFacts(fs, id);
      var p := fs.nodes[id].parent;
      PathOfRoundTrip(fs, p);
      WalkAppend(fs.nodes, fs.root, PathOf(fs, p), [fs.nodes[id].name]);
      StepToChild(fs.nodes, p, id);
      PlainPathAppend(PathOf(fs, p), fs.nodes[id].name);
    }
  }

  /** A walk from the root along child names only ends at the node whose path it is. */
  lemma {:induction false} PathOfCanonical(fs: FileSystem, path: seq<string>)
    requires WellFormed(fs) && PlainPath(path) && Lookup(fs, path).Some?
    ensures Lookup(fs, path).value in fs.nodes
    ensures PathOf(fs, Lookup(fs, path).value) == path
    decreases |path|
  {
    WalkInTree(fs, fs.root, path);
    if path != [] {
      var q, x := path[..|path| - 1], path[|path| - 1];
      assert path == q + [x];
      WalkAppend(fs.nodes, fs.root, q, [x]);
      PathOfCanonical(fs, q);
      var m := Lookup(fs, q).value;
      var n := Lookup(fs, path).value;
      assert Step(fs.nodes, m, x) == Some(n);
      ChildInTree(fs, m, n);
    }
  }

  /** In a list with distinct names, the search by name finds the one child that has it. */
  lemma FindUnique(nodes: map<NodeId, Node>, cs: seq<NodeId>, n: NodeId, name: string)
    requires UniqueChildNames(nodes, cs) && n in cs && HasName(nodes, n, name)
    ensures FindChild(nodes, cs, name) == Some(n)
  {
    var i :| 0 <= i < |cs| && cs[i] == n;
    assert HasName(nodes, cs[i], name);
  }

  /** Record `a` sits inside record `b`: same kind, name, parent and content, and `b` lists every child `a` lists. */
  ghost predicate Within(a: Node, b: Node)
  {
    match a
    case File(_, _, _) => b == a
    case Directory(name, cs, parent) =>
      b.Directory? && b.name == name && b.parent == parent && forall c :: c in cs ==> c in b.children
    case Root(name, cs) =>
      b.Root? && b.name == name && forall c :: c in cs ==> c in b.children
  }

  /** Every record of `small` sits inside the record of the same id in `big`. */
  ghost predicate Embeds(small: map<NodeId, Node>, big: map<NodeId, Node>)
  {
    forall k :: k in small ==> k in big && Within(small[k], big[k])
  }

  /**
   * A walk that succeeds in a smaller tree succeeds, with the same end, in
   * any tree it embeds into that keeps sibling names distinct: adding nodes
   * never redirects a path, and removing them only makes paths fail.
   */
  lemma {:induction false} EmbedsWalk(small: map<NodeId, Node>, big: map<NodeId, Node>, current: NodeId, path: seq<string>)
    requires Embeds(small, big)
    requires forall k :: k in big && !big[k].File? ==> UniqueChildNames(big, big[k].children)
    ensures Walk(small, current, path).Some? ==> Walk(big, current, path) == Walk(small, current, path)
    decreases |path|
  {
    if path != [] && Step(small, current, path[0]).Some? {
      var next := Step(small, current, path[0]).value;
      var seg := path[0];
      assert current in small && Within(small[current], big[current]);
      if seg != "." && seg != "" && seg != ".." {
        assert HasName(small, next, seg) && next in small[current].children;
        assert Within(small[next], big[next]);
        FindUnique(big, big[current].children, next, seg);
      }
      assert Step(big, current, seg) == Some(next);
      EmbedsWalk(small, big, next, path[1..]);
    }
  }

  /** A node of a smaller tree has the same path in any tree it embeds into. */
  lemma {:induction false} PathOfEmbeds(small: FileSystem, big: FileSystem, id: NodeId)
    requires WellFormed(small) && WellFormed(big) && Embeds(small.nodes, big.nodes) && id in small.nodes
    ensures id in big.nodes && PathOf(small, id) == PathOf(big, id)
    decreases id
  {
    assert Within(small.nodes[id], big.nodes[id]);
    if !small.nodes[id].Root? {
      assert ParentLinked(small.nodes, id);
      PathOfEmbeds(small, big, small.nodes[id].parent);
    }
  }

  // ---------------------------------------------------------------------
  // resolvePath
  // ---------------------------------------------------------------------

  /**
   * The segments `resolvePath` hands to `getFileNode`: split on `/`; a first
   * element `~` is replaced by the home directory, an empty one (a leading
   * `/`, or the whole path empty) by the root, and anything else is put
   * after the current directory.
   */
  function Segments(s: Snapshot, path: string): seq<string>
  {
    var elements := Split(path, '/');
    if elements[0] == "~" then s.homeDirectory + elements[1..]
    else if elements[0] == "" then [""] + elements[1..]
    else s.currentDirectory + elements
  }

  /** `resolvePath(path, systemState)`. */
  function Resolve(s: Snapshot, path: string): Option<NodeId>
  {
    Lookup(s.fileSystem, Segments(s, path))
  }

  /** `resolvePath`, running the walk of `getFileNode` on the combined segments. */
  method ResolvePath(s: Snapshot, path: string) returns (r: Option<NodeId>)
    requires WellFormed(s.fileSystem)
    ensures r == Resolve(s, path)
    ensures r.Some? ==> r.value in s.fileSystem.nodes
  {
    var elements := Split(path, '/');
    var start := s.currentDirectory;
    if elements[0] == "~" {
      start := s.homeDirectory;
      elements := elements[1..];
    } else if elements[0] == "" {
      start := [""];
      elements := elements[1..];
    }
    r := GetFileNode(s.fileSystem, start + elements);
  }

  /** What a path resolves to is a node of the tree. */
  lemma ResolveInTree(s: Snapshot, path: string)
    requires WellFormed(s.fileSystem)
    ensures Resolve(s, path).Some? ==> Resolve(s, path).value in s.fileSystem.nodes
  {
    WalkInTree(s.fileSystem, s.fileSystem.root, Segments(s, path));
  }

  /** Appending `/` and a name appends that name to the segments. */
  lemma SegmentsAppend(s: Snapshot, x: string, seg: string)
    requires '/' !in seg
    ensures Segments(s, x + "/" + seg) == Segments(s, x) + [seg]
  {
    SplitSnoc(x, '/', seg);
    var e := Split(x, '/');
    assert (e + [seg])[0] == e[0];
    assert (e + [seg])[1..] == e[1..] + [seg];
  }

  /**
   * `x/seg` resolves to the child `seg` of what `x/` resolves to; `x/`
   * itself resolves only when `x` is a directory.
   */
  lemma ResolveChildPath(s: Snapshot, x: string, seg: string)
    requires '/' !in seg
    ensures Resolve(s, x + "/" + seg) ==
              match Resolve(s, x + "/")
              case None => None
              case Some(q) => Walk(s.fileSystem.nodes, q, [seg])
  {
    var nodes := s.fileSystem.nodes;
    SegmentsAppend(s, x, seg);
    SegmentsAppend(s, x, "");
    assert x + "/" + "" == x + "/";
    WalkAppend(nodes, s.fileSystem.root, Segments(s, x), [seg]);
    WalkAppend(nodes, s.fileSystem.root, Segments(s, x), [""]);
  }

  /** Resolution in a tree carries over, with the same result, to any tree it embeds into. */
  lemma ResolveEmbeds(s: Snapshot, fs: FileSystem, path: string)
    requires Embeds(s.fileSystem.nodes, fs.nodes) && fs.root == s.fileSystem.root
    requires forall k :: k in fs.nodes && !fs.nodes[k].File? ==> UniqueChildNames(fs.nodes, fs.nodes[k].children)
    ensures Resolve(s, path).Some? ==>
              Resolve(Snapshot(fs, s.currentDirectory, s.homeDirectory), path) == Resolve(s, path)
  {
    EmbedsWalk(s.fileSystem.nodes, fs.nodes, fs.root, Segments(s, path));
  }

  /** The first piece of a split string that starts with the separator is empty. */
  lemma SplitLeading(s: string, c: char)
    requires s != [] && s[0] == c
    ensures Split(s, c) == [""] + Split(s[1..], c)
  {
  }

  /** The empty path names the root. */
  lemma ResolveEmpty(s: Snapshot)
    requires WellFormed(s.fileSystem)
    ensures Resolve(s, "") == Some(s.fileSystem.root)
  {
    var fs := s.fileSystem;
    assert Split("", '/') == [""];
    assert [""] + Split("", '/')[1..] == [""];
    DotSegments(fs, fs.root, []);
  }

  /** A path that starts with `/` means the same whatever the current and home directories are. */
  lemma ResolveAbsolute(s: Snapshot, path: string, cwd: seq<string>, home: seq<string>)
    requires path != [] && path[0] == '/'
    ensures Resolve(s, path) == Resolve(Snapshot(s.fileSystem, cwd, home), path)
    ensures Resolve(s, path) == Lookup(s.fileSystem, [""] + Split(path[1..], '/'))
  {
    SplitLeading(path, '/');
  }

  /** A path that starts with `~/` is taken below the home directory, wherever the shell is. */
  lemma ResolveHome(s: Snapshot, rest: string)
    ensures Resolve(s, "~") == Lookup(s.fileSystem, s.homeDirectory)
    ensures Resolve(s, "~/" + rest) == Lookup(s.fileSystem, s.homeDirectory + Split(rest, '/'))
  {
    HomeSplit(rest);
    var e := Split("~/" + rest, '/');
    assert e[1..] == Split(rest, '/');
    assert s.homeDirectory + [] == s.homeDirectory;
    assert Segments(s, "~") == s.homeDirectory;
    assert Segments(s, "~/" + rest) == s.homeDirectory + Split(rest, '/');
  }

  lemma HomeSplit(rest: string)
    ensures Split("~", '/') == ["~"]
    ensures Split("~/" + rest, '/') == ["~"] + Split(rest, '/')
  {
    SplitPlain("~", '/');
    assert "~/" + rest == "~" + ['/'] + rest;
    SplitCons("~", '/', rest);
  }

  /**
   * A path that starts with neither `/` nor `~` (as a whole first element)
   * is taken below the current directory, whatever the home directory is.
   */
  lemma ResolveRelative(s: Snapshot, path: string, home: seq<string>)
    requires Split(path, '/')[0] != "~" && Split(path, '/')[0] != ""
    ensures Resolve(s, path) == Lookup(s.fileSystem, s.currentDirectory + Split(path, '/'))
    ensures Resolve(s, path) == Resolve(Snapshot(s.fileSystem, s.currentDirectory, home), path)
  {
    var elements := Split(path, '/');
    assert Resolve(s, path) == Lookup(s.fileSystem, s.currentDirectory + elements);
  }

  /** Splitting `/` followed by joined plain names gives the empty first element and the names. */
  lemma SplitAbsolute(xs: seq<string>)
    requires forall i :: 0 <= i < |xs| ==> '/' !in xs[i]
    ensures Split("/" + Join(xs, "/"), '/') == if xs == [] then ["", ""] else [""] + xs
  {
    SplitLeading("/" + Join(xs, "/"), '/');
    assert ("/" + Join(xs, "/"))[1..] == Join(xs, "/");
    if xs != [] {
      SplitJoin(xs, '/');
    }
  }

  /** The absolute rendering of a node's path resolves back to the node, from anywhere. */
  lemma ResolveCanonical(s: Snapshot, id: NodeId)
    requires ValidTree(s.fileSystem) && PlainNames(s.fileSystem) && id in s.fileSystem.nodes
    ensures Resolve(s, "/" + Join(PathOf(s.fileSystem, id), "/")) == Some(id)
  {
    var fs := s.fileSystem;
    var p := PathOf(fs, id);
    PathOfRoundTrip(fs, id);
    SplitAbsolute(p);
    DotSegments(fs, fs.root, p);
    if p == [] {
      assert Split("/", '/')[1..] == [""];
      DotSegments(fs, fs.root, [""]);
      DotSegments(fs, fs.root, []);
    }
  }

  // ---------------------------------------------------------------------
  // currentDirectoryPath
  // ---------------------------------------------------------------------

  /**
   * `currentDirectoryPath(systemState, replaceHome)`: the current directory
   * as `/a/b`; with `replaceHome`, when its joined form starts with the
   * joined home directory, as `~` followed by the rest.
   */
  function CurrentDirectoryPath(s: Snapshot, replaceHome: bool): (r: string)
    ensures r != [] && (r[0] == '/' || r[0] == '~')
    ensures r[0] == '~' ==> replaceHome && StartsWith(Join(s.currentDirectory, "/"), Join(s.homeDirectory, "/"))
  {
    var homePath := Join(s.homeDirectory, "/");
    if replaceHome && StartsWith(Join(s.currentDirectory, "/"), homePath) then
      var relativePath := Join(SliceFrom(s.currentDirectory, |s.homeDirectory|), "/");
      "~" + (if relativePath != "" then "/" + relativePath else "")
    else
      "/" + Join(s.currentDirectory, "/")
  }

  /** Names without `/`. */
  predicate NoSlash(xs: seq<string>)
  {
    forall i :: 0 <= i < |xs| ==> '/' !in xs[i]
  }

  /** The plain rendering resolves to the node the current directory names. */
  lemma RenderedPathResolves(s: Snapshot)
    requires WellFormed(s.fileSystem) && NoSlash(s.currentDirectory)
    ensures Resolve(s, CurrentDirectoryPath(s, false)) == Lookup(s.fileSystem, s.currentDirectory)
  {
    var fs := s.fileSystem;
    var cwd := s.currentDirectory;
    SplitAbsolute(cwd);
    DotSegments(fs, fs.root, cwd);
    if cwd == [] {
      assert Split("/", '/')[1..] == [""];
      DotSegments(fs, fs.root, [""]);
      DotSegments(fs, fs.root, []);
      assert [] + [""] == [""];
    }
  }

  /** The home directory itself is shown as `~`. */
  lemma PromptAtHome(s: Snapshot)
    requires s.currentDirectory == s.homeDirectory
    ensures CurrentDirectoryPath(s, true) == "~"
  {
  }

  /** A directory below home is shown relative to `~`, and that rendering resolves back to it. */
  lemma PromptBelowHome(s: Snapshot, rest: seq<string>)
    requires s.homeDirectory != [] && rest != []
    requires s.currentDirectory == s.homeDirectory + rest
    requires PlainPath(rest)
    ensures CurrentDirectoryPath(s, true) == "~/" + Join(rest, "/")
    ensures Resolve(s, CurrentDirectoryPath(s, true)) == Lookup(s.fileSystem, s.currentDirectory)
  {
    PromptBelowHomeText(s, rest);
    ResolveHome(s, Join(rest, "/"));
    assert forall i :: 0 <= i < |rest| ==> PlainName(rest[i]);
    SplitJoin(rest, '/');
  }

  lemma PromptBelowHomeText(s: Snapshot, rest: seq<string>)
    requires s.homeDirectory != [] && rest != [] && rest[0] != ""
    requires s.currentDirectory == s.homeDirectory + rest
    ensures CurrentDirectoryPath(s, true) == "~/" + Join(rest, "/")
  {
    var home := s.homeDirectory;
    JoinAppend(home, rest, "/");
    var joined := Join(s.currentDirectory, "/");
    assert joined[..|Join(home, "/")|] == Join(home, "/");
    assert SliceFrom(s.currentDirectory, |home|) == rest;
    JoinNonEmpty(rest);
  }

  /** Joining a list whose first name is not empty is not empty. */
  lemma JoinNonEmpty(xs: seq<string>)
    requires xs != [] && xs[0] != ""
    ensures Join(xs, "/") != ""
  {
  }

  /**
   * The home test compares joined strings, not segments: a sibling of the
   * home directory whose name extends home's last name is shown as `~`,
   * even though it is not the home directory.
   */
  lemma {:induction false} PromptPrefixSibling(s: Snapshot, suffix: string)
    requires |s.homeDirectory| >= 1 && suffix != []
    requires var h := s.homeDirectory;
             s.currentDirectory == h[..|h| - 1] + [h[|h| - 1] + suffix]
    ensures s.currentDirectory != s.homeDirectory
    ensures CurrentDirectoryPath(s, true) == "~"
  {
    var h := s.homeDirectory;
    var cwd := s.currentDirectory;
    var last := h[|h| - 1];
    assert cwd[|h| - 1] == last + suffix;
    assert |cwd[|h| - 1]| != |h[|h| - 1]|;
    JoinExtendLast(h[..|h| - 1], last, suffix);
    assert h[..|h| - 1] + [last] == h;
    var joined := Join(cwd, "/");
    assert joined == Join(h, "/") + suffix;
    assert joined[..|Join(h, "/")|] == Join(h, "/");
    assert SliceFrom(cwd, |h|) == [];
  }

  /** Extending the last name of a list extends its joined form by the same text. */
  lemma {:induction false} JoinExtendLast(xs: seq<string>, last: string, suffix: string)
    ensures Join(xs + [last + suffix], "/") == Join(xs + [last], "/") + suffix
    decreases |xs|
  {
    if xs != [] {
      JoinExtendLast(xs[1..], last, suffix);
      assert (xs + [last + suffix])[1..] == xs[1..] + [last + suffix];
      assert (xs + [last])[1..] == xs[1..] + [last];
    }
  }

  // ---------------------------------------------------------------------
  // The state the shell keeps between commands
  // ---------------------------------------------------------------------

  /** `r` is a directory or the root of `fs`. */
  predicate DirectoryAt(fs: FileSystem, r: Option<NodeId>)
  {
    r.Some? && r.value in fs.nodes && !fs.nodes[r.value].File?
  }

  /**
   * Between commands the tree is valid with reachable names, and the
   * current directory is a list of child names leading to a directory.
   */
  ghost predicate Consistent(s: Snapshot)
  {
    ValidTree(s.fileSystem) && PlainNames(s.fileSystem) && PlainPath(s.currentDirectory)
    && DirectoryAt(s.fileSystem, Lookup(s.fileSystem, s.currentDirectory))
  }

  /** In the built-in tree, whatever its texts, `home/oli` leads to the record built from the `oli` literal. */
  lemma HomeIn(d: string, t: string)
    ensures var fs := FileSystemWith(d, t);
            var r := Lookup(fs, ["home", "oli"]);
            r.Some? && r.value in fs.nodes && Reflects(fs.nodes, r.value, TreeWith(d, t).children[0].children[0])
  {
    var fs := FileSystemWith(d, t);
    var input := TreeWith(d, t);
    var root := fs.nodes[fs.root];
    assert Reflects(fs.nodes, fs.root, input);
    var h := root.children[0];
    assert Reflects(fs.nodes, h, input.children[0]);
    assert h in fs.nodes && fs.nodes[h].name == "home" && fs.nodes[h].Directory?;
    var o := fs.nodes[h].children[0];
    assert Reflects(fs.nodes, o, input.children[0].children[0]);
    assert UniqueChildNames(fs.nodes, root.children);
    assert UniqueChildNames(fs.nodes, fs.nodes[h].children);
    FindUnique(fs.nodes, root.children, h, "home");
    FindUnique(fs.nodes, fs.nodes[h].children, o, "oli");
    assert Step(fs.nodes, fs.root, "home") == Some(h);
    assert Step(fs.nodes, h, "oli") == Some(o);
    assert ["home", "oli"][1..] == ["oli"];
    assert Walk(fs.nodes, h, ["oli"]) == Some(o);
  }

  /** The initial session starts in `/home/oli`, a directory of the initial tree. */
  lemma InitialConsistent()
    ensures Consistent(Snapshot(InitialFileSystem(), ["home", "oli"], ["home", "oli"]))
  {
    ConsistentIn(DescriptionText, SitesText);
  }

  lemma ConsistentIn(d: string, t: string)
    ensures Consistent(Snapshot(FileSystemWith(d, t), ["home", "oli"], ["home", "oli"]))
  {
    HomeIn(d, t);
  }
}
