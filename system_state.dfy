/**
 * The shell's state (src/lib/system_state.ts): the virtual filesystem, its
 * well-formedness invariant, the construction of the tree from a nested
 * literal with its parent back-references, and the initial session.
 *
 * The tree is an arena: every node object of the source is a record in the
 * map `nodes`, and an object reference is the record's `NodeId`. Ids are
 * handed out in allocation order from `next`, so a parent, which always
 * exists before its children, has a smaller id than each of them.
 */
module State {
  import opened Maybe
  import opened JsString

  type NodeId = nat

  /** The three node kinds; only a root has no parent and a file has no children. */
  datatype Node =
    | File(name: string, content: string, parent: NodeId)
    | Directory(name: string, children: seq<NodeId>, parent: NodeId)
    | Root(name: string, children: seq<NodeId>)

  datatype FileSystem = FileSystem(nodes: map<NodeId, Node>, root: NodeId, next: NodeId)

  datatype EnvironmentVariable = EnvironmentVariable(value: string, mutable: bool)

  /** The parts of the session state that commands read: the tree and the two directory paths. */
  datatype Snapshot = Snapshot(fileSystem: FileSystem, currentDirectory: seq<string>, homeDirectory: seq<string>)

  /** What a command does: the text it returns and the state it leaves. */
  datatype Effect = Effect(output: string, state: Snapshot)

  // ---------------------------------------------------------------------
  // Well-formedness
  // ---------------------------------------------------------------------

  predicate HasName(nodes: map<NodeId, Node>, id: NodeId, name: string)
  {
    id in nodes && nodes[id].name == name
  }

  ghost predicate Distinct<T>(xs: seq<T>)
  {
    forall i, j :: 0 <= i < j < |xs| ==> xs[i] != xs[j]
  }

  /** A non-root node's parent exists before it, is not a file, and lists it among its children. */
  ghost predicate ParentLinked(nodes: map<NodeId, Node>, id: NodeId)
    requires id in nodes
  {
    nodes[id].Root? ||
    var p := nodes[id].parent;
    p < id && p in nodes && !nodes[p].File? && id in nodes[p].children
  }

  /** Every child a node lists exists, is not a root, points back at it, and is listed once. */
  ghost predicate ChildrenLinked(nodes: map<NodeId, Node>, id: NodeId)
    requires id in nodes
  {
    nodes[id].File? ||
    var cs := nodes[id].children;
    Distinct(cs) &&
    forall i :: 0 <= i < |cs| ==> cs[i] in nodes && !nodes[cs[i]].Root? && nodes[cs[i]].parent == id
  }

  /**
   * The tree invariant: the root exists and is the only node without a
   * parent, every id was allocated, and parent and children references agree.
   */
  ghost predicate WellFormed(fs: FileSystem)
  {
    && fs.root in fs.nodes && fs.nodes[fs.root].Root?
    && (forall id :: id in fs.nodes ==> id < fs.next)
    && (forall id :: id in fs.nodes && fs.nodes[id].Root? ==> id == fs.root)
    && (forall id {:trigger ParentLinked(fs.nodes, id)} :: id in fs.nodes ==> ParentLinked(fs.nodes, id))
    && (forall id {:trigger ChildrenLinked(fs.nodes, id)} :: id in fs.nodes ==> ChildrenLinked(fs.nodes, id))
  }

  /** No two nodes of the list share a name. */
  ghost predicate UniqueChildNames(nodes: map<NodeId, Node>, cs: seq<NodeId>)
  {
    forall a, b :: a in cs && b in cs && a in nodes && b in nodes && nodes[a].name == nodes[b].name ==> a == b
  }

  /** Child names are unique within each parent. */
  ghost predicate UniqueNames(fs: FileSystem)
  {
    forall id {:trigger UniqueChildNames(fs.nodes, fs.nodes[id].children)} ::
      id in fs.nodes && !fs.nodes[id].File? ==> UniqueChildNames(fs.nodes, fs.nodes[id].children)
  }

  /** The invariant the shell keeps: a well-formed tree with unique child names. */
  ghost predicate ValidTree(fs: FileSystem)
  {
    WellFormed(fs) && UniqueNames(fs)
  }

  /** A name that path resolution can reach: not empty, not `.` or `..`, without `/`. */
  predicate PlainName(s: string)
  {
    s != "" && s != "." && s != ".." && '/' !in s
  }

  ghost predicate PlainNames(fs: FileSystem)
  {
    forall id :: id in fs.nodes && !fs.nodes[id].Root? ==> PlainName(fs.nodes[id].name)
  }

  // ---------------------------------------------------------------------
  // The session object
  // ---------------------------------------------------------------------

  /** The single mutable session state that every command receives. */
  class SystemState {
    var fileSystem: FileSystem
    var currentDirectory: seq<string>
    var homeDirectory: seq<string>
    var environmentVariables: map<string, EnvironmentVariable>

    ghost predicate Valid()
      reads this
    {
      ValidTree(fileSystem)
    }

    function View(): Snapshot
      reads this
    {
      Snapshot(fileSystem, currentDirectory, homeDirectory)
    }

    /** `makeInitialSystemState`: the built-in tree, home as the current directory, the fixed variables. */
    constructor ()
      ensures fileSystem == InitialFileSystem() && Valid() && PlainNames(fileSystem)
      ensures currentDirectory == ["home", "oli"] && homeDirectory == ["home", "oli"]
      ensures environmentVariables == InitialEnvironment()
    {
      fileSystem := InitialFileSystem();
      currentDirectory := ["home", "oli"];
      homeDirectory := ["home", "oli"];
      environmentVariables := InitialEnvironment();
    }
  }

  // ---------------------------------------------------------------------
  // makeInitialFileSystem
  // ---------------------------------------------------------------------

  /** The nested literal the tree is built from: nodes without parents. */
  datatype NodeInput =
    | FileInput(name: string, content: string)
    | DirectoryInput(name: string, children: seq<NodeInput>)
    | RootInput(name: string, children: seq<NodeInput>)

  /** The arena under construction: the records allocated so far and the next free id. */
  datatype Arena = Arena(nodes: map<NodeId, Node>, next: NodeId)

  /** The record of a directory or root input, with the given children. */
  function Container(input: NodeInput, parent: Option<NodeId>, children: seq<NodeId>): (n: Node)
    requires !input.FileInput? && (input.RootInput? <==> parent.None?)
    ensures !n.File? && n.name == input.name && n.children == children
    ensures n.Root? <==> input.RootInput?
    ensures !n.Root? ==> n.parent == parent.value
  {
    if input.RootInput? then Root(input.name, children) else Directory(input.name, children, parent.value)
  }

  /**
   * `makeInitialFileSystem(input, parent)`: allocates the node first with no
   * children, builds the children with that node as their parent, then gives
   * the node its children. Fails as the source throws.
   */
  function MakeInitialFileSystem(input: NodeInput, parent: Option<NodeId>, a: Arena): Result<(NodeId, Arena)>
    decreases input
  {
    var id := a.next;
    if parent.None? then
      if input.RootInput? then
        var a1 := Arena(a.nodes[id := Container(input, parent, [])], id + 1);
        match MakeChildren(input.children, id, a1)
        case Err(e) => Err(e)
        case Ok((ids, a2)) => Ok((id, Arena(a2.nodes[id := Container(input, parent, ids)], a2.next)))
      else
        Err("Only root node can have null parent")
    else
      match input
      case FileInput(name, content) =>
        Ok((id, Arena(a.nodes[id := File(name, content, parent.value)], id + 1)))
      case DirectoryInput(_, _) =>
        var a1 := Arena(a.nodes[id := Container(input, parent, [])], id + 1);
        (match MakeChildren(input.children, id, a1)
         case Err(e) => Err(e)
         case Ok((ids, a2)) => Ok((id, Arena(a2.nodes[id := Container(input, parent, ids)], a2.next))))
      case RootInput(_, _) =>
        Err("Root node must have null parent")
  }

  /** `initialSystem.children.map(child => makeInitialFileSystem(child, node))`, stopping at the first throw. */
  function MakeChildren(inputs: seq<NodeInput>, parent: NodeId, a: Arena): Result<(seq<NodeId>, Arena)>
    decreases inputs
  {
    if inputs == [] then Ok(([], a))
    else
      match MakeInitialFileSystem(inputs[0], Some(parent), a)
      case Err(e) => Err(e)
      case Ok((id, a1)) =>
        match MakeChildren(inputs[1..], parent, a1)
        case Err(e) => Err(e)
        case Ok((ids, a2)) => Ok(([id] + ids, a2))
  }

  /** `makeInitialFileSystem(input, null)` on an empty arena. */
  function BuildTree(input: NodeInput): Result<FileSystem>
  {
    match MakeInitialFileSystem(input, None, Arena(map[], 0))
    case Err(e) => Err(e)
    case Ok((id, b)) => Ok(FileSystem(b.nodes, id, b.next))
  }

  /** The arena records `id` holds what `input` says, children in order, each child allocated after `id`. */
  ghost predicate Reflects(nodes: map<NodeId, Node>, id: NodeId, input: NodeInput)
    decreases input
  {
    id in nodes && nodes[id].name == input.name &&
    match input
    case FileInput(_, content) =>
      nodes[id].File? && nodes[id].content == content
    case DirectoryInput(_, children) =>
      nodes[id].Directory? && |nodes[id].children| == |children| &&
      forall i :: 0 <= i < |children| ==> id < nodes[id].children[i] && Reflects(nodes, nodes[id].children[i], children[i])
    case RootInput(_, children) =>
      nodes[id].Root? && |nodes[id].children| == |children| &&
      forall i :: 0 <= i < |children| ==> id < nodes[id].children[i] && Reflects(nodes, nodes[id].children[i], children[i])
  }

  /** An input that may stand below a root: no root anywhere in it. */
  ghost predicate Nestable(input: NodeInput)
    decreases input
  {
    match input
    case FileInput(_, _) => true
    case DirectoryInput(_, children) => forall i :: 0 <= i < |children| ==> Nestable(children[i])
    case RootInput(_, _) => false
  }

  /** Sibling names in the literal are distinct, at every level. */
  ghost predicate NamesUnique(input: NodeInput)
    decreases input
  {
    match input
    case FileInput(_, _) => true
    case DirectoryInput(_, children) =>
      (forall i, j :: 0 <= i < j < |children| ==> children[i].name != children[j].name) &&
      forall i :: 0 <= i < |children| ==> NamesUnique(children[i])
    case RootInput(_, children) =>
      (forall i, j :: 0 <= i < j < |children| ==> children[i].name != children[j].name) &&
      forall i :: 0 <= i < |children| ==> NamesUnique(children[i])
  }

  /** Every name below the root of the literal is one a path can reach. */
  ghost predicate PlainInput(input: NodeInput)
    decreases input
  {
    match input
    case FileInput(name, _) => PlainName(name)
    case DirectoryInput(name, children) => PlainName(name) && forall i :: 0 <= i < |children| ==> PlainInput(children[i])
    case RootInput(_, children) => forall i :: 0 <= i < |children| ==> PlainInput(children[i])
  }

  ghost predicate Bounded(a: Arena)
  {
    forall k :: k in a.nodes ==> k < a.next
  }

  /** `b` keeps every record of `a` and only adds records at ids from `a.next` on. */
  ghost predicate Extends(a: Arena, b: Arena)
  {
    && a.next <= b.next
    && (forall k :: k in a.nodes ==> k in b.nodes && b.nodes[k] == a.nodes[k])
    && (forall k :: k in b.nodes ==> k in a.nodes || a.next <= k)
  }

  /** What building one input into arena `a` establishes for each record it allocates. */
  ghost predicate BuiltNode(a: Arena, b: Arena, id: NodeId, input: NodeInput, parent: Option<NodeId>)
  {
    && Bounded(b) && Extends(a, b) && id == a.next && id < b.next && id in b.nodes
    && (if parent.None? then b.nodes[id].Root? else !b.nodes[id].Root? && b.nodes[id].parent == parent.value)
    && ChildrenLinked(b.nodes, id)
    && (forall k :: k in b.nodes && id < k ==>
          !b.nodes[k].Root? && ParentLinked(b.nodes, k) && ChildrenLinked(b.nodes, k))
    && Reflects(b.nodes, id, input)
    && (NamesUnique(input) ==>
          forall k :: k in b.nodes && id <= k && !b.nodes[k].File? ==> UniqueChildNames(b.nodes, b.nodes[k].children))
    && (PlainInput(input) ==>
          forall k :: k in b.nodes && id <= k && !b.nodes[k].Root? ==> PlainName(b.nodes[k].name))
  }

  /** What building a list of children under `p` establishes. */
  ghost predicate BuiltChildren(a: Arena, b: Arena, ids: seq<NodeId>, inputs: seq<NodeInput>, p: NodeId)
  {
    && Bounded(b) && Extends(a, b) && |ids| == |inputs| && Distinct(ids)
    && (forall i :: 0 <= i < |ids| ==>
          a.next <= ids[i] && ids[i] in b.nodes && !b.nodes[ids[i]].Root? && b.nodes[ids[i]].parent == p
          && Reflects(b.nodes, ids[i], inputs[i]))
    && (forall k :: k in b.nodes && a.next <= k ==>
          !b.nodes[k].Root? && ChildrenLinked(b.nodes, k) && (k in ids || ParentLinked(b.nodes, k)))
    && ((forall i :: 0 <= i < |inputs| ==> NamesUnique(inputs[i])) ==>
          forall k :: k in b.nodes && a.next <= k && !b.nodes[k].File? ==> UniqueChildNames(b.nodes, b.nodes[k].children))
    && ((forall i :: 0 <= i < |inputs| ==> PlainInput(inputs[i])) ==>
          forall k :: k in b.nodes && a.next <= k ==> PlainName(b.nodes[k].name))
  }

  /** Records that are left alone keep reflecting their input. */
  lemma {:induction false} ReflectsFrame(n1: map<NodeId, Node>, n2: map<NodeId, Node>, id: NodeId, input: NodeInput, lo: NodeId)
    requires Reflects(n1, id, input) && lo <= id
    requires forall k :: k in n1 && lo <= k ==> k in n2 && n2[k] == n1[k]
    ensures Reflects(n2, id, input)
    decreases input
  {
    match input
    case FileInput(_, _) =>
    case DirectoryInput(_, children) =>
      forall i | 0 <= i < |children| ensures Reflects(n2, n1[id].children[i], children[i]) {
        ReflectsFrame(n1, n2, n1[id].children[i], children[i], lo);
      }
    case RootInput(_, children) =>
      forall i | 0 <= i < |children| ensures Reflects(n2, n1[id].children[i], children[i]) {
        ReflectsFrame(n1, n2, n1[id].children[i], children[i], lo);
      }
  }

  /** Adding records elsewhere keeps a record's links and the uniqueness of its children's names. */
  lemma LinksFrame(n1: map<NodeId, Node>, n2: map<NodeId, Node>, k: NodeId)
    requires k in n1
    requires forall j :: j in n1 ==> j in n2 && n2[j] == n1[j]
    ensures ParentLinked(n1, k) ==> ParentLinked(n2, k)
    ensures ChildrenLinked(n1, k) ==> ChildrenLinked(n2, k)
    ensures !n1[k].File? && ChildrenLinked(n1, k) && UniqueChildNames(n1, n1[k].children) ==>
              UniqueChildNames(n2, n2[k].children)
  {
  }

  /** A container node `id` whose children were built in `a1..a2`, closed into `b` by giving it its children. */
  ghost predicate Closing(a: Arena, a1: Arena, a2: Arena, b: Arena, id: NodeId, input: NodeInput,
                          parent: Option<NodeId>, ids: seq<NodeId>)
  {
    && Bounded(a) && id == a.next
    && !input.FileInput? && (input.RootInput? <==> parent.None?)
    && (parent.Some? ==> parent.value < id)
    && a1 == Arena(a.nodes[id := Container(input, parent, [])], id + 1)
    && BuiltChildren(a1, a2, ids, input.children, id)
    && b == Arena(a2.nodes[id := Container(input, parent, ids)], a2.next)
  }

  lemma CloseReflects(a: Arena, a1: Arena, a2: Arena, b: Arena, id: NodeId, input: NodeInput,
                      parent: Option<NodeId>, ids: seq<NodeId>)
    requires Closing(a, a1, a2, b, id, input, parent, ids)
    ensures Reflects(b.nodes, id, input)
  {
    forall i | 0 <= i < |ids| ensures Reflects(b.nodes, ids[i], input.children[i]) {
      ReflectsFrame(a2.nodes, b.nodes, ids[i], input.children[i], id + 1);
    }
  }

  lemma CloseLinks(a: Arena, a1: Arena, a2: Arena, b: Arena, id: NodeId, input: NodeInput,
                   parent: Option<NodeId>, ids: seq<NodeId>, k: NodeId)
    requires Closing(a, a1, a2, b, id, input, parent, ids)
    requires k in b.nodes && id < k
    ensures !b.nodes[k].Root? && ParentLinked(b.nodes, k) && ChildrenLinked(b.nodes, k)
  {
    assert a2.nodes[id] == a1.nodes[id];
    assert k in a2.nodes && a1.next <= k;
    var cs := a2.nodes[k];
    if !cs.File? {
      forall i | 0 <= i < |cs.children| ensures cs.children[i] != id {
        assert a2.nodes[cs.children[i]].parent == k;
      }
    }
    if k !in ids {
      assert ParentLinked(a2.nodes, k);
      assert a2.nodes[k].parent != id;
    }
  }

  lemma CloseOwnNames(a: Arena, a1: Arena, a2: Arena, b: Arena, id: NodeId, input: NodeInput,
                      parent: Option<NodeId>, ids: seq<NodeId>)
    requires Closing(a, a1, a2, b, id, input, parent, ids)
    requires NamesUnique(input)
    ensures UniqueChildNames(b.nodes, b.nodes[id].children)
  {
    CloseReflects(a, a1, a2, b, id, input, parent, ids);
    forall x, y | x in ids && y in ids && x in b.nodes && y in b.nodes && b.nodes[x].name == b.nodes[y].name
      ensures x == y
    {
      var i :| 0 <= i < |ids| && ids[i] == x;
      var j :| 0 <= j < |ids| && ids[j] == y;
      assert b.nodes[x].name == input.children[i].name;
      assert b.nodes[y].name == input.children[j].name;
    }
  }

  lemma CloseNames(a: Arena, a1: Arena, a2: Arena, b: Arena, id: NodeId, input: NodeInput,
                   parent: Option<NodeId>, ids: seq<NodeId>, k: NodeId)
    requires Closing(a, a1, a2, b, id, input, parent, ids)
    requires NamesUnique(input)
    requires k in b.nodes && id < k && !b.nodes[k].File?
    ensures UniqueChildNames(b.nodes, b.nodes[k].children)
  {
    assert forall i :: 0 <= i < |input.children| ==> NamesUnique(input.children[i]);
    var cs := a2.nodes[k].children;
    assert UniqueChildNames(a2.nodes, cs);
    forall i | 0 <= i < |cs| ensures cs[i] != id {
      assert a2.nodes[cs[i]].parent == k;
    }
  }

  lemma CloseFrame(a: Arena, a1: Arena, a2: Arena, b: Arena, id: NodeId, input: NodeInput, parent: Option<NodeId>, ids: seq<NodeId>)
    requires Bounded(a) && id == a.next && !input.FileInput? && (input.RootInput? <==> parent.None?)
    requires a1 == Arena(a.nodes[id := Container(input, parent, [])], id + 1)
    requires Bounded(a2) && Extends(a1, a2)
    requires b == Arena(a2.nodes[id := Container(input, parent, ids)], a2.next)
    ensures Bounded(b) && Extends(a, b) && id < b.next && id in b.nodes
    ensures if parent.None? then b.nodes[id].Root? else !b.nodes[id].Root? && b.nodes[id].parent == parent.value
  {
  }

  lemma CloseOwnLinks(a: Arena, a1: Arena, a2: Arena, b: Arena, id: NodeId, input: NodeInput,
                      parent: Option<NodeId>, ids: seq<NodeId>)
    requires Closing(a, a1, a2, b, id, input, parent, ids)
    ensures ChildrenLinked(b.nodes, id)
  {
    forall i | 0 <= i < |ids| ensures ids[i] in b.nodes && !b.nodes[ids[i]].Root? && b.nodes[ids[i]].parent == id {
      assert a1.next <= ids[i];
    }
  }

  lemma ClosePlain(a: Arena, a1: Arena, a2: Arena, b: Arena, id: NodeId, input: NodeInput,
                   parent: Option<NodeId>, ids: seq<NodeId>)
    requires Closing(a, a1, a2, b, id, input, parent, ids)
    requires PlainInput(input)
    ensures forall k :: k in b.nodes && id <= k && !b.nodes[k].Root? ==> PlainName(b.nodes[k].name)
  {
    assert forall i :: 0 <= i < |input.children| ==> PlainInput(input.children[i]);
    assert forall k :: k in b.nodes && id < k ==> k in a2.nodes && a1.next <= k && b.nodes[k] == a2.nodes[k];
  }

  lemma CloseContainer(a: Arena, a1: Arena, a2: Arena, b: Arena, id: NodeId, input: NodeInput,
                       parent: Option<NodeId>, ids: seq<NodeId>)
    requires Closing(a, a1, a2, b, id, input, parent, ids)
    ensures BuiltNode(a, b, id, input, parent)
  {
    assert Bounded(a2) && Extends(a1, a2);
    CloseFrame(a, a1, a2, b, id, input, parent, ids);
    CloseOwnLinks(a, a1, a2, b, id, input, parent, ids);
    CloseReflects(a, a1, a2, b, id, input, parent, ids);
    forall k | k in b.nodes && id < k
      ensures !b.nodes[k].Root? && ParentLinked(b.nodes, k) && ChildrenLinked(b.nodes, k)
    {
      CloseLinks(a, a1, a2, b, id, input, parent, ids, k);
    }
    if NamesUnique(input) {
      CloseOwnNames(a, a1, a2, b, id, input, parent, ids);
      forall k | k in b.nodes && id < k && !b.nodes[k].File?
        ensures UniqueChildNames(b.nodes, b.nodes[k].children)
      {
        CloseNames(a, a1, a2, b, id, input, parent, ids, k);
      }
    }
    if PlainInput(input) {
      ClosePlain(a, a1, a2, b, id, input, parent, ids);
    }
  }

  /** A file input allocates one record, with its parent and content, and nothing else. */
  lemma FileBuilds(input: NodeInput, parent: Option<NodeId>, a: Arena)
    requires Bounded(a) && input.FileInput? && parent.Some? && parent.value < a.next
    ensures BuiltNode(a, Arena(a.nodes[a.next := File(input.name, input.content, parent.value)], a.next + 1),
                      a.next, input, parent)
  {
  }

  /** A container input allocates its record, builds its children below it, and then lists them. */
  lemma ContainerUnfolds(input: NodeInput, parent: Option<NodeId>, a: Arena)
    requires !input.FileInput? && (input.RootInput? <==> parent.None?)
    ensures var a1 := Arena(a.nodes[a.next := Container(input, parent, [])], a.next + 1);
            var r := MakeChildren(input.children, a.next, a1);
            MakeInitialFileSystem(input, parent, a) ==
              if r.Err? then Err(r.error)
              else Ok((a.next, Arena(r.value.1.nodes[a.next := Container(input, parent, r.value.0)], r.value.1.next)))
  {
  }

  lemma {:induction false} MakeNodeBuilds(input: NodeInput, parent: Option<NodeId>, a: Arena)
    requires Bounded(a)
    requires parent.Some? ==> parent.value < a.next
    ensures var r := MakeInitialFileSystem(input, parent, a);
            r.Ok? ==> BuiltNode(a, r.value.1, r.value.0, input, parent)
    decreases input
  {
    var id := a.next;
    if !input.FileInput? && (input.RootInput? <==> parent.None?) {
      ContainerUnfolds(input, parent, a);
      var a1 := Arena(a.nodes[id := Container(input, parent, [])], id + 1);
      MakeChildrenBuilds(input.children, id, a1);
      var r := MakeChildren(input.children, id, a1);
      if r.Ok? {
        var (ids, a2) := r.value;
        CloseContainer(a, a1, a2, Arena(a2.nodes[id := Container(input, parent, ids)], a2.next), id, input, parent, ids);
      }
    } else if input.FileInput? && parent.Some? {
      FileBuilds(input, parent, a);
    }
  }

  /** Building a list of children: the first child, then the rest after it. */
  lemma ChildrenUnfold(inputs: seq<NodeInput>, p: NodeId, a: Arena)
    requires inputs != []
    ensures var r0 := MakeInitialFileSystem(inputs[0], Some(p), a);
            MakeChildren(inputs, p, a) ==
              if r0.Err? then Err(r0.error)
              else
                var r1 := MakeChildren(inputs[1..], p, r0.value.1);
                if r1.Err? then Err(r1.error) else Ok(([r0.value.0] + r1.value.0, r1.value.1))
  {
  }

  /** The first child built and the rest built after it: what holds of both halves at once. */
  ghost predicate Consing(a: Arena, a1: Arena, a2: Arena, id: NodeId, rest: seq<NodeId>, inputs: seq<NodeInput>, p: NodeId)
  {
    Bounded(a) && p < a.next && inputs != [] &&
    BuiltNode(a, a1, id, inputs[0], Some(p)) && BuiltChildren(a1, a2, rest, inputs[1..], p)
  }

  lemma ConsFrame(a: Arena, a1: Arena, a2: Arena, id: NodeId, rest: seq<NodeId>, inputs: seq<NodeInput>, p: NodeId)
    requires Consing(a, a1, a2, id, rest, inputs, p)
    ensures Bounded(a2) && Extends(a, a2) && Distinct([id] + rest)
    ensures forall k :: k in a1.nodes ==> k in a2.nodes && a2.nodes[k] == a1.nodes[k]
  {
    ConsIds(id, rest, a1.next);
    assert Extends(a, a1) && Extends(a1, a2) && Bounded(a2);
  }

  lemma ConsIds(id: NodeId, rest: seq<NodeId>, lo: NodeId)
    requires id < lo && Distinct(rest) && forall i :: 0 <= i < |rest| ==> lo <= rest[i]
    ensures Distinct([id] + rest)
  {
    var ids := [id] + rest;
    forall i, j | 0 <= i < j < |ids| ensures ids[i] != ids[j] {
      if i == 0 { assert lo <= ids[j]; } else { assert ids[i] == rest[i - 1] && ids[j] == rest[j - 1]; }
    }
  }

  lemma ConsReflects(a: Arena, a1: Arena, a2: Arena, id: NodeId, rest: seq<NodeId>, inputs: seq<NodeInput>, p: NodeId)
    requires Consing(a, a1, a2, id, rest, inputs, p)
    ensures forall i :: 0 <= i < |rest| + 1 ==>
              a.next <= ([id] + rest)[i] && ([id] + rest)[i] in a2.nodes && !a2.nodes[([id] + rest)[i]].Root?
              && a2.nodes[([id] + rest)[i]].parent == p && Reflects(a2.nodes, ([id] + rest)[i], inputs[i])
  {
    var ids := [id] + rest;
    ConsFrame(a, a1, a2, id, rest, inputs, p);
    ReflectsFrame(a1.nodes, a2.nodes, id, inputs[0], 0);
    forall i | 0 <= i < |ids|
      ensures a.next <= ids[i] && ids[i] in a2.nodes && !a2.nodes[ids[i]].Root?
              && a2.nodes[ids[i]].parent == p && Reflects(a2.nodes, ids[i], inputs[i])
    {
      if i > 0 { assert ids[i] == rest[i - 1] && inputs[i] == inputs[1..][i - 1]; }
    }
  }

  lemma ConsLinks(a: Arena, a1: Arena, a2: Arena, id: NodeId, rest: seq<NodeId>, inputs: seq<NodeInput>, p: NodeId, k: NodeId)
    requires Consing(a, a1, a2, id, rest, inputs, p)
    requires k in a2.nodes && a.next <= k
    ensures !a2.nodes[k].Root? && ChildrenLinked(a2.nodes, k) && (k in [id] + rest || ParentLinked(a2.nodes, k))
  {
    if k in a1.nodes {
      assert BuiltNode(a, a1, id, inputs[0], Some(p)) && Extends(a1, a2);
      ConsLinksFirst(a, a1, a2, id, inputs[0], p, k);
    } else {
      assert BuiltChildren(a1, a2, rest, inputs[1..], p) && a1.next <= k;
    }
  }

  lemma ConsLinksFirst(a: Arena, a1: Arena, a2: Arena, id: NodeId, input: NodeInput, p: NodeId, k: NodeId)
    requires BuiltNode(a, a1, id, input, Some(p)) && Extends(a1, a2)
    requires k in a1.nodes && a.next <= k
    ensures k in a2.nodes && !a2.nodes[k].Root? && ChildrenLinked(a2.nodes, k) && (k == id || ParentLinked(a2.nodes, k))
  {
    LinksFrame(a1.nodes, a2.nodes, k);
  }

  lemma ConsNames(a: Arena, a1: Arena, a2: Arena, id: NodeId, rest: seq<NodeId>, inputs: seq<NodeInput>, p: NodeId, k: NodeId)
    requires Consing(a, a1, a2, id, rest, inputs, p)
    requires forall i :: 0 <= i < |inputs| ==> NamesUnique(inputs[i])
    requires k in a2.nodes && a.next <= k && !a2.nodes[k].File?
    ensures UniqueChildNames(a2.nodes, a2.nodes[k].children)
  {
    ConsFrame(a, a1, a2, id, rest, inputs, p);
    assert NamesUnique(inputs[0]);
    assert forall i :: 0 <= i < |inputs[1..]| ==> NamesUnique(inputs[1..][i]);
    if k in a1.nodes {
      LinksFrame(a1.nodes, a2.nodes, k);
    }
  }

  lemma ConsPlain(a: Arena, a1: Arena, a2: Arena, id: NodeId, rest: seq<NodeId>, inputs: seq<NodeInput>, p: NodeId, k: NodeId)
    requires Consing(a, a1, a2, id, rest, inputs, p)
    requires forall i :: 0 <= i < |inputs| ==> PlainInput(inputs[i])
    requires k in a2.nodes && a.next <= k
    ensures PlainName(a2.nodes[k].name)
  {
    if k in a1.nodes {
      assert BuiltNode(a, a1, id, inputs[0], Some(p)) && PlainInput(inputs[0]) && Extends(a1, a2);
      ConsPlainFirst(a, a1, a2, id, inputs[0], p, k);
    } else {
      ConsPlainRest(a, a1, a2, id, rest, inputs, p, k);
    }
  }

  lemma ConsPlainFirst(a: Arena, a1: Arena, a2: Arena, id: NodeId, input: NodeInput, p: NodeId, k: NodeId)
    requires BuiltNode(a, a1, id, input, Some(p)) && PlainInput(input) && Extends(a1, a2)
    requires k in a1.nodes && a.next <= k
    ensures k in a2.nodes && PlainName(a2.nodes[k].name)
  {
    assert a2.nodes[k] == a1.nodes[k];
    assert id <= k && !a1.nodes[k].Root?;
  }

  lemma ConsPlainRest(a: Arena, a1: Arena, a2: Arena, id: NodeId, rest: seq<NodeId>, inputs: seq<NodeInput>, p: NodeId, k: NodeId)
    requires Consing(a, a1, a2, id, rest, inputs, p)
    requires forall i :: 0 <= i < |inputs[1..]| ==> PlainInput(inputs[1..][i])
    requires k in a2.nodes && k !in a1.nodes && a.next <= k
    ensures PlainName(a2.nodes[k].name)
  {
    assert Extends(a1, a2);
    assert a1.next <= k;
  }

  lemma ConsBuilt(a: Arena, a1: Arena, a2: Arena, id: NodeId, rest: seq<NodeId>, inputs: seq<NodeInput>, p: NodeId)
    requires Consing(a, a1, a2, id, rest, inputs, p)
    ensures BuiltChildren(a, a2, [id] + rest, inputs, p)
  {
    ConsFrame(a, a1, a2, id, rest, inputs, p);
    ConsReflects(a, a1, a2, id, rest, inputs, p);
    forall k | k in a2.nodes && a.next <= k
      ensures !a2.nodes[k].Root? && ChildrenLinked(a2.nodes, k) && (k in [id] + rest || ParentLinked(a2.nodes, k))
    {
      ConsLinks(a, a1, a2, id, rest, inputs, p, k);
    }
    if forall i :: 0 <= i < |inputs| ==> NamesUnique(inputs[i]) {
      forall k | k in a2.nodes && a.next <= k && !a2.nodes[k].File?
        ensures UniqueChildNames(a2.nodes, a2.nodes[k].children)
      {
        ConsNames(a, a1, a2, id, rest, inputs, p, k);
      }
    }
    if forall i :: 0 <= i < |inputs| ==> PlainInput(inputs[i]) {
      forall k | k in a2.nodes && a.next <= k ensures PlainName(a2.nodes[k].name) {
        ConsPlain(a, a1, a2, id, rest, inputs, p, k);
      }
    }
  }

  lemma {:induction false} MakeChildrenBuilds(inputs: seq<NodeInput>, p: NodeId, a: Arena)
    requires Bounded(a) && p < a.next
    ensures var r := MakeChildren(inputs, p, a);
            r.Ok? ==> BuiltChildren(a, r.value.1, r.value.0, inputs, p)
    decreases inputs
  {
    if inputs != [] {
      ChildrenUnfold(inputs, p, a);
      MakeNodeBuilds(inputs[0], Some(p), a);
      var r0 := MakeInitialFileSystem(inputs[0], Some(p), a);
      if r0.Ok? {
        var (id, a1) := r0.value;
        MakeChildrenBuilds(inputs[1..], p, a1);
        var r1 := MakeChildren(inputs[1..], p, a1);
        if r1.Ok? {
          ConsBuilt(a, a1, r1.value.1, id, r1.value.0, inputs, p);
        }
      }
    }
  }

  /**
   * The tree built from a literal is well formed: every child's parent is the
   * node whose list holds it, the root is the only parentless node. It keeps
   * each node's kind, name, content and child order, and it keeps sibling
   * names unique when the literal has them unique, and reachable names
   * when the literal's are.
   */
  lemma BuildTreeWellFormed(input: NodeInput)
    requires BuildTree(input).Ok?
    ensures WellFormed(BuildTree(input).value)
    ensures Reflects(BuildTree(input).value.nodes, BuildTree(input).value.root, input)
    ensures NamesUnique(input) ==> UniqueNames(BuildTree(input).value)
    ensures PlainInput(input) ==> PlainNames(BuildTree(input).value)
  {
    var a := Arena(map[], 0);
    MakeNodeBuilds(input, None, a);
    var (id, b) := MakeInitialFileSystem(input, None, a).value;
    var fs := BuildTree(input).value;
    assert fs == FileSystem(b.nodes, id, b.next);
    assert BuiltNode(a, b, id, input, None);
    assert id == 0;
    forall k | k in fs.nodes ensures ParentLinked(fs.nodes, k) && ChildrenLinked(fs.nodes, k) {
      if k != id {
        assert id < k;
      }
    }
  }

  /** Which literals build: exactly a root whose descendants are no roots. */
  lemma {:induction false} MakeNodeSucceeds(input: NodeInput, parent: Option<NodeId>, a: Arena)
    ensures parent.Some? ==> (MakeInitialFileSystem(input, parent, a).Ok? <==> Nestable(input))
    ensures parent.None? ==>
              (MakeInitialFileSystem(input, parent, a).Ok? <==>
                 input.RootInput? && forall i :: 0 <= i < |input.children| ==> Nestable(input.children[i]))
    decreases input
  {
    if !input.FileInput? && (input.RootInput? <==> parent.None?) {
      MakeChildrenSucceed(input.children, a.next, Arena(a.nodes[a.next := Container(input, parent, [])], a.next + 1));
    }
  }

  lemma {:induction false} MakeChildrenSucceed(inputs: seq<NodeInput>, p: NodeId, a: Arena)
    ensures MakeChildren(inputs, p, a).Ok? <==> forall i :: 0 <= i < |inputs| ==> Nestable(inputs[i])
    decreases inputs
  {
    if inputs != [] {
      MakeNodeSucceeds(inputs[0], Some(p), a);
      match MakeInitialFileSystem(inputs[0], Some(p), a)
      case Err(_) =>
      case Ok((_, a1)) =>
        MakeChildrenSucceed(inputs[1..], p, a1);
        assert forall i :: 1 <= i < |inputs| ==> inputs[i] == inputs[1..][i - 1];
    }
  }

  /** The error a literal fails with: a nested root is refused by its parent's call, a non-root top by the first. */
  lemma {:induction false} MakeNodeError(input: NodeInput, parent: Option<NodeId>, a: Arena)
    ensures parent.None? && !input.RootInput? ==>
              MakeInitialFileSystem(input, parent, a) == Err("Only root node can have null parent")
    ensures MakeInitialFileSystem(input, parent, a).Err? && (parent.Some? || input.RootInput?) ==>
              MakeInitialFileSystem(input, parent, a) == Err("Root node must have null parent")
    decreases input
  {
    if !input.FileInput? && (input.RootInput? <==> parent.None?) {
      MakeChildrenError(input.children, a.next, Arena(a.nodes[a.next := Container(input, parent, [])], a.next + 1));
    }
  }

  lemma {:induction false} MakeChildrenError(inputs: seq<NodeInput>, p: NodeId, a: Arena)
    ensures MakeChildren(inputs, p, a).Err? ==> MakeChildren(inputs, p, a) == Err("Root node must have null parent")
    decreases inputs
  {
    if inputs != [] {
      MakeNodeError(inputs[0], Some(p), a);
      match MakeInitialFileSystem(inputs[0], Some(p), a)
      case Err(_) =>
      case Ok((_, a1)) =>
        MakeChildrenError(inputs[1..], p, a1);
    }
  }

  // ---------------------------------------------------------------------
  // makeInitialSystemState
  // ---------------------------------------------------------------------

  /** The text of `/home/oli/description.txt`. */
  const DescriptionText: string :=
    "I am currently studying engineering at Harvey Mudd College and expecting to graduate in 2028. This past summer, I was an intern at NASA Jet Propulsion Laboratory in Pasadena CA in the RF Electronics Group working on radar hardware test automation."

  /** The text of `/home/oli/projects/sites.txt`. */
  const SitesText: string :=
    "Some of my projects are hosted on my site site: <a href=\"https://sites.olihowe.com/\">https://sites.olihowe.com/</a>"

  /**
   * The literal `makeInitialSystemState` builds its tree from, with the two
   * file texts left as parameters: everything proved about the shape holds
   * whatever the texts say.
   */
  function TreeWith(description: string, sites: string): NodeInput
  {
    RootInput("", [
      DirectoryInput("home", [
        DirectoryInput("oli", [
          FileInput("description.txt", description),
          DirectoryInput("projects", [
            FileInput("sites.txt", sites)
          ])
        ])
      ])
    ])
  }

  /** The literal itself. */
  function InitialTree(): NodeInput
  {
    TreeWith(DescriptionText, SitesText)
  }

  /** The built-in literal has no nested root and no repeated sibling name. */
  lemma TreeShape(d: string, t: string)
    ensures TreeWith(d, t).RootInput?
    ensures forall i :: 0 <= i < |TreeWith(d, t).children| ==> Nestable(TreeWith(d, t).children[i])
    ensures NamesUnique(TreeWith(d, t))
    ensures PlainInput(TreeWith(d, t))
  {
    TreeNestable(d, t);
    TreeNamesUnique(d, t);
    TreePlain(d, t);
  }

  lemma TreeNestable(d: string, t: string)
    ensures forall i :: 0 <= i < |TreeWith(d, t).children| ==> Nestable(TreeWith(d, t).children[i])
  {
    var projects := TreeWith(d, t).children[0].children[0].children[1];
    assert Nestable(projects);
    var oli := TreeWith(d, t).children[0].children[0];
    assert Nestable(oli);
  }

  lemma TreeNamesUnique(d: string, t: string)
    ensures NamesUnique(TreeWith(d, t))
  {
    var projects := TreeWith(d, t).children[0].children[0].children[1];
    assert NamesUnique(projects);
    var oli := TreeWith(d, t).children[0].children[0];
    assert NamesUnique(oli);
    var home := TreeWith(d, t).children[0];
    assert NamesUnique(home);
  }

  lemma TreePlain(d: string, t: string)
    ensures PlainInput(TreeWith(d, t))
  {
    assert PlainName("sites.txt") && PlainName("description.txt");
    assert PlainName("home") && PlainName("oli") && PlainName("projects");
    var projects := TreeWith(d, t).children[0].children[0].children[1];
    assert PlainInput(projects);
    var oli := TreeWith(d, t).children[0].children[0];
    assert PlainInput(oli);
    var home := TreeWith(d, t).children[0];
    assert PlainInput(home);
  }

  /** The tree built from `TreeWith(d, t)`: it always builds, and into a valid tree. */
  function FileSystemWith(d: string, t: string): (fs: FileSystem)
    ensures ValidTree(fs) && PlainNames(fs)
    ensures Reflects(fs.nodes, fs.root, TreeWith(d, t))
  {
    TreeShape(d, t);
    MakeNodeSucceeds(TreeWith(d, t), None, Arena(map[], 0));
    BuildTreeWellFormed(TreeWith(d, t));
    BuildTree(TreeWith(d, t)).value
  }

  /** The tree of the initial session, built from `InitialTree()`. */
  function InitialFileSystem(): (fs: FileSystem)
    ensures ValidTree(fs) && PlainNames(fs)
    ensures Reflects(fs.nodes, fs.root, InitialTree())
  {
    FileSystemWith(DescriptionText, SitesText)
  }

  const WebsiteLink := "<a href=\"https://olihowe.com\">https://olihowe.com</a>"
  const EmailLink := "<a href=\"mailto:oliver@olihowe.com\">oliver@olihowe.com</a>"
  const GithubLink := "<a href=\"https://github.com/ohowe1\">https://github.com/ohowe1</a>"
  const LinkedinLink := "<a href=\"https://linkedin.com/in/oliver-howe\">https://linkedin.com/in/oliver-howe</a>"

  /** The environment table of the initial session. */
  function InitialEnvironment(): map<string, EnvironmentVariable>
  {
    map[
      "USER" := EnvironmentVariable("oli", false),
      "HOME" := EnvironmentVariable("/home/oli", false),
      "SHELL" := EnvironmentVariable("/bin/oli-shell", false),
      "NAME" := EnvironmentVariable("Oliver Howe", true),
      "WEBSITE" := EnvironmentVariable(WebsiteLink, true),
      "EMAIL" := EnvironmentVariable(EmailLink, true),
      "GITHUB" := EnvironmentVariable(GithubLink, true),
      "LINKEDIN" := EnvironmentVariable(LinkedinLink, true)
    ]
  }

  /** The session defines eight variables. */
  lemma EnvironmentNames()
    ensures InitialEnvironment().Keys == {"USER", "HOME", "SHELL", "NAME", "WEBSITE", "EMAIL", "GITHUB", "LINKEDIN"}
    ensures |InitialEnvironment()| == 8
  {
    assert |{"USER", "HOME", "SHELL", "NAME", "WEBSITE", "EMAIL", "GITHUB", "LINKEDIN"}| == 8;
  }

  /** `USER`, `HOME` and `SHELL` are read-only; every other variable may be reassigned. */
  lemma EnvironmentMutability()
    ensures "USER" in InitialEnvironment() && !InitialEnvironment()["USER"].mutable
    ensures "HOME" in InitialEnvironment() && !InitialEnvironment()["HOME"].mutable
    ensures "SHELL" in InitialEnvironment() && !InitialEnvironment()["SHELL"].mutable
    ensures forall v :: v in InitialEnvironment() && v != "USER" && v != "HOME" && v != "SHELL" ==>
              InitialEnvironment()[v].mutable
  {
  }

  /** `HOME` holds the home directory rendered as an absolute path. */
  lemma HomeVariableIsHomeDirectory()
    ensures "HOME" in InitialEnvironment()
    ensures InitialEnvironment()["HOME"].value == "/" + Join(["home", "oli"], "/")
  {
  }
}
