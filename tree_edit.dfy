/**
 * The two in-place edits the commands make to the tree: `mkdir` and
 * `touch` push a new node onto a directory's children
 * (src/lib/commands/mkdir.ts, src/lib/commands/touch.ts), and `rm` replaces
 * a directory's children with those of another name
 * (src/lib/commands/rm.ts). A removed child and everything below it is no
 * longer referenced by the tree, so the arena drops those records.
 */
module TreeEdit {
  import opened Maybe
  import opened State
  import opened StateUtil

  /** The same directory or root record with another list of children. */
  function WithChildren(n: Node, cs: seq<NodeId>): (r: Node)
    requires !n.File?
    ensures !r.File? && r.children == cs && r.name == n.name && (r.Root? <==> n.Root?)
    ensures !n.Root? ==> r.parent == n.parent
  {
    if n.Root? then Root(n.name, cs) else Directory(n.name, cs, n.parent)
  }

  // ---------------------------------------------------------------------
  // parentNode.children.push(newNode)
  // ---------------------------------------------------------------------

  /** `parentNode.children.push(node)`: the node gets the next id and goes last in `p`'s list. */
  function AddChild(fs: FileSystem, p: NodeId, node: Node): FileSystem
    requires p in fs.nodes && !fs.nodes[p].File?
  {
    var id := fs.next;
    FileSystem(fs.nodes[id := node][p := WithChildren(fs.nodes[p], fs.nodes[p].children + [id])], fs.root, id + 1)
  }

  /** A record as `mkdir` and `touch` create it: below `p`, with no children. */
  predicate NewChild(node: Node, p: NodeId)
  {
    !node.Root? && node.parent == p && (node.Directory? ==> node.children == [])
  }

  /** The conditions `mkdir` and `touch` check before they push. */
  ghost predicate CanAdd(fs: FileSystem, p: NodeId, node: Node)
  {
    ValidTree(fs) && p in fs.nodes && !fs.nodes[p].File? && NewChild(node, p)
    && FindChild(fs.nodes, fs.nodes[p].children, node.name).None?
  }

  lemma AddFrame(fs: FileSystem, p: NodeId, node: Node)
    requires CanAdd(fs, p, node)
    ensures var r := AddChild(fs, p, node);
            && r.root == fs.root && r.next == fs.next + 1
            && fs.next !in fs.nodes && p < fs.next
            && (forall k :: k in r.nodes <==> k in fs.nodes || k == fs.next)
            && r.nodes[fs.next] == node
            && r.nodes[p] == WithChildren(fs.nodes[p], fs.nodes[p].children + [fs.next])
            && (forall k :: k in fs.nodes && k != p ==> r.nodes[k] == fs.nodes[k])
  {
  }

  /** Every record of the tree sits inside the record of the tree after the push. */
  lemma AddEmbeds(fs: FileSystem, p: NodeId, node: Node)
    requires CanAdd(fs, p, node)
    ensures Embeds(fs.nodes, AddChild(fs, p, node).nodes)
  {
    AddFrame(fs, p, node);
  }

  lemma AddParentLinked(fs: FileSystem, p: NodeId, node: Node, k: NodeId)
    requires CanAdd(fs, p, node)
    requires k in AddChild(fs, p, node).nodes
    ensures ParentLinked(AddChild(fs, p, node).nodes, k)
  {
    AddFrame(fs, p, node);
    if k != fs.next {
      assert ParentLinked(fs.nodes, k);
    }
  }

  lemma AddChildrenLinked(fs: FileSystem, p: NodeId, node: Node, k: NodeId)
    requires CanAdd(fs, p, node)
    requires k in AddChild(fs, p, node).nodes
    ensures ChildrenLinked(AddChild(fs, p, node).nodes, k)
  {
    AddFrame(fs, p, node);
    var r := AddChild(fs, p, node);
    if k != fs.next {
      assert ChildrenLinked(fs.nodes, k);
      var cs := fs.nodes[k];
      if !cs.File? {
        forall i | 0 <= i < |cs.children| ensures cs.children[i] in fs.nodes && cs.children[i] < fs.next {
        }
      }
      if k == p {
        var ns := r.nodes[p].children;
        assert ns == fs.nodes[p].children + [fs.next];
        forall i, j | 0 <= i < j < |ns| ensures ns[i] != ns[j] {
          if j == |ns| - 1 {
            assert ns[i] == fs.nodes[p].children[i];
          }
        }
      }
    }
  }

  lemma AddUniqueNames(fs: FileSystem, p: NodeId, node: Node, k: NodeId)
    requires CanAdd(fs, p, node)
    requires k in AddChild(fs, p, node).nodes && !AddChild(fs, p, node).nodes[k].File?
    ensures UniqueChildNames(AddChild(fs, p, node).nodes, AddChild(fs, p, node).nodes[k].children)
  {
    AddFrame(fs, p, node);
    var r := AddChild(fs, p, node);
    if k != fs.next {
      assert ChildrenLinked(fs.nodes, k);
      var cs := fs.nodes[k].children;
      assert UniqueChildNames(fs.nodes, cs);
      forall c | c in cs ensures c in fs.nodes && c != fs.next && HasName(r.nodes, c, fs.nodes[c].name) {
      }
      if k == p {
        forall c | c in cs ensures r.nodes[c].name != node.name {
          assert !HasName(fs.nodes, c, node.name);
        }
      }
    }
  }

  lemma AddWellFormed(fs: FileSystem, p: NodeId, node: Node)
    requires CanAdd(fs, p, node)
    ensures WellFormed(AddChild(fs, p, node))
  {
    AddRootAndBounds(fs, p, node);
    AddAllLinked(fs, p, node);
  }

  lemma AddRootAndBounds(fs: FileSystem, p: NodeId, node: Node)
    requires CanAdd(fs, p, node)
    ensures var r := AddChild(fs, p, node);
            && r.root in r.nodes && r.nodes[r.root].Root?
            && (forall id :: id in r.nodes ==> id < r.next)
            && (forall id :: id in r.nodes && r.nodes[id].Root? ==> id == r.root)
  {
    AddFrame(fs, p, node);
  }

  lemma AddAllLinked(fs: FileSystem, p: NodeId, node: Node)
    requires CanAdd(fs, p, node)
    ensures var r := AddChild(fs, p, node);
            && (forall k {:trigger ParentLinked(r.nodes, k)} :: k in r.nodes ==> ParentLinked(r.nodes, k))
            && (forall k {:trigger ChildrenLinked(r.nodes, k)} :: k in r.nodes ==> ChildrenLinked(r.nodes, k))
  {
    var r := AddChild(fs, p, node);
    forall k | k in r.nodes ensures ParentLinked(r.nodes, k) {
      AddParentLinked(fs, p, node, k);
    }
    forall k | k in r.nodes ensures ChildrenLinked(r.nodes, k) {
      AddChildrenLinked(fs, p, node, k);
    }
  }

  lemma AddNamesUnique(fs: FileSystem, p: NodeId, node: Node)
    requires CanAdd(fs, p, node)
    ensures UniqueNames(AddChild(fs, p, node))
  {
    var r := AddChild(fs, p, node);
    forall k | k in r.nodes && !r.nodes[k].File? ensures UniqueChildNames(r.nodes, r.nodes[k].children) {
      AddUniqueNames(fs, p, node, k);
    }
  }

  lemma AddPlainNames(fs: FileSystem, p: NodeId, node: Node)
    requires CanAdd(fs, p, node) && PlainNames(fs) && PlainName(node.name)
    ensures PlainNames(AddChild(fs, p, node))
  {
    AddFrame(fs, p, node);
  }

  lemma AddFound(fs: FileSystem, p: NodeId, node: Node)
    requires CanAdd(fs, p, node) && PlainName(node.name)
    ensures Walk(AddChild(fs, p, node).nodes, p, [node.name]) == Some(fs.next)
  {
    AddFrame(fs, p, node);
    AddNamesUnique(fs, p, node);
    var r := AddChild(fs, p, node);
    assert fs.next in r.nodes[p].children;
    assert UniqueChildNames(r.nodes, r.nodes[p].children);
    StepToChild(r.nodes, p, fs.next);
  }

  /**
   * Pushing a fresh child whose name its new parent does not hold yet keeps
   * the tree invariant, keeps every name reachable when the new one is, and
   * makes the new node the child of that name.
   */
  lemma AddChildValid(fs: FileSystem, p: NodeId, node: Node)
    requires CanAdd(fs, p, node)
    ensures ValidTree(AddChild(fs, p, node))
    ensures Embeds(fs.nodes, AddChild(fs, p, node).nodes)
    ensures PlainNames(fs) && PlainName(node.name) ==> PlainNames(AddChild(fs, p, node))
    ensures PlainName(node.name) ==> Walk(AddChild(fs, p, node).nodes, p, [node.name]) == Some(fs.next)
  {
    AddWellFormed(fs, p, node);
    AddNamesUnique(fs, p, node);
    AddEmbeds(fs, p, node);
    if PlainNames(fs) && PlainName(node.name) {
      AddPlainNames(fs, p, node);
    }
    if PlainName(node.name) {
      AddFound(fs, p, node);
    }
  }

  // ---------------------------------------------------------------------
  // parent.children = parent.children.filter(child => child.name !== name)
  // ---------------------------------------------------------------------

  /** `children.filter(child => child.name !== name)`: the children of another name, in order. */
  function DropNamed(nodes: map<NodeId, Node>, cs: seq<NodeId>, name: string): (r: seq<NodeId>)
    ensures forall c :: c in r <==> c in cs && !HasName(nodes, c, name)
    ensures |r| <= |cs|
    ensures Distinct(cs) ==> Distinct(r)
  {
    if cs == [] then []
    else if HasName(nodes, cs[0], name) then DropNamed(nodes, cs[1..], name)
    else
      var rest := DropNamed(nodes, cs[1..], name);
      assert Distinct(cs) ==> cs[0] !in cs[1..];
      [cs[0]] + rest
  }

  /** Node `k` is a child of `p` named `name`, or lies below one: the records the filter detaches. */
  predicate Below(nodes: map<NodeId, Node>, k: NodeId, p: NodeId, name: string)
    decreases k
  {
    k in nodes && !nodes[k].Root? &&
    ((nodes[k].parent == p && nodes[k].name == name) ||
     (nodes[k].parent < k && Below(nodes, nodes[k].parent, p, name)))
  }

  /** `p`'s children of the given name, and everything below them, are gone; nothing else changes but `p`'s list. */
  function RemoveNamed(fs: FileSystem, p: NodeId, name: string): FileSystem
    requires p in fs.nodes && !fs.nodes[p].File?
  {
    var kept := map k | k in fs.nodes && !Below(fs.nodes, k, p, name) ::
      if k == p then WithChildren(fs.nodes[p], DropNamed(fs.nodes, fs.nodes[p].children, name)) else fs.nodes[k];
    FileSystem(kept, fs.root, fs.next)
  }

  /** Detached records lie below `p`, so they have larger ids. */
  lemma {:induction false} BelowIsAfter(fs: FileSystem, k: NodeId, p: NodeId, name: string)
    requires WellFormed(fs) && Below(fs.nodes, k, p, name)
    ensures p < k
    decreases k
  {
    assert ParentLinked(fs.nodes, k);
    if !(fs.nodes[k].parent == p && fs.nodes[k].name == name) {
      BelowIsAfter(fs, fs.nodes[k].parent, p, name);
    }
  }

  /** The conditions under which `rm` filters: a valid tree and a directory or root to filter. */
  ghost predicate CanRemove(fs: FileSystem, p: NodeId)
  {
    ValidTree(fs) && p in fs.nodes && !fs.nodes[p].File?
  }

  lemma RemoveFrame(fs: FileSystem, p: NodeId, name: string)
    requires CanRemove(fs, p)
    ensures var r := RemoveNamed(fs, p, name);
            && r.root == fs.root && r.next == fs.next
            && (forall k :: k in r.nodes <==> k in fs.nodes && !Below(fs.nodes, k, p, name))
            && fs.root in r.nodes && p in r.nodes
            && r.nodes[p] == WithChildren(fs.nodes[p], DropNamed(fs.nodes, fs.nodes[p].children, name))
            && (forall k :: k in r.nodes && k != p ==> r.nodes[k] == fs.nodes[k])
  {
    if Below(fs.nodes, p, p, name) {
      BelowIsAfter(fs, p, p, name);
    }
  }

  /** The parent of a kept record is kept. */
  lemma KeptParent(fs: FileSystem, p: NodeId, name: string, k: NodeId)
    requires CanRemove(fs, p) && k in fs.nodes && !fs.nodes[k].Root? && !Below(fs.nodes, k, p, name)
    ensures !Below(fs.nodes, fs.nodes[k].parent, p, name)
  {
    assert ParentLinked(fs.nodes, k);
  }

  lemma RemoveParentLinked(fs: FileSystem, p: NodeId, name: string, k: NodeId)
    requires CanRemove(fs, p)
    requires k in RemoveNamed(fs, p, name).nodes
    ensures ParentLinked(RemoveNamed(fs, p, name).nodes, k)
  {
    RemoveFrame(fs, p, name);
    assert ParentLinked(fs.nodes, k);
    if !fs.nodes[k].Root? {
      KeptParent(fs, p, name, k);
      if fs.nodes[k].parent == p {
        assert !HasName(fs.nodes, k, name);
      }
    }
  }

  lemma RemoveChildrenLinked(fs: FileSystem, p: NodeId, name: string, k: NodeId)
    requires CanRemove(fs, p)
    requires k in RemoveNamed(fs, p, name).nodes
    ensures ChildrenLinked(RemoveNamed(fs, p, name).nodes, k)
  {
    RemoveFrame(fs, p, name);
    var r := RemoveNamed(fs, p, name);
    assert ChildrenLinked(fs.nodes, k);
    if !r.nodes[k].File? {
      var cs := r.nodes[k].children;
      forall i | 0 <= i < |cs| ensures cs[i] in r.nodes && !r.nodes[cs[i]].Root? && r.nodes[cs[i]].parent == k {
        var c := cs[i];
        assert c in fs.nodes[k].children;
        assert c in fs.nodes && fs.nodes[c].parent == k && !fs.nodes[c].Root?;
        assert ParentLinked(fs.nodes, c);
        if k == p {
          assert !HasName(fs.nodes, c, name);
        }
        assert !Below(fs.nodes, k, p, name);
        assert !Below(fs.nodes, c, p, name);
      }
    }
  }

  lemma RemoveUniqueNames(fs: FileSystem, p: NodeId, name: string, k: NodeId)
    requires CanRemove(fs, p)
    requires k in RemoveNamed(fs, p, name).nodes && !RemoveNamed(fs, p, name).nodes[k].File?
    ensures UniqueChildNames(RemoveNamed(fs, p, name).nodes, RemoveNamed(fs, p, name).nodes[k].children)
  {
    RemoveFrame(fs, p, name);
    var r := RemoveNamed(fs, p, name);
    var cs := fs.nodes[k].children;
    assert UniqueChildNames(fs.nodes, cs);
    forall c | c in r.nodes[k].children ensures c in cs {
    }
    forall c | c in r.nodes ensures r.nodes[c].name == fs.nodes[c].name {
    }
  }

  lemma RemoveWellFormed(fs: FileSystem, p: NodeId, name: string)
    requires CanRemove(fs, p)
    ensures WellFormed(RemoveNamed(fs, p, name))
  {
    RemoveFrame(fs, p, name);
    var r := RemoveNamed(fs, p, name);
    forall k | k in r.nodes ensures ParentLinked(r.nodes, k) {
      RemoveParentLinked(fs, p, name, k);
    }
    forall k | k in r.nodes ensures ChildrenLinked(r.nodes, k) {
      RemoveChildrenLinked(fs, p, name, k);
    }
  }

  lemma RemoveNamesUnique(fs: FileSystem, p: NodeId, name: string)
    requires CanRemove(fs, p)
    ensures UniqueNames(RemoveNamed(fs, p, name))
  {
    var r := RemoveNamed(fs, p, name);
    forall k | k in r.nodes && !r.nodes[k].File? ensures UniqueChildNames(r.nodes, r.nodes[k].children) {
      RemoveUniqueNames(fs, p, name, k);
    }
  }

  /** Every kept record sits inside its record before the filter. */
  lemma RemoveEmbeds(fs: FileSystem, p: NodeId, name: string)
    requires CanRemove(fs, p)
    ensures Embeds(RemoveNamed(fs, p, name).nodes, fs.nodes)
  {
    RemoveFrame(fs, p, name);
  }

  /**
   * Filtering `p`'s children by name keeps the tree invariant and reachable
   * names, keeps every other record as it was, and leaves no child of `p`
   * with that name.
   */
  lemma RemoveNamedValid(fs: FileSystem, p: NodeId, name: string)
    requires CanRemove(fs, p)
    ensures var r := RemoveNamed(fs, p, name);
            && ValidTree(r)
            && (PlainNames(fs) ==> PlainNames(r))
            && Embeds(r.nodes, fs.nodes)
            && p in r.nodes && r.nodes[p].Root? == fs.nodes[p].Root?
            && FindChild(r.nodes, r.nodes[p].children, name).None?
  {
    RemoveFrame(fs, p, name);
    RemoveWellFormed(fs, p, name);
    RemoveNamesUnique(fs, p, name);
    RemoveEmbeds(fs, p, name);
    var r := RemoveNamed(fs, p, name);
    forall c | c in r.nodes[p].children ensures !HasName(r.nodes, c, name) {
      assert !HasName(fs.nodes, c, name);
    }
  }

  // ---------------------------------------------------------------------
  // What the filter leaves
  // ---------------------------------------------------------------------

  /** The list with every occurrence of `x` taken out, the others kept in order. */
  function Without(cs: seq<NodeId>, x: NodeId): (r: seq<NodeId>)
    ensures forall c :: c in r <==> c in cs && c != x
  {
    if cs == [] then []
    else if cs[0] == x then Without(cs[1..], x)
    else [cs[0]] + Without(cs[1..], x)
  }

  /** In a list without repeats, taking out `x` deletes its one position and shifts the rest up. */
  lemma {:induction false} WithoutAt(cs: seq<NodeId>, x: NodeId, i: nat)
    requires i < |cs| && cs[i] == x && Distinct(cs)
    ensures Without(cs, x) == cs[..i] + cs[i + 1..]
    decreases |cs|
  {
    if i == 0 {
      assert x !in cs[1..];
      assert Without(cs[1..], x) == cs[1..] by { WithoutAbsent(cs[1..], x); }
    } else {
      assert cs[0] != x;
      WithoutAt(cs[1..], x, i - 1);
      assert cs[1..][..i - 1] == cs[1..i];
      assert cs[1..][i..] == cs[i + 1..];
      assert cs[..i] == [cs[0]] + cs[1..i];
    }
  }

  /** Taking out an id the list does not hold changes nothing. */
  lemma {:induction false} WithoutAbsent(cs: seq<NodeId>, x: NodeId)
    requires x !in cs
    ensures Without(cs, x) == cs
    decreases |cs|
  {
    if cs != [] {
      assert x !in cs[1..];
      WithoutAbsent(cs[1..], x);
    }
  }

  /** Filtering by name is taking out the one child that has the name. */
  lemma {:induction false} DropNamedIsWithout(nodes: map<NodeId, Node>, cs: seq<NodeId>, name: string, n: NodeId)
    requires forall i :: 0 <= i < |cs| ==> (HasName(nodes, cs[i], name) <==> cs[i] == n)
    ensures DropNamed(nodes, cs, name) == Without(cs, n)
    decreases |cs|
  {
    if cs != [] {
      assert forall i :: 0 <= i < |cs[1..]| ==> cs[1..][i] == cs[i + 1];
      DropNamedIsWithout(nodes, cs[1..], name, n);
    }
  }

  /**
   * After the filter, a plain path that named node `w` still names it
   * exactly when `w` was kept, and names nothing otherwise.
   */
  lemma RemovedLookup(fs: FileSystem, p: NodeId, name: string, path: seq<string>)
    requires CanRemove(fs, p) && PlainNames(fs) && PlainPath(path) && Lookup(fs, path).Some?
    ensures var r := RemoveNamed(fs, p, name);
            var w := Lookup(fs, path).value;
            && (Lookup(r, path).Some? <==> !Below(fs.nodes, w, p, name))
            && (Lookup(r, path).Some? ==> Lookup(r, path) == Some(w))
  {
    var r := RemoveNamed(fs, p, name);
    RemoveNamedValid(fs, p, name);
    RemoveFrame(fs, p, name);
    WalkInTree(fs, fs.root, path);
    var w := Lookup(fs, path).value;
    if Lookup(r, path).Some? {
      EmbedsWalk(r.nodes, fs.nodes, fs.root, path);
      WalkInTree(r, r.root, path);
    }
    if !Below(fs.nodes, w, p, name) {
      PathOfCanonical(fs, path);
      PathOfEmbeds(r, fs, w);
      PathOfRoundTrip(r, w);
    }
  }
}
