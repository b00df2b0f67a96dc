/** `ls` (src/lib/commands/ls.ts): list the names in the current directory. */
module Ls {
  import opened Maybe
  import opened JsString
  import opened State
  import opened StateUtil

  /** `children.map(child => child.name)`. */
  function Names(nodes: map<NodeId, Node>, cs: seq<NodeId>): (r: seq<string>)
    ensures |r| == |cs|
    ensures forall i :: 0 <= i < |cs| && cs[i] in nodes ==> r[i] == nodes[cs[i]].name
  {
    if cs == [] then []
    else [if cs[0] in nodes then nodes[cs[0]].name else ""] + Names(nodes, cs[1..])
  }

  /**
   * `ls(args, systemState)`: the names of the current directory's children,
   * in order, separated by spaces, or an error when the current directory
   * does not lead to a directory. The arguments are not read.
   */
  function Ls(s: Snapshot, args: seq<string>): (output: string)
    requires WellFormed(s.fileSystem)
  {
    WalkInTree(s.fileSystem, s.fileSystem.root, s.currentDirectory);
    var fileNode := Lookup(s.fileSystem, s.currentDirectory);
    if fileNode.None? || s.fileSystem.nodes[fileNode.value].File? then "ls: cannot access directory"
    else Join(Names(s.fileSystem.nodes, s.fileSystem.nodes[fileNode.value].children), " ")
  }

  /**
   * In a consistent shell `ls` lists the children of the current directory:
   * when it has children and none of their names holds a space, splitting
   * the output on spaces gives back exactly their names in order.
   */
  lemma LsLists(s: Snapshot, args: seq<string>)
    requires Consistent(s)
    ensures var d := Lookup(s.fileSystem, s.currentDirectory).value;
            var names := Names(s.fileSystem.nodes, s.fileSystem.nodes[d].children);
            && Ls(s, args) == Join(names, " ")
            && (|names| >= 1 && (forall i :: 0 <= i < |names| ==> ' ' !in names[i]) ==> Split(Ls(s, args), ' ') == names)
  {
    var d := Lookup(s.fileSystem, s.currentDirectory).value;
    var names := Names(s.fileSystem.nodes, s.fileSystem.nodes[d].children);
    if |names| >= 1 && (forall i :: 0 <= i < |names| ==> ' ' !in names[i]) {
      SplitJoin(names, ' ');
    }
  }

  /** `ls` reads only the state, never its arguments. */
  lemma LsIgnoresArguments(s: Snapshot, a: seq<string>, b: seq<string>)
    requires WellFormed(s.fileSystem)
    ensures Ls(s, a) == Ls(s, b)
  {
  }
}
