/** `touch` (src/lib/commands/touch.ts): create an empty file. */
module Touch {
  import opened Maybe
  import opened JsString
  import opened State
  import opened StateUtil
  import opened Create
  import Cat

  /** What `touch args` prints and leaves: the shared creation with an empty file. */
  function TouchEffect(s: Snapshot, args: seq<string>): (e: Effect)
    requires ValidTree(s.fileSystem)
    ensures e.state.currentDirectory == s.currentDirectory && ValidTree(e.state.fileSystem)
  {
    CreateEffect(s, args, "touch", "file", FileKind)
  }

  /** `touch(args, systemState)`. */
  method Touch(args: seq<string>, st: SystemState) returns (output: string)
    requires st.Valid()
    modifies st`fileSystem
    ensures st.Valid()
    ensures Effect(output, st.View()) == TouchEffect(old(st.View()), args)
  {
    output := CreateNode(args, st, "touch", "file", FileKind);
  }

  /** After `touch a/b` succeeds, `cat a/b` prints the new file's empty content. */
  lemma TouchThenCat(s: Snapshot, args: seq<string>)
    requires ValidTree(s.fileSystem) && Creates(s, args)
    requires ParentPath(args[0]) != "" && PlainName(LastPiece(args[0], '/'))
    ensures TouchEffect(s, args).output == ""
    ensures Cat.Cat(TouchEffect(s, args).state, [args[0]]) == ""
  {
    CreateResolves(s, args, "touch", "file", FileKind);
    CreateOutcome(s, args, "touch", "file", FileKind);
  }
}
