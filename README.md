# oli-shell: a verified model of the in-memory file system and shell

The personal site olihowe.com shows a terminal: a small shell ("oli-shell")
over a file system that lives in memory. The shell keeps a state object
holding a tree of nodes, the current directory, the home directory and a
table of environment variables. A command line is trimmed, split on spaces,
looked up in a registry of commands and run against that state. The
commands print a string and may change the state in place.

This project models that core in Dafny and proves properties of it:

- `js_string.dfy` (modules `Maybe`, `JsString`): the JavaScript string
  operations the shell uses (`split`, `join`, `trim`, `startsWith`, `slice`,
  `split('/').pop()`), with their laws.
- `system_state.dfy` (module `State`): the tree, built from the nested
  literal the same way `makeInitialFileSystem` builds it, and the class
  `SystemState` holding the shell's mutable fields.
- `system_state_util.dfy` (module `StateUtil`): `getFileNode`, `resolvePath`,
  `getFilePath` and `currentDirectoryPath`.
- `tree_edit.dfy` (module `TreeEdit`): the two in-place edits the commands
  make, pushing a child and filtering children by name.
- `create.dfy` (module `Create`): the shared logic of `mkdir` and `touch`.
  `mkdir.dfy` and `touch.dfy` use it.
- `rm.dfy`, `cd.dfy`, `cat.dfy`, `ls.dfy`, `pwd.dfy`, `echo.dfy`: one module
  per command.
- `command_parser.dfy` (module `CommandParser`): the registry, `help`,
  `runCommand` and `executeCommand`.

How the model is laid out:

- The tree of objects with `parent` back-pointers is an arena.
  `FileSystem(nodes, root, next)` maps node ids to `File`, `Directory` and
  `Root` records. Each child and its parent refer to each other by id. A
  node's parent always has a smaller id, so walking up a path always ends.
- `ValidTree` is the invariant of the tree. It says:
  - the links are consistent;
  - every record is reachable;
  - sibling names are distinct.
- This is the shape the source's object graph has. Every operation proves
  that it keeps `ValidTree`.
- `Snapshot` is the value of the shell's state. The class
  `State.SystemState` has the TypeScript object's fields.
- Every command that changes state is a module-level method that takes
  the `SystemState` object as a parameter and changes its fields, as the
  TypeScript functions do. Its contract ties the printed output and the new
  state to a pure function of the old state:
  `ensures Effect(output, st.View()) == RmEffect(old(st.View()), args)`.
  The lemmas about those functions state what the command promises.
- Commands that only read the state (`cat`, `ls`, `pwd`, `echo`) are
  functions of a `Snapshot`.

## Model

| member | source | states |
|---|---|---|
| JsString.Split | src/lib/system_state_util.ts:4 | `split(c)` gives at least one segment, no segment holds the separator, and joining the segments with it gives the string back |
| JsString.Join | src/lib/commands/echo.ts:6 | `join(sep)`: the elements with `sep` between neighbours, `""` for none; a definition, whose laws are JsString.Split and JsString.SplitJoin |
| JsString.StartsWith | src/lib/system_state_util.ts:62 | `startsWith(p)`: `p` is a prefix; a definition, used by StateUtil.CurrentDirectoryPath and Rm.RmEffect |
| JsString.SplitJoin | src/lib/commands/echo.ts:6 | splitting a join of separator-free pieces gives the same pieces back (at least one piece) |
| JsString.Trim | src/lib/command_parser.ts:63 | `trim()` returns the infix after the leading whitespace: the dropped tail is all whitespace, and a non-empty result starts and ends with a non-blank |
| JsString.LastPiece | src/lib/commands/mkdir.ts:11 | `split('/').pop()` is the suffix after the last `/`, holds no `/`, and a `/` comes right before it when it is shorter than the string |
| JsString.SliceFrom | src/lib/command_parser.ts:66 | `slice(n)` is what follows the first `n` elements, or nothing past the end |
| State.BuildTreeWellFormed | src/lib/system_state.ts:46-68 | building a tree from a root literal yields a valid arena that mirrors the literal node by node; unique literal names give unique sibling names; plain names stay plain |
| State.MakeInitialFileSystem | src/lib/system_state.ts:46-68 | the recursive builder, allocating each record at the next free id and each child after its parent; a definition, whose contract is stated by State.BuildTreeWellFormed, State.MakeNodeSucceeds and State.MakeNodeError |
| State.MakeNodeSucceeds | src/lib/system_state.ts:46-68 | the builder fails exactly when a root literal is nested below a parent or the top literal is not a root |
| State.MakeNodeError | src/lib/system_state.ts:50-66 | a top literal that is not a root fails with "Only root node can have null parent"; every other failure is a nested root literal and fails with "Root node must have null parent" |
| State.TreeShape | src/lib/system_state.ts:72-110 | the literal tree is a root, has no nested root, has distinct sibling names and uses no `.`, `..`, empty or slash-holding names |
| State.FileSystemWith | src/lib/system_state.ts:72-110 | the file system built from the literal tree is a valid tree with plain names that mirrors the literal |
| State.InitialFileSystem | src/lib/system_state.ts:72-110 | the site's initial file system is a valid tree with plain names that mirrors the literal `/home/oli` tree |
| State.EnvironmentNames | src/lib/system_state.ts:114-130 | the initial environment defines exactly USER, HOME, SHELL, NAME, WEBSITE, EMAIL, GITHUB and LINKEDIN |
| State.EnvironmentMutability | src/lib/system_state.ts:114-130 | USER, HOME and SHELL are read-only; every other variable is mutable |
| State.HomeVariableIsHomeDirectory | src/lib/system_state.ts:116 | `$HOME` is `/` followed by the home directory joined with `/` |
| State.SystemState.constructor | src/lib/system_state.ts:70-132 | the initial state holds the site's tree, starts in and has its home at `home/oli`, and holds the initial environment |
| StateUtil.FindChild | src/lib/system_state_util.ts:37 | `children.find` returns nothing exactly when no child has the name, and otherwise the first child in order with the name |
| StateUtil.Walk | src/lib/system_state_util.ts:20-43 | the loop of `getFileNode` as recursion over the segments; a definition, whose laws are StateUtil.DotSegments, StateUtil.FileStopsWalk, StateUtil.EmbedsWalk and StateUtil.PathOfRoundTrip |
| StateUtil.Lookup | src/lib/system_state_util.ts:18-19 | `getFileNode` walks from the root; a definition, computed by StateUtil.GetFileNode |
| StateUtil.FileStopsWalk | src/lib/system_state_util.ts:22-24 | a walk with segments left fails once it reaches a file |
| StateUtil.GetFileNode | src/lib/system_state_util.ts:18-44 | the loop walks the path segment by segment: it computes `Lookup` and returns only nodes of the tree |
| StateUtil.DotSegments | src/lib/system_state_util.ts:25-33 | `.` and empty segments do not move; `..` moves a directory to its parent and fails at the root |
| StateUtil.EmbedsWalk | src/lib/system_state_util.ts:18-44 | a walk that succeeds in a tree still succeeds, ending at the same node, in any tree that keeps its records and adds children |
| StateUtil.PathOfEmbeds | src/lib/system_state_util.ts:46-56 | a node of a smaller tree has the same path in every tree it embeds into |
| StateUtil.PathOf | src/lib/system_state_util.ts:46-56 | the path of a node is empty exactly for the root |
| StateUtil.GetFilePath | src/lib/system_state_util.ts:46-56 | the `unshift` loop climbing parents computes `PathOf` |
| StateUtil.PathOfRoundTrip | src/lib/system_state_util.ts:46-56 | the path of a node uses only plain names and walks from the root back to that node |
| StateUtil.PathOfCanonical | src/lib/system_state_util.ts:46-56 | a plain path that names a node is that node's path, so `getFilePath` and `getFileNode` are inverses |
| StateUtil.ResolvePath | src/lib/system_state_util.ts:3-16 | the method computes `Resolve` and returns only nodes of the tree |
| StateUtil.Resolve | src/lib/system_state_util.ts:3-16 | `resolvePath`: the split path after the home directory, the root or the current directory; a definition, whose laws are StateUtil.ResolveEmpty, StateUtil.ResolveAbsolute, StateUtil.ResolveHome and StateUtil.ResolveRelative |
| StateUtil.ResolveEmpty | src/lib/system_state_util.ts:10-12 | the empty path resolves to the root |
| StateUtil.ResolveAbsolute | src/lib/system_state_util.ts:10-15 | a path starting with `/` resolves from the root, whatever the current and home directories |
| StateUtil.ResolveHome | src/lib/system_state_util.ts:7-9 | `~` resolves to the home directory, and `~/rest` to `rest` below it |
| StateUtil.ResolveRelative | src/lib/system_state_util.ts:6-15 | any other path resolves from the current directory, whatever the home directory |
| StateUtil.ResolveCanonical | src/lib/system_state_util.ts:3-56 | the absolute path rendered from a node's path resolves back to that node |
| StateUtil.RenderedPathResolves | src/lib/system_state_util.ts:69 | the plain rendering of the current directory resolves to the node the current directory names |
| StateUtil.CurrentDirectoryPath | src/lib/system_state_util.ts:58-70 | the rendering is never empty and starts with `/` or `~`, and with `~` only when home replacement was asked for and the joined current directory starts with the joined home |
| StateUtil.PromptAtHome | src/lib/system_state_util.ts:58-68 | at the home directory the prompt is `~` |
| StateUtil.PromptBelowHome | src/lib/system_state_util.ts:58-68 | below home the prompt is `~/` plus the rest of the path, and that text resolves to the current directory |
| StateUtil.PromptPrefixSibling | src/lib/system_state_util.ts:62 | the home test compares joined text, so a sibling whose name extends home's last name is also shown as `~` |
| StateUtil.InitialConsistent | src/lib/system_state.ts:72-112 | the initial state is consistent: valid tree, plain names, current directory naming a directory |
| TreeEdit.AddChildValid | src/lib/commands/mkdir.ts:43 | pushing a fresh child with an unused name keeps the tree valid, keeps every record, and makes the name lead from the parent to the new node (the same push as touch.ts:40) |
| TreeEdit.RemoveNamedValid | src/lib/commands/rm.ts:49 | filtering a directory's children by name keeps the tree valid and every kept record, and leaves no child of that name |
| TreeEdit.Without | src/lib/commands/rm.ts:49 | the list without an id holds exactly the other elements |
| TreeEdit.WithoutAt | src/lib/commands/rm.ts:49 | in a list without repeats, taking out the element at index `i` leaves the elements before `i` and then those after it, in their order |
| TreeEdit.DropNamedIsWithout | src/lib/commands/rm.ts:49 | when only one child has the name, filtering by name is taking out that child |
| TreeEdit.RemovedLookup | src/lib/commands/rm.ts:52 | after the filter, a plain path that named a node still names it exactly when the node was kept, and otherwise names nothing |
| Create.ParentPath | src/lib/commands/mkdir.ts:16 | the parent path followed by the last piece is the target, and a non-empty parent path ends in `/` |
| Create.CreateEffect | src/lib/commands/mkdir.ts:4-46 | creating never changes the current or home directory and always leaves a valid tree |
| Create.CreateNode | src/lib/commands/mkdir.ts:4-46 | the method changes the file system exactly as `CreateEffect` says and keeps the object valid |
| Create.CreateOutcome | src/lib/commands/mkdir.ts:5-45 | the command prints nothing exactly when the target's last piece is non-empty, its parent path resolves to a directory, and that directory has no child of that name; on failure nothing changes; on success exactly one record is added, as the parent's last child |
| Create.CreateKeepsConsistent | src/lib/commands/mkdir.ts:4-46 | a failed creation, and a creation whose new name is not `.`, `..` or empty, keeps the shell consistent |
| Create.CreateResolves | src/lib/commands/mkdir.ts:16-43 | after creating `x/name`, the target resolves to the new node |
| Create.CreateBareName | src/lib/commands/mkdir.ts:16-20 | a target without `/` has the empty parent path, so the node goes below the root, not below the current directory |
| Create.CreateDotUnreachable | src/lib/commands/mkdir.ts:11-43 | a node created as `.` or `..` is unreachable by every path |
| Create.CreatedIsFound | src/lib/commands/mkdir.ts:31-43 | afterwards the parent path still resolves to the same directory, which now has a child of that name |
| Create.CreateTwice | src/lib/commands/mkdir.ts:31-33 | repeating a successful creation, whatever the new name, fails with "file exists" and changes nothing |
| Mkdir.Mkdir | src/lib/commands/mkdir.ts:4-46 | `mkdir` changes the state exactly as `MkdirEffect` says and keeps it valid |
| Mkdir.MkdirThenCd | src/lib/commands/mkdir.ts:4-46 | after `mkdir a/b` succeeds, `cd a/b` succeeds and lands in the new directory |
| Mkdir.MkdirBareName | src/lib/commands/mkdir.ts:16-20 | in a consistent shell, `mkdir name` with a plain name the root does not hold yet succeeds, and afterwards `/name` resolves to the new directory |
| Mkdir.MkdirDotUnreachable | src/lib/commands/mkdir.ts:11-43 | `mkdir .` succeeds and creates a directory that no path reaches |
| Touch.Touch | src/lib/commands/touch.ts:4-43 | `touch` changes the state exactly as `TouchEffect` says and keeps it valid |
| Touch.TouchThenCat | src/lib/commands/touch.ts:32-40 | after `touch x` succeeds, `cat x` prints the empty content of the new file |
| Rm.ParseFlags | src/lib/commands/rm.ts:11-20 | the flag loop computes `ScanFlags` |
| Rm.ScanFlagsMeaning | src/lib/commands/rm.ts:11-20 | the flags are accepted exactly when each is `r` or `f`; then a directory is being removed exactly when an `r` occurs; otherwise the error names the first other flag |
| Rm.RmEffect | src/lib/commands/rm.ts:4-27 | what `rm` prints and leaves; it keeps the home directory and a valid tree, and Rm.RmOutcome and Rm.RmKeepsConsistent state the rest |
| Rm.RemoveTarget | src/lib/commands/rm.ts:29-56 | the part after the flags; it keeps the home directory and a valid tree |
| Rm.Rm | src/lib/commands/rm.ts:4-57 | `rm` changes the state exactly as `RmEffect` says and keeps it valid |
| Rm.RmOutcome | src/lib/commands/rm.ts:29-49 | `rm` prints nothing exactly when the target resolves to a file (without `-r`) or a directory (with `-r`); on failure nothing changes; on success the node and everything below it go, the parent's record is the same record with the removed child taken out of its list and the other children in their order (TreeEdit.WithoutAt), every other record is unchanged, and the parent has no child of the removed name |
| Rm.RmKeepsConsistent | src/lib/commands/rm.ts:47-54 | `rm` keeps the shell consistent; on success the current directory stays exactly when the node it named was not removed, and otherwise it becomes the path of the removed node's parent and resolves to that parent |
| Rm.RmRootRefused | src/lib/commands/rm.ts:37-39 | `rm ""` and `rm -flags ""` name the root and are refused with the root error |
| Rm.RmFlagsOnly | src/lib/commands/rm.ts:22-27 | flags without an operand give "rm: missing argument" |
| Rm.RmInvalidFlag | src/lib/commands/rm.ts:17-18 | a first flag other than `r` or `f` is rejected with its name, before any operand is read |
| Cd.Cd | src/lib/commands/cd.ts:9-29 | `cd` changes only the current directory, exactly as `CdEffect` says, and keeps the state valid |
| Cd.CdEffect | src/lib/commands/cd.ts:9-29 | `cd` never changes the file system or the home directory; Cd.CdOutcome and Cd.CdArrives state the rest |
| Cd.CdOutcome | src/lib/commands/cd.ts:9-29 | `cd` prints nothing exactly when the target resolves to a directory or the root; on failure nothing changes |
| Cd.CdArrives | src/lib/commands/cd.ts:25-27 | after `cd` the shell stays consistent, and the new current directory leads to the node the target named |
| Cd.CdUpFromRoot | src/lib/commands/cd.ts:16-19 | `cd ..` at the root reports that no such directory exists |
| Cat.CatFirstArgument | src/lib/commands/cat.ts:9 | only the first argument is read |
| Cat.Cat | src/lib/commands/cat.ts:4-22 | the output of `cat`; a definition, whose properties are Cat.CatOutcome, Cat.CatReadsFile and Cat.CatFirstArgument |
| Cat.CatOutcome | src/lib/commands/cat.ts:4-22 | the three errors, each for its case and naming the target as typed; otherwise the target names a file and the output is its content |
| Cat.CatReadsFile | src/lib/commands/cat.ts:11-21 | every file prints its content when named by the absolute path rendered from its path, from anywhere and whatever arguments follow |
| Cat.CatInitialDescription | src/lib/commands/cat.ts:4-22 | in the initial state `cat description.txt` prints the site's description text |
| Ls.LsLists | src/lib/commands/ls.ts:4-13 | in a consistent shell the output is the current directory's child names joined by spaces, and splitting it on spaces gives those names back when none holds a space |
| Ls.Ls | src/lib/commands/ls.ts:4-13 | the output of `ls`; a definition, whose properties are Ls.LsLists and Ls.LsIgnoresArguments |
| Ls.LsIgnoresArguments | src/lib/commands/ls.ts:4-13 | the output does not depend on the arguments |
| Pwd.Pwd | src/lib/commands/pwd.ts:4-6 | the output is an absolute path, starting with `/` |
| Pwd.PwdResolves | src/lib/commands/pwd.ts:4-6 | the printed path resolves to the current directory, wherever the shell is then |
| Echo.EchoRoundTrip | src/lib/commands/echo.ts:3-7 | splitting the output on spaces gives the arguments back when none holds a space |
| Echo.Echo | src/lib/commands/echo.ts:3-7 | the arguments joined with spaces; a definition, whose properties are Echo.EchoRoundTrip and Echo.EchoOfSplit |
| Echo.EchoOfSplit | src/lib/commands/echo.ts:3-7 | echoing the space-split pieces of a line prints the line |
| CommandParser.FindCommand | src/lib/command_parser.ts:23-45 | a lookup finds nothing exactly when no registered command has the name, and otherwise a registered command with that name |
| CommandParser.Registry | src/lib/command_parser.ts:23-45 | the `commands` record in key order; a definition, whose properties are CommandParser.RegistryKeysDistinct and CommandParser.HelpListsCommands |
| CommandParser.RegistryKeysDistinct | src/lib/command_parser.ts:23-45 | no two registry entries share a key |
| CommandParser.HelpLinesVisible | src/lib/command_parser.ts:32-35 | the help lines are exactly those of the commands not marked hidden |
| CommandParser.HelpListsCommands | src/lib/command_parser.ts:29-45 | `help` lists help, cd, echo, pwd, ls, cat and rm, in registry order, and not the hidden empty command |
| CommandParser.HelpText | src/lib/command_parser.ts:31-37 | the heading, then the visible lines joined by newlines; a definition, whose lines are stated by CommandParser.HelpListsCommands |
| CommandParser.RunCommand | src/lib/command_parser.ts:47-54 | running a command changes the state exactly as `RunEffect` says and keeps it valid |
| CommandParser.RunEffect | src/lib/command_parser.ts:47-54 | running a name keeps a valid tree and the home directory; CommandParser.UnknownCommand, CommandParser.RunKeepsConsistent and CommandParser.InheritedNotFound state the rest |
| CommandParser.Tokens | src/lib/command_parser.ts:63 | the tokens are never empty, no token holds a space, and joined with spaces they give the trimmed line |
| CommandParser.LineEffect | src/lib/command_parser.ts:63-68 | running a line keeps a valid tree and the home directory; CommandParser.LineKeepsConsistent, CommandParser.BlankLine and CommandParser.EchoLine state the rest |
| CommandParser.ExecuteCommand | src/lib/command_parser.ts:56-76 | the history entry records the input, the prompt from before the command, the output and the time; the state changes exactly as `LineEffect` says |
| CommandParser.RunKeepsConsistent | src/lib/command_parser.ts:47-54 | every registered command keeps the shell consistent |
| CommandParser.LineKeepsConsistent | src/lib/command_parser.ts:56-76 | every command line keeps the shell consistent |
| CommandParser.BlankLine | src/lib/command_parser.ts:24-28 | a blank line runs the hidden empty command: it prints nothing and changes nothing |
| CommandParser.UnknownCommand | src/lib/command_parser.ts:49-51 | a name not in the registry prints "command not found" and changes nothing |
| CommandParser.CreatorsNotRegistered | src/lib/command_parser.ts:23-45 | `mkdir` and `touch` are not in the registry, so the shell cannot run them |
| CommandParser.EchoLine | src/lib/command_parser.ts:56-76 | the line `echo rest` prints `rest` and changes nothing, whatever spacing `rest` holds |
| CommandParser.LookupAsWritten | src/lib/command_parser.ts:48 | `commands[name]` finds an inherited member exactly when the name is not registered but is an `Object.prototype` member |
| CommandParser.RunAsWritten | src/lib/command_parser.ts:47-54 | as written, `runCommand` throws exactly for the names of `Object.prototype` members |
| CommandParser.PrototypeNameThrows | src/lib/command_parser.ts:48-53 | `toString` makes the code as written throw, while the corrected lookup reports "command not found" |
| CommandParser.AsWrittenAgrees | src/lib/command_parser.ts:47-54 | for every name that is not a prototype member, the code as written returns what the corrected lookup does |
| CommandParser.InheritedNotFound | src/lib/command_parser.ts:48-51 | with the corrected lookup, a prototype member's name is "command not found" and changes nothing |

## Left out

- I/O: `executeCommand`'s `headerTime` is a `Date` taken from the caller. Here it is a type parameter that is copied into the history entry.
- I/O: the three `console.log` calls in `mkdir` (src/lib/commands/mkdir.ts:17-21) only write to the browser console. They are dropped.
- Completions: the `completions` members of the commands and the completion helpers they import are not part of this model. They are never called by `executeCommand`.
- The `system` module that `ls` and `pwd` import from (src/lib/commands/ls.ts:2, src/lib/commands/pwd.ts:2) is not part of this model. Its `getFileNode` and `currentDirectoryPath` are taken to be those of `system_state_util.ts`.
- `args.shift()` in `rm` (src/lib/commands/rm.ts:22) also removes the flag word from the caller's array. The caller never reads the array again, so the model reads the operands from a slice instead.
- Object identity and garbage collection: a subtree that `rm` detaches is no longer referenced, so JavaScript frees it. The arena drops those records at once, and node ids are never reused.
- The extra `children: []` property on the file object that `touch` builds (src/lib/commands/touch.ts:35) is not read by any code. Files are modelled without children.
- Strings are sequences of `char`. JavaScript strings are UTF-16 code units, so `split('')` in `rm`'s flag parsing splits surrogate pairs, which this model does not.
- `environmentVariables` is built and kept, but no modelled command reads or writes it.
- The repository also keeps a text tree under `file_system/` (it holds a `change_log` that the literal lacks). That tree is not part of this model, which follows the literal tree in `system_state.ts`.
- CommandParser.RunAsWritten: the text of the `TypeError` thrown for inherited members is the engine's wording. The model records only that the call throws.
- Create.CreateKeepsConsistent: not promised when the new name is `.` or `..` (`mkdir .`, `touch ..`). The source accepts those names, and the node it adds then breaks the rule that every name in the tree is one a path can reach. Create.CreateDotUnreachable states what happens instead: the tree stays valid and no path reaches the new node.
- Reachability from the shell: `mkdir` and `touch` are modelled and proved, but the registry does not hold them (CommandParser.CreatorsNotRegistered).

## Findings

| source | as written | input that shows it | evidently intended | confidence | as-written member | corrected member |
|---|---|---|---|---|---|---|
| src/lib/command_parser.ts:48 | `commands[commandName]` on a plain object literal also finds the members `Object.prototype` provides, so `if (!command)` does not catch them, and `command.execute` is `undefined` and is called | the line `toString` (also `constructor`, `valueOf`, `hasOwnProperty`, `__proto__` and the other prototype members) | a name that is not one of the registered commands prints `oli-shell: command not found: <name>` | not executed | CommandParser.RunAsWritten | CommandParser.RunEffect |
