# BloatedAssignmentScope, modelled in Dafny

fb-contrib's `BloatedAssignmentScope` detector looks at one method at a time. It
reports a local variable that is assigned in an outer lexical block when its only
use is inside one nested block. The assignment could move into that block.

The detector makes one forward pass over the method's instructions. During the
pass it:

- builds a tree of inferred *scope blocks*, ranges `(start, finish)` of code
  locations marked loop, goto, sync, try or case (each query has its own
  boundary rule, stated in its row of the table below);
- records in each block which registers it stores and loads, and at which
  location;
- keeps session state: registers to ignore, switch targets, try starts and
  catch handlers, a stack of open monitors, and the `dontReport`, `sawDup` and
  `sawNull` flags.

At the end it walks the finished tree once and reports each surviving store
that is used by exactly one nested child.

## How the model is laid out

- `common.dfy` (`Common`): `Option` and an `Ascending` predicate on integer
  sequences.
- `scope_blocks.dfy` (`ScopeBlocks`): the `ScopeBlock` record and the tree.
  - The tree is an arena, a `seq<Block>` addressed by handles. The root is
    handle 0.
  - Every child's handle is larger than its parent's, and every child points
    back to its parent.
  - Also here: `Reaches` (subtree membership), `UsesReg` (the recursive
    `usesReg`), and frame lemmas.
- `tree_queries.dfy` (`TreeQueries`): the five read-only queries on the tree
  and on the exception table.
- `scope_tree.dfy` (`ScopeTrees`): class `ScopeTree`, which owns the arena.
  - Its methods are the `ScopeBlock` mutators: `addChild`, `addStore`,
    `addLoad`, `removeByAssoc`, `removeChild`, `pushUpLoadStores`, the setters,
    and the reporting walk `findBugs`.
  - Each method is proved against a function on the arena. The lemmas about
    those functions state the properties of `addChild` and `pushUpLoadStores`.
- `reporting.dfy` (`Reporting`): `ReportsTree`, the reference definition of
  what `findBugs` reports. Lemmas relate it to the counting rule and to where
  reports can come from.
- `switch_targets.dfy` (`SwitchTargets`): the sorted target list of a switch.
- `risk.dfy` (`Risk`): `isRiskyMethodCall` and the risky store class.
  - The three regular expressions are stated twice: as whole-string
    predicates, and as executable scans. Lemmas prove the two agree.
- `session.dfy` (`Sessions`): the detector's session as a value, with one step
  function per handler, `Step` (`sawOpcode`), `Run` (the whole pass) and
  `Seeded` (the start of `visitCode`).
- `handler_facts.dfy` (`HandlerFacts`): lemmas about the handlers and the pass.
- `detector.dfy` (`Detector`): class `BloatedAssignmentScope`.
  - Its fields are the detector's session, and it holds a `ScopeTree`.
  - Its `Saw*` methods update those fields in place. Each is proved to produce
    exactly the session its step function describes.

Inputs that the real detector obtains from its bytecode framework are passed
in as values. These are:

- the register and signature operands;
- the declared type signature from the local variable table;
- the tag on top of the operand stack;
- the caller object of an instance call;
- the exception table.

## Model

| member | source | states |
|---|---|---|
| `TreeQueries.FindScopeBlock` | src/com/mebigfatguy/fbcontrib/detect/BloatedAssignmentScope.java:575-589 | no block iff `pc` is not strictly inside the starting block; otherwise a block of its subtree that strictly contains `pc` |
| `TreeQueries.FindInChildren` | src/com/mebigfatguy/fbcontrib/detect/BloatedAssignmentScope.java:579-586 | the children loop finds nothing iff no remaining child strictly contains `pc`; a hit lies in the subtree and strictly contains `pc` |
| `TreeQueries.FindInChildrenIsFirst` | src/com/mebigfatguy/fbcontrib/detect/BloatedAssignmentScope.java:579-586 | the loop commits to the first child, in list order, that strictly contains `pc`, even if a later child would lead deeper |
| `TreeQueries.FindScopeBlockDescends` | src/com/mebigfatguy/fbcontrib/detect/BloatedAssignmentScope.java:575-589 | when `pc` is strictly inside, the result is the block reached by taking the first strictly-containing child at every level |
| `TreeQueries.FindScopeBlockWithTarget` | src/com/mebigfatguy/fbcontrib/detect/BloatedAssignmentScope.java:601-619 | no result iff no block of the subtree starts before `start`, has not finished before it, and either finishes at or before `target` or is a goto block that is not a loop; a result is such a block, and the start block is returned only when no child subtree holds one |
| `TreeQueries.TargetInChildren` | src/com/mebigfatguy/fbcontrib/detect/BloatedAssignmentScope.java:608-615 | the children loop returns a candidate from some remaining child's subtree, and nothing only when none of those subtrees has one |
| `TreeQueries.PreviousSibling` | src/com/mebigfatguy/fbcontrib/detect/BloatedAssignmentScope.java:628-648 | no result iff the block has no parent or is its parent's first child; otherwise the child just before it in the parent's list |
| `TreeQueries.FindPreviousSiblingScopeBlock` | src/com/mebigfatguy/fbcontrib/detect/BloatedAssignmentScope.java:628-648 | the loop over the parent's children returns exactly `PreviousSibling` |
| `TreeQueries.PrecedesUnique` | src/com/mebigfatguy/fbcontrib/detect/BloatedAssignmentScope.java:637-645 | a block has at most one previous sibling, because children lists hold no duplicates |
| `TreeQueries.SyncFrom` | src/com/mebigfatguy/fbcontrib/detect/BloatedAssignmentScope.java:655-671 | the result is in the subtree and has no later-starting sync child; it is the start block itself, or a sync block starting after it; it is the start block iff that block has no later-starting sync child |
| `TreeQueries.FindSynchronizedScopeBlock` | src/com/mebigfatguy/fbcontrib/detect/BloatedAssignmentScope.java:655-671 | the loop returns exactly `SyncFrom`, ignoring the monitor location it is given |
| `TreeQueries.FindCatchHandlerFor` | src/com/mebigfatguy/fbcontrib/detect/BloatedAssignmentScope.java:681-692 | -1 iff no exception entry starts at `pc`; otherwise the handler of the first entry that starts there |
| `ScopeBlocks.UsesRegSubtree` | src/com/mebigfatguy/fbcontrib/detect/BloatedAssignmentScope.java:1049-1066 | `usesReg` holds iff some block of the subtree loads or stores the register |
| `ScopeBlocks.ChildUsesRegSubtree` | src/com/mebigfatguy/fbcontrib/detect/BloatedAssignmentScope.java:1057-1063 | the children loop of `usesReg` holds iff some block under a remaining child touches the register |
| `ScopeBlocks.SiblingSubtreesDisjoint` | src/com/mebigfatguy/fbcontrib/detect/BloatedAssignmentScope.java:946-972 | two different children of a block have disjoint subtrees, so a block sits under exactly one child |
| `ScopeBlocks.UsesRegFrame` | src/com/mebigfatguy/fbcontrib/detect/BloatedAssignmentScope.java:1049-1066 | `usesReg` depends only on the subtree it is asked about |
| `ScopeBlocks.FirstContaining` | src/com/mebigfatguy/fbcontrib/detect/BloatedAssignmentScope.java:950-958 | the index of the first child that strictly contains the location, or the list length when none does |
| `ScopeTrees.InsertPos` | src/com/mebigfatguy/fbcontrib/detect/BloatedAssignmentScope.java:959-967 | the insertion index: every earlier child starts at or before the new start, and the child at the index starts strictly after it |
| `ScopeTrees.InsertKeepsSorted` | src/com/mebigfatguy/fbcontrib/detect/BloatedAssignmentScope.java:959-967 | inserting at that index keeps a start-sorted children list sorted |
| `ScopeTrees.PlacedAttachesOnce` | src/com/mebigfatguy/fbcontrib/detect/BloatedAssignmentScope.java:946-972 | `addChild` leaves the tree well formed; the new block is listed by exactly one block, its new parent, found by descending into the first child that strictly contains its start; it keeps its start, and its finish only shrinks |
| `ScopeTrees.PlacedHere` | src/com/mebigfatguy/fbcontrib/detect/BloatedAssignmentScope.java:959-971 | when no child contains the new start, the block is inserted into this block's own list at the sorted position, and nothing else changes |
| `ScopeTrees.AttachedKeeps` | src/com/mebigfatguy/fbcontrib/detect/BloatedAssignmentScope.java:946-972 | adding a new block changes no existing block's range, flags or maps, only children lists; the new block keeps everything except its parent and a clipped finish |
| `ScopeTrees.AttachedKeepsSorted` | src/com/mebigfatguy/fbcontrib/detect/BloatedAssignmentScope.java:946-972 | if every children list is sorted by start, it still is after `addChild` |
| `ScopeTrees.AttachedIsPlaced` | src/com/mebigfatguy/fbcontrib/detect/BloatedAssignmentScope.java:946-972 | the recursive definition that mirrors `addChild` gives the same tree as placing the appended block at its home |
| `ScopeTrees.PlacedIsPlacedAt` | src/com/mebigfatguy/fbcontrib/detect/BloatedAssignmentScope.java:946-972 | the recursive descent through `child.addChild` equals the closed form: insert at the home block, clip the finish once |
| `ScopeTrees.RemoveFirstRemovesOne` | src/com/mebigfatguy/fbcontrib/detect/BloatedAssignmentScope.java:980-984 | `removeChild` removes exactly one occurrence of the child, when present |
| `ScopeTrees.RemoveFirstDistinct` | src/com/mebigfatguy/fbcontrib/detect/BloatedAssignmentScope.java:980-984 | in a list without duplicates, removal keeps every other child and drops that one |
| `ScopeTrees.PushedUpSpec` | src/com/mebigfatguy/fbcontrib/detect/BloatedAssignmentScope.java:1071-1090 | with a parent: the parent's loads and stores become the union of both maps, with the child's entries winning on shared keys, and the child's become empty; without a parent nothing changes; associations and shape never change |
| `ScopeTrees.PushedUp` | src/com/mebigfatguy/fbcontrib/detect/BloatedAssignmentScope.java:1071-1090 | pushing accesses up keeps the tree well formed and its size |
| `ScopeTrees.ScopeTree.constructor` | src/com/mebigfatguy/fbcontrib/detect/BloatedAssignmentScope.java:719-732 | a tree holding one fresh block `[start, finish)` with no flags, maps or children |
| `ScopeTrees.ScopeTree.AddChild` | src/com/mebigfatguy/fbcontrib/detect/BloatedAssignmentScope.java:946-972 | the in-place `addChild` walk produces exactly `Placed`, the recursive definition |
| `ScopeTrees.ScopeTree.FirstChildContaining` | src/com/mebigfatguy/fbcontrib/detect/BloatedAssignmentScope.java:950-958 | the scan returns `FirstContaining` |
| `ScopeTrees.ScopeTree.InsertPosition` | src/com/mebigfatguy/fbcontrib/detect/BloatedAssignmentScope.java:959-967 | the scan returns `InsertPos` |
| `ScopeTrees.ScopeTree.AddNew` | src/com/mebigfatguy/fbcontrib/detect/BloatedAssignmentScope.java:946-972 | a new block is appended and placed; the arena becomes `Attached` of the old one |
| `ScopeTrees.ScopeTree.RemoveChild` | src/com/mebigfatguy/fbcontrib/detect/BloatedAssignmentScope.java:980-984 | the first occurrence of the child leaves the children list; nothing else changes |
| `ScopeTrees.ScopeTree.AddStore` | src/com/mebigfatguy/fbcontrib/detect/BloatedAssignmentScope.java:892-902 | the store map maps `reg` to `pc` and the association maps the key to `reg`; nothing else changes |
| `ScopeTrees.ScopeTree.AddLoad` | src/com/mebigfatguy/fbcontrib/detect/BloatedAssignmentScope.java:932-938 | the load map maps `reg` to `pc`; nothing else changes |
| `ScopeTrees.ScopeTree.RemoveByAssoc` | src/com/mebigfatguy/fbcontrib/detect/BloatedAssignmentScope.java:910-922 | an associated key is dropped together with its register's load and store; an unknown key changes nothing |
| `ScopeTrees.ScopeTree.PushUpLoadStores` | src/com/mebigfatguy/fbcontrib/detect/BloatedAssignmentScope.java:1071-1090 | the arena becomes `PushedUp` of the old one |
| `ScopeTrees.ScopeTree.SetStart` | src/com/mebigfatguy/fbcontrib/detect/BloatedAssignmentScope.java:786-788 | only the block's start changes |
| `ScopeTrees.ScopeTree.SetFinish` | src/com/mebigfatguy/fbcontrib/detect/BloatedAssignmentScope.java:796-798 | only the block's finish changes |
| `ScopeTrees.ScopeTree.SetLoop` | src/com/mebigfatguy/fbcontrib/detect/BloatedAssignmentScope.java:807-809 | only the block's loop flag is set |
| `ScopeTrees.ScopeTree.FindBugs` | src/com/mebigfatguy/fbcontrib/detect/BloatedAssignmentScope.java:989-1039 | the reported locations are, as a multiset, `ReportsTree`; stores only ever lose entries; blocks outside the subtree are unchanged; a non-loop block is left with its live stores |
| `ScopeTrees.ScopeTree.FindBugsInChildren` | src/com/mebigfatguy/fbcontrib/detect/BloatedAssignmentScope.java:1034-1038 | the children are walked in order with the widened used set; reports are `ReportsKids`; the block itself is unchanged |
| `ScopeTrees.ScopeTree.ReportStores` | src/com/mebigfatguy/fbcontrib/detect/BloatedAssignmentScope.java:1011-1031 | one report per live store whose register is reported, at that store's location |
| `ScopeTrees.ScopeTree.CountChildUses` | src/com/mebigfatguy/fbcontrib/detect/BloatedAssignmentScope.java:1013-1024 | the early exit happens iff some child using the register is loop, sync or try; otherwise the count is the number of children that use it |
| `Reporting.ReportedRegsBounds` | src/com/mebigfatguy/fbcontrib/detect/BloatedAssignmentScope.java:1002-1031 | only live stores are reported, and a block that never had children reports nothing |
| `Reporting.ReportedByCount` | src/com/mebigfatguy/fbcontrib/detect/BloatedAssignmentScope.java:1011-1029 | a live store is reported iff no using child is loop, sync or try and the use count is exactly one |
| `Reporting.UseCountIsOne` | src/com/mebigfatguy/fbcontrib/detect/BloatedAssignmentScope.java:1013-1024 | the use count is one iff exactly one child in range uses the register |
| `Reporting.UseCountZero` | src/com/mebigfatguy/fbcontrib/detect/BloatedAssignmentScope.java:1013-1024 | the use count is zero iff no child in range uses the register |
| `Reporting.PcsOf` | src/com/mebigfatguy/fbcontrib/detect/BloatedAssignmentScope.java:1026-1028 | one report per reported register |
| `Reporting.PcsOfMembers` | src/com/mebigfatguy/fbcontrib/detect/BloatedAssignmentScope.java:1026-1028 | a location is reported iff it is the store location of a reported register |
| `Reporting.ReportsComeFromStores` | src/com/mebigfatguy/fbcontrib/detect/BloatedAssignmentScope.java:989-1039 | every report is the location of a store, in a block the walk visits, of a register that is live against the used set, not stored or loaded by any block between the walk's start and that block, and used by exactly one child, none of them loop, sync or try |
| `Reporting.KidsReportsComeFromStores` | src/com/mebigfatguy/fbcontrib/detect/BloatedAssignmentScope.java:1034-1038 | every report from the children walk comes from such a store under one of the children, judged against the widened used set |
| `Reporting.ReportedWhenSourced` | src/com/mebigfatguy/fbcontrib/detect/BloatedAssignmentScope.java:989-1039 | conversely, every such store in a block the walk visits is reported at its location, so the walk reports exactly these stores |
| `Reporting.UnusedBetweenChild` | src/com/mebigfatguy/fbcontrib/detect/BloatedAssignmentScope.java:994-1000 | the used set handed to a child is the parent's plus what the parent stores or loads: a register is unused from a block down to `x` iff the block does not touch it and it is unused from the child holding `x` down to `x` |
| `Reporting.KidReportsIncluded` | src/com/mebigfatguy/fbcontrib/detect/BloatedAssignmentScope.java:1034-1038 | the children walk reports everything each child's walk reports |
| `Reporting.NothingVisitedUnderLoop` | src/com/mebigfatguy/fbcontrib/detect/BloatedAssignmentScope.java:990-992 | the walk visits no block under a loop block, so nothing there is ever reported |
| `Reporting.VisitedReaches` | src/com/mebigfatguy/fbcontrib/detect/BloatedAssignmentScope.java:1034-1038 | the walk visits only blocks of the subtree |
| `Reporting.ReportedAtStart` | src/com/mebigfatguy/fbcontrib/detect/BloatedAssignmentScope.java:989-1031 | the walk's own starting block, when not a loop, reports each of its live, reportable stores |
| `Reporting.ReportsTreeFrame` | src/com/mebigfatguy/fbcontrib/detect/BloatedAssignmentScope.java:989-1039 | what `findBugs` reports depends only on the subtree it starts from |
| `Reporting.UseCountFrame` | src/com/mebigfatguy/fbcontrib/detect/BloatedAssignmentScope.java:1013-1024 | the use count depends only on the block's subtree |
| `SwitchTargets.Sort` | src/com/mebigfatguy/fbcontrib/detect/BloatedAssignmentScope.java:439 | sorting keeps the targets as a multiset |
| `SwitchTargets.SortSpec` | src/com/mebigfatguy/fbcontrib/detect/BloatedAssignmentScope.java:439 | the sorted list is ascending and a permutation of its input |
| `SwitchTargets.WithDefault` | src/com/mebigfatguy/fbcontrib/detect/BloatedAssignmentScope.java:435-438 | the default target is added only when absent: the list then holds the cases and the default, and grows by one exactly when the default was new |
| `SwitchTargets.Shifted` | src/com/mebigfatguy/fbcontrib/detect/BloatedAssignmentScope.java:431-434 | each offset is moved by `pc`, in order |
| `SwitchTargets.TargetListContents` | src/com/mebigfatguy/fbcontrib/detect/BloatedAssignmentScope.java:429-439 | the target list is ascending, non-empty, holds exactly the shifted offsets and the shifted default, and keeps duplicate case offsets |
| `SwitchTargets.CollectTargets` | src/com/mebigfatguy/fbcontrib/detect/BloatedAssignmentScope.java:429-439 | the loop builds exactly `SwitchTargetList` |
| `Risk.ContainsIgnoreCase` | src/com/mebigfatguy/fbcontrib/detect/BloatedAssignmentScope.java:89 | the scan finds the word, ignoring ASCII case, iff it occurs somewhere in the key |
| `Risk.LastIndexOfDot` | src/com/mebigfatguy/fbcontrib/detect/BloatedAssignmentScope.java:90-91 | the last dot of the key, with no dot after it, or none when the key has no dot |
| `Risk.SerialPatternMatches` | src/com/mebigfatguy/fbcontrib/detect/BloatedAssignmentScope.java:89 | `.*serial.*` matches, case-insensitively, iff the key has no line terminator and contains the word |
| `Risk.DotWordPatternMatches` | src/com/mebigfatguy/fbcontrib/detect/BloatedAssignmentScope.java:90-91 | `.*\.read[^.]*` and `.*\.create[^.]*` match iff the text after the key's last dot starts with the word, ignoring case, and nothing before that dot is a line terminator |
| `Risk.IsRiskyMethodCall` | src/com/mebigfatguy/fbcontrib/detect/BloatedAssignmentScope.java:1093-1114 | risky iff the class is in the class set, or `class.name+sig` is in the method set, or one of the three patterns matches the key |
| `Risk.CurrentTimeMillisIsRisky` | src/com/mebigfatguy/fbcontrib/detect/BloatedAssignmentScope.java:77 | `System.currentTimeMillis()J` is risky |
| `Risk.UpperCaseReadMatches` | src/com/mebigfatguy/fbcontrib/detect/BloatedAssignmentScope.java:90 | the read pattern ignores case after the dot |
| `Risk.ReaderClassIsNotRead` | src/com/mebigfatguy/fbcontrib/detect/BloatedAssignmentScope.java:90 | a class name containing "reader" before the dot does not make the read pattern match |
| `Sessions.StoreKey` | src/com/mebigfatguy/fbcontrib/detect/BloatedAssignmentScope.java:277-285 | a store associates either nothing or the stack's tag, never a caller key |
| `Sessions.ForgetCallerIsNoop` | src/com/mebigfatguy/fbcontrib/detect/BloatedAssignmentScope.java:476-481 | retracting by a caller key never finds an association, so it changes nothing |
| `Sessions.AddCases` | src/com/mebigfatguy/fbcontrib/detect/BloatedAssignmentScope.java:441-448 | each pair of consecutive targets adds one case block `[t[i-1], t[i])`, finish possibly clipped; no earlier block changes its range or accesses |
| `Sessions.AttachedKeepsAccesses` | src/com/mebigfatguy/fbcontrib/detect/BloatedAssignmentScope.java:946-972 | adding a block keeps every block's loads and stores, and the new block has none |
| `Sessions.Seeded` | src/com/mebigfatguy/fbcontrib/detect/BloatedAssignmentScope.java:152-181 | the seeded session satisfies the session invariant |
| `HandlerFacts.IgnoredStoreRecordsNothing` | src/com/mebigfatguy/fbcontrib/detect/BloatedAssignmentScope.java:255-294 | a store of an ignored register records nothing; at a catch handler it still splits the enclosing block |
| `HandlerFacts.IgnoredIincRecordsNothing` | src/com/mebigfatguy/fbcontrib/detect/BloatedAssignmentScope.java:302-331 | an increment of an ignored register changes nothing |
| `HandlerFacts.IgnoredLoadRecordsNothing` | src/com/mebigfatguy/fbcontrib/detect/BloatedAssignmentScope.java:341-351 | a load of an ignored register changes nothing |
| `HandlerFacts.StoreIgnoredWhen` | src/com/mebigfatguy/fbcontrib/detect/BloatedAssignmentScope.java:255-294 | a store at a catch handler, with a monitor open, after ACONST_NULL, of a `Future`, of a risky tag, or outside every block, adds exactly that register to the ignored set and records no load or store (a catch handler may still split a block) |
| `HandlerFacts.StoreRecorded` | src/com/mebigfatguy/fbcontrib/detect/BloatedAssignmentScope.java:274-289 | otherwise the innermost block around `pc` records the store and its association, and also a load when DUP came just before; nothing else changes |
| `HandlerFacts.CallerRetractionIsDead` | src/com/mebigfatguy/fbcontrib/detect/BloatedAssignmentScope.java:462-486 | an instance call changes nothing but `dontReport`, which it sets for `wasNull()Z` |
| `HandlerFacts.StepFollows` | src/com/mebigfatguy/fbcontrib/detect/BloatedAssignmentScope.java:200-245 | each instruction only adds ignored registers, and sets `dontReport` iff it already was set or the instruction is `wasNull()Z` |
| `HandlerFacts.RunKeepsIgnored` | src/com/mebigfatguy/fbcontrib/detect/BloatedAssignmentScope.java:152-191 | the ignored registers only grow during the pass |
| `HandlerFacts.RunDontReport` | src/com/mebigfatguy/fbcontrib/detect/BloatedAssignmentScope.java:184-186 | at the end, `dontReport` holds iff it held at the start or some instruction was a `wasNull()Z` call |
| `HandlerFacts.StepKeepsUntracked` | src/com/mebigfatguy/fbcontrib/detect/BloatedAssignmentScope.java:200-245 | an ignored register that no block loads or stores stays ignored and untracked after any instruction |
| `HandlerFacts.RunKeepsUntracked` | src/com/mebigfatguy/fbcontrib/detect/BloatedAssignmentScope.java:152-191 | the same over a whole pass |
| `HandlerFacts.SeededRegistersNeverTracked` | src/com/mebigfatguy/fbcontrib/detect/BloatedAssignmentScope.java:155-164 | `this` and the parameter registers are never loaded or stored by any block, whatever the code |
| `HandlerFacts.StoreKeepsRoot` | src/com/mebigfatguy/fbcontrib/detect/BloatedAssignmentScope.java:255-294 | with the root as the only block and no catch handlers, a store records into the root at most and adds no block |
| `HandlerFacts.IincKeepsRoot` | src/com/mebigfatguy/fbcontrib/detect/BloatedAssignmentScope.java:302-331 | the same for an increment, which loads and then stores |
| `HandlerFacts.StepKeepsRoot` | src/com/mebigfatguy/fbcontrib/detect/BloatedAssignmentScope.java:200-245 | with no try starts, an instruction other than a branch, switch or monitor instruction keeps the root as the only block, without children |
| `HandlerFacts.RunKeepsRoot` | src/com/mebigfatguy/fbcontrib/detect/BloatedAssignmentScope.java:182 | the same over a whole pass of such instructions |
| `HandlerFacts.StraightLineReportsNothing` | src/com/mebigfatguy/fbcontrib/detect/BloatedAssignmentScope.java:152-191 | a method with no branch, switch or monitor instruction and an empty exception table ends with the root block alone, and the final walk reports nothing |
| `HandlerFacts.BranchKeepsUntracked` | src/com/mebigfatguy/fbcontrib/detect/BloatedAssignmentScope.java:361-421 | a branch never starts tracking a register |
| `HandlerFacts.PushedUpKeepsUntracked` | src/com/mebigfatguy/fbcontrib/detect/BloatedAssignmentScope.java:1071-1090 | pushing accesses up never starts tracking a register |
| `HandlerFacts.StoreKeepsOthers` | src/com/mebigfatguy/fbcontrib/detect/BloatedAssignmentScope.java:255-294 | a store of one register never starts tracking another |
| `HandlerFacts.IincKeepsOthers` | src/com/mebigfatguy/fbcontrib/detect/BloatedAssignmentScope.java:302-331 | an increment of one register never starts tracking another |
| `HandlerFacts.LoadKeepsOthers` | src/com/mebigfatguy/fbcontrib/detect/BloatedAssignmentScope.java:341-351 | a load of one register never starts tracking another |
| `HandlerFacts.SwitchCases` | src/com/mebigfatguy/fbcontrib/detect/BloatedAssignmentScope.java:429-452 | a switch adds exactly one case block per pair of consecutive sorted targets (`|T|-1` blocks), leaves existing ranges and accesses alone, and adds every target to the switch targets |
| `HandlerFacts.ClimbToSpec` | src/com/mebigfatguy/fbcontrib/detect/BloatedAssignmentScope.java:400-410 | the climb ends at an ancestor that is the start block or starts at or after the target, and whose parent, if any, starts before the target |
| `HandlerFacts.MonitorBalanced` | src/com/mebigfatguy/fbcontrib/detect/BloatedAssignmentScope.java:510-532 | a MONITORENTER followed by a MONITOREXIT leaves the monitor stack as it was |
| `HandlerFacts.MonitorEnterKeepsAccesses` | src/com/mebigfatguy/fbcontrib/detect/BloatedAssignmentScope.java:510-516 | entering a monitor adds a sync block without touching any block's accesses |
| `HandlerFacts.MonitorExitKeepsAccesses` | src/com/mebigfatguy/fbcontrib/detect/BloatedAssignmentScope.java:524-532 | leaving a monitor keeps every block's loads and stores |
| `HandlerFacts.OpenTryKeepsAccesses` | src/com/mebigfatguy/fbcontrib/detect/BloatedAssignmentScope.java:206-210 | opening a try block touches no block's accesses |
| `Detector.BloatedAssignmentScope.constructor` | src/com/mebigfatguy/fbcontrib/detect/BloatedAssignmentScope.java:128-133 | the per-class allocation: empty register sets and monitor stack, and a placeholder one-block tree that `visitCode` replaces |
| `Detector.BloatedAssignmentScope.Seed` | src/com/mebigfatguy/fbcontrib/detect/BloatedAssignmentScope.java:155-181 | the session becomes `Seeded`: ignored `this` and parameters, a root `[0, length)`, try starts and handlers from the table, flags cleared; the monitor stack is kept |
| `Detector.BloatedAssignmentScope.SeedIgnores` | src/com/mebigfatguy/fbcontrib/detect/BloatedAssignmentScope.java:155-164 | register 0 for an instance method, plus every parameter register |
| `Detector.BloatedAssignmentScope.ScanExceptionTable` | src/com/mebigfatguy/fbcontrib/detect/BloatedAssignmentScope.java:167-175 | the start and handler locations of every entry |
| `Detector.BloatedAssignmentScope.WalkCode` | src/com/mebigfatguy/fbcontrib/detect/BloatedAssignmentScope.java:182 | the session after every instruction in order is `Run` |
| `Detector.BloatedAssignmentScope.VisitCode` | src/com/mebigfatguy/fbcontrib/detect/BloatedAssignmentScope.java:152-191 | the reports are, as a multiset, `ReportsTree` of the finished tree from the root with no used registers, or none when `dontReport` is set |
| `Detector.BloatedAssignmentScope.ReportStores` | src/com/mebigfatguy/fbcontrib/detect/BloatedAssignmentScope.java:184-186 | the final walk reports `ReportsTree` of the root unless `dontReport` |
| `Detector.BloatedAssignmentScope.SawOpcode` | src/com/mebigfatguy/fbcontrib/detect/BloatedAssignmentScope.java:200-245 | the new session and the produced tag are `Step`: a try block opens first, then the handler runs, then `sawDup`/`sawNull` record the instruction |
| `Detector.BloatedAssignmentScope.OpenTryBlock` | src/com/mebigfatguy/fbcontrib/detect/BloatedAssignmentScope.java:206-210 | at a try start, a try block `[pc, handler)` is added under the root |
| `Detector.BloatedAssignmentScope.DispatchInstr` | src/com/mebigfatguy/fbcontrib/detect/BloatedAssignmentScope.java:212-230 | the instruction reaches its handler: the result is `Dispatch` |
| `Detector.BloatedAssignmentScope.SawStore` | src/com/mebigfatguy/fbcontrib/detect/BloatedAssignmentScope.java:255-294 | the session becomes `StoreStep` |
| `Detector.BloatedAssignmentScope.SplitCatchBlock` | src/com/mebigfatguy/fbcontrib/detect/BloatedAssignmentScope.java:258-265 | the block around `pc + 1`, when it started before `pc`, ends at `pc - 1`, and its old rest becomes a new block from `pc` |
| `Detector.BloatedAssignmentScope.StoreOrIgnoreReg` | src/com/mebigfatguy/fbcontrib/detect/BloatedAssignmentScope.java:274-293 | a register not yet ignored is recorded in the innermost block, or becomes ignored when no block encloses `pc` or the tag is risky |
| `Detector.BloatedAssignmentScope.LoadOrIgnoreReg` | src/com/mebigfatguy/fbcontrib/detect/BloatedAssignmentScope.java:343-350 | the load is recorded in the innermost block, or the register becomes ignored when no block encloses `pc` |
| `Detector.BloatedAssignmentScope.SawIinc` | src/com/mebigfatguy/fbcontrib/detect/BloatedAssignmentScope.java:302-331 | the session becomes `IincStep`: a load, the ignore conditions, then a store without an association |
| `Detector.BloatedAssignmentScope.SawLoad` | src/com/mebigfatguy/fbcontrib/detect/BloatedAssignmentScope.java:341-351 | the session becomes `LoadStep` |
| `Detector.BloatedAssignmentScope.SawBranch` | src/com/mebigfatguy/fbcontrib/detect/BloatedAssignmentScope.java:361-421 | the session becomes `BranchStep` |
| `Detector.BloatedAssignmentScope.SawForwardGoto` | src/com/mebigfatguy/fbcontrib/detect/BloatedAssignmentScope.java:364-378 | nothing at a switch target; otherwise a loop+goto block `[pc, target)` when no block of the tree starts before `pc`, has not finished before `pc`, and either finishes at or before `nextPC` or is a goto block that is not a loop; when such a block exists, a goto block `[nextPC, target)` |
| `Detector.BloatedAssignmentScope.SawForwardBranch` | src/com/mebigfatguy/fbcontrib/detect/BloatedAssignmentScope.java:379-398 | the block `findScopeBlockWithTarget` finds (starting before `pc`, not finished before `pc`, finishing at or before the target or a non-loop goto block) is absorbed when it is not loop or case and never had children; otherwise a new block `[pc, target)` |
| `Detector.BloatedAssignmentScope.Absorb` | src/com/mebigfatguy/fbcontrib/detect/BloatedAssignmentScope.java:381-393 | the block pushes its accesses up; a goto block leaves its parent and is replaced by `[pc, target)`, any other block is stretched to start at `pc` |
| `Detector.BloatedAssignmentScope.SawBackwardBranch` | src/com/mebigfatguy/fbcontrib/detect/BloatedAssignmentScope.java:399-420 | the loop head found from the innermost block around `pc` is marked as a loop; nothing happens outside every block |
| `Detector.BloatedAssignmentScope.ClimbParents` | src/com/mebigfatguy/fbcontrib/detect/BloatedAssignmentScope.java:402-410 | the loop climbs to exactly `ClimbTo` |
| `Detector.BloatedAssignmentScope.FindLoopHead` | src/com/mebigfatguy/fbcontrib/detect/BloatedAssignmentScope.java:400-417 | the climb followed by the previous-sibling step gives `LoopHead` |
| `Detector.BloatedAssignmentScope.SawSwitch` | src/com/mebigfatguy/fbcontrib/detect/BloatedAssignmentScope.java:429-452 | the session becomes `SwitchStep` |
| `Detector.BloatedAssignmentScope.AddCaseBlocks` | src/com/mebigfatguy/fbcontrib/detect/BloatedAssignmentScope.java:441-448 | the case-block loop produces `AddCases` from the second target on |
| `Detector.BloatedAssignmentScope.AddSwitchTargets` | src/com/mebigfatguy/fbcontrib/detect/BloatedAssignmentScope.java:449-451 | every target joins the switch targets; nothing else changes |
| `Detector.BloatedAssignmentScope.SawInstanceCall` | src/com/mebigfatguy/fbcontrib/detect/BloatedAssignmentScope.java:462-486 | the session and tag are `InstanceCallStep`: `dontReport` is set for `wasNull()Z`, and a tag is produced unless the call returns void |
| `Detector.BloatedAssignmentScope.SawStaticCall` | src/com/mebigfatguy/fbcontrib/detect/BloatedAssignmentScope.java:493-502 | a tag iff the signature does not end in `V`; the tag is risky iff the call is risky |
| `Detector.BloatedAssignmentScope.SawMonitorEnter` | src/com/mebigfatguy/fbcontrib/detect/BloatedAssignmentScope.java:510-516 | the session becomes `MonitorEnterStep`: `pc` pushed, a sync block `[pc, 0x7fffffff)` added under the root |
| `Detector.BloatedAssignmentScope.SawMonitorExit` | src/com/mebigfatguy/fbcontrib/detect/BloatedAssignmentScope.java:524-532 | the session becomes `MonitorExitStep`: with a monitor open, the synchronized block found from the root ends at `pc` and the last entry is popped |

## Left out

- The operand-stack simulation (`OpcodeStack`, `precomputation`) and the
  `TernaryPatcher` hooks around `sawOpcode` are not modelled. The tag on top of
  the stack before a store is an input to the store. The tag a call produces is
  the result of `SawOpcode`. Nothing here attaches it to a stack item.
- Bytecode decoding (`Code`, `CodeException`, `RegisterUtils`, `OpcodeUtils`)
  is not modelled. Instructions arrive as the `Instr` datatype with their
  operands already decoded. The exception table arrives as a sequence of
  entries.
- The local variable table lookup in `isRiskyStoreClass` is not modelled. Its
  result, the declared signature or none, is an input. `getCallingObject` is
  not modelled either; the caller key is an input.
- `java.util.regex` is not modelled. The three patterns are stated as
  whole-string predicates, with the line-terminator rule of `.`, and ASCII-only
  case folding.
- Bug reporting is a sequence of store locations. The class, method and
  priority fields of a `BugInstance` are left out.
- Reports within one block come out in an unspecified order, as `HashMap`
  iteration does. Contracts therefore speak of the multiset of reports.
- The release of the per-class state to null in `visitClassContext`'s
  `finally`, the `OpcodeStack` allocation, `toString`, and the reset of the
  root to null in `visitCode`'s `finally` are framework lifecycle and are not
  modelled. The allocation of the empty sets and monitor stack is the
  detector's constructor.
- `NonCollectionMethodUse.java` is not part of this model.
- Integers are unbounded. Locations and offsets never approach 2^31 in a class
  file. `Integer.MAX_VALUE` is kept as the constant `0x7fff_ffff` for sync
  blocks.
- Registers are `nat`, so the `BitSet` exception on a negative index cannot
  arise.
- The detector's own `null` checks that can never fail are not modelled. One
  is `sb != null` after `findSynchronizedScopeBlock` in `sawMonitorExit`.
- `ScopeTrees.ScopeTree.FindBugs`: for blocks strictly below the start block,
  the contract states only that their stores lose entries. It does not state
  which ones; the exact pruned map is stated only for the start block itself.
