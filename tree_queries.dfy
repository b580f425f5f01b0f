/**
 * The detector's read-only searches over the scope tree and over the
 * method's exception table.
 */
module TreeQueries {
  import opened Common
  import opened ScopeBlocks

  // ---------------------------------------------------------------------
  // findScopeBlock
  // ---------------------------------------------------------------------

  /**
   * The innermost block under `sb` that strictly contains `pc`: nothing when
   * `sb` itself does not, otherwise the first child (in list order) whose
   * search succeeds, otherwise `sb`.
   */
  function FindScopeBlock(bs: seq<Block>, sb: int, pc: int): (r: Option<int>)
    requires WellFormed(bs) && 0 <= sb < |bs|
    ensures r.None? <==> !Strict(bs[sb], pc)
    ensures r.Some? ==> 0 <= r.value < |bs| && Reaches(bs, sb, r.value) && Strict(bs[r.value], pc)
    decreases |bs| - sb, 1
  {
    if Strict(bs[sb], pc) then
      match FindInChildren(bs, sb, 0, pc)
      case Some(x) => Some(x)
      case None => Some(sb)
    else
      None
  }

  /** The first successful search among the children of `sb` from list position `i` on. */
  function FindInChildren(bs: seq<Block>, sb: int, i: int, pc: int): (r: Option<int>)
    requires WellFormed(bs) && 0 <= sb < |bs| && 0 <= i <= |bs[sb].children|
    ensures r.None? <==> forall j :: i <= j < |bs[sb].children| ==> !Strict(bs[bs[sb].children[j]], pc)
    ensures r.Some? ==> 0 <= r.value < |bs| && Reaches(bs, sb, r.value) && Strict(bs[r.value], pc)
    decreases |bs| - sb, 0, |bs[sb].children| - i
  {
    if i == |bs[sb].children| then None
    else
      match FindScopeBlock(bs, bs[sb].children[i], pc)
      case Some(x) => Some(x)
      case None => FindInChildren(bs, sb, i + 1, pc)
  }

  lemma {:induction false} FindInChildrenIsFirst(bs: seq<Block>, sb: int, i: int, pc: int)
    requires WellFormed(bs) && 0 <= sb < |bs| && Handles(bs, bs[sb].children)
    requires 0 <= i <= FirstContaining(bs, bs[sb].children, pc)
    ensures var f := FirstContaining(bs, bs[sb].children, pc);
            FindInChildren(bs, sb, i, pc) == if f < |bs[sb].children| then FindScopeBlock(bs, bs[sb].children[f], pc) else None
    decreases |bs[sb].children| - i
  {
    var f := FirstContaining(bs, bs[sb].children, pc);
    if i < f {
      FindInChildrenIsFirst(bs, sb, i + 1, pc);
    }
  }

  /** `findScopeBlock` returns the block reached by stepping into the first strictly containing child at every level. */
  lemma {:induction false} FindScopeBlockDescends(bs: seq<Block>, sb: int, pc: int)
    requires WellFormed(bs) && 0 <= sb < |bs| && Strict(bs[sb], pc)
    ensures FindScopeBlock(bs, sb, pc) == Some(Descend(bs, sb, pc))
    decreases |bs| - sb
  {
    assert Handles(bs, bs[sb].children);
    var f := FirstContaining(bs, bs[sb].children, pc);
    FindInChildrenIsFirst(bs, sb, 0, pc);
    if f < |bs[sb].children| {
      FindScopeBlockDescends(bs, bs[sb].children[f], pc);
    }
  }

  // ---------------------------------------------------------------------
  // findScopeBlockWithTarget
  // ---------------------------------------------------------------------

  /**
   * A block that an earlier branch opened and that a branch at `start` to
   * `target` continues: it starts before `start`, has not finished before
   * `start`, and either finishes at or before `target` or is a plain goto block.
   */
  predicate TargetCandidate(b: Block, start: int, target: int)
  {
    b.start < start && b.finish >= start && (b.finish <= target || (b.isGoto && !b.isLoop))
  }

  /**
   * A candidate under `sb`, the children's subtrees searched first (in list
   * order) and `sb` itself last.
   */
  function FindScopeBlockWithTarget(bs: seq<Block>, sb: int, start: int, target: int): (r: Option<int>)
    requires WellFormed(bs) && 0 <= sb < |bs|
    ensures r.None? <==> forall x :: 0 <= x < |bs| && Reaches(bs, sb, x) ==> !TargetCandidate(bs[x], start, target)
    ensures r.Some? ==> 0 <= r.value < |bs| && Reaches(bs, sb, r.value) && TargetCandidate(bs[r.value], start, target)
    ensures r == Some(sb) ==>
              forall j, x :: 0 <= j < |bs[sb].children| && 0 <= x < |bs| && Reaches(bs, bs[sb].children[j], x)
                ==> !TargetCandidate(bs[x], start, target)
    decreases |bs| - sb, 1
  {
    match TargetInChildren(bs, sb, 0, start, target)
    case Some(x) =>
      assert x != sb by {
        var j :| 0 <= j < |bs[sb].children| && Reaches(bs, bs[sb].children[j], x);
        ReachesInArena(bs, bs[sb].children[j], x);
      }
      Some(x)
    case None => if TargetCandidate(bs[sb], start, target) then Some(sb) else None
  }

  /** The first successful target search among the children of `sb` from list position `i` on. */
  function TargetInChildren(bs: seq<Block>, sb: int, i: int, start: int, target: int): (r: Option<int>)
    requires WellFormed(bs) && 0 <= sb < |bs| && 0 <= i <= |bs[sb].children|
    ensures r.None? <==>
              forall j, x :: i <= j < |bs[sb].children| && 0 <= x < |bs| && Reaches(bs, bs[sb].children[j], x)
                ==> !TargetCandidate(bs[x], start, target)
    ensures r.Some? ==>
              0 <= r.value < |bs| && TargetCandidate(bs[r.value], start, target)
              && exists j :: i <= j < |bs[sb].children| && Reaches(bs, bs[sb].children[j], r.value)
    decreases |bs| - sb, 0, |bs[sb].children| - i
  {
    if i == |bs[sb].children| then None
    else
      match FindScopeBlockWithTarget(bs, bs[sb].children[i], start, target)
      case Some(x) => Some(x)
      case None => TargetInChildren(bs, sb, i + 1, start, target)
  }

  // ---------------------------------------------------------------------
  // findPreviousSiblingScopeBlock
  // ---------------------------------------------------------------------

  /** `k` immediately precedes `x` in the list `ks`, `x` not being first. */
  ghost predicate Precedes(ks: seq<int>, k: int, x: int)
  {
    exists i :: 1 <= i < |ks| && ks[i] == x && ks[i - 1] == k
  }

  /**
   * The block listed just before `sb` among its parent's children: nothing
   * when `sb` has no parent, is first, or is no longer listed there.
   */
  function PreviousSibling(bs: seq<Block>, sb: int): (r: Option<int>)
    requires WellFormed(bs) && 0 <= sb < |bs|
    ensures r.None? <==>
              bs[sb].parent < 0 || forall i :: 1 <= i < |bs[bs[sb].parent].children| ==> bs[bs[sb].parent].children[i] != sb
    ensures r.Some? ==> bs[sb].parent >= 0 && Precedes(bs[bs[sb].parent].children, r.value, sb)
  {
    var p := bs[sb].parent;
    if p < 0 then None
    else
      var kids := bs[p].children;
      var i := IndexOf(kids, sb);
      if 0 < i < |kids| then Some(kids[i - 1]) else None
  }

  /** The sibling search, walking the parent's children list while remembering the last one passed. */
  method FindPreviousSiblingScopeBlock(bs: seq<Block>, sb: int) returns (r: Option<int>)
    requires WellFormed(bs) && 0 <= sb < |bs|
    ensures r == PreviousSibling(bs, sb)
  {
    var p := bs[sb].parent;
    if p < 0 {
      return None;
    }
    var kids := bs[p].children;
    var lastSibling: Option<int> := None;
    var i := 0;
    while i < |kids|
      invariant 0 <= i <= |kids| && i <= IndexOf(kids, sb)
      invariant lastSibling == if i == 0 then None else Some(kids[i - 1])
    {
      if kids[i] == sb {
        return lastSibling;
      }
      lastSibling := Some(kids[i]);
      i := i + 1;
    }
    return None;
  }

  /** In a well-formed arena the previous sibling is unique, so the answer is determined. */
  lemma PrecedesUnique(bs: seq<Block>, p: int, k1: int, k2: int, x: int)
    requires WellFormed(bs) && 0 <= p < |bs|
    requires Precedes(bs[p].children, k1, x) && Precedes(bs[p].children, k2, x)
    ensures k1 == k2
  {
  }

  // ---------------------------------------------------------------------
  // findSynchronizedScopeBlock
  // ---------------------------------------------------------------------

  /** Child `c` is a synchronized block starting after the current candidate `m`. */
  predicate LaterSync(bs: seq<Block>, c: int, m: int)
    requires 0 <= c < |bs| && 0 <= m < |bs|
  {
    bs[c].isSync && bs[c].start > bs[m].start
  }

  /** No child of `m` is a later-starting synchronized block. */
  ghost predicate Innermost(bs: seq<Block>, m: int)
    requires WellFormed(bs) && 0 <= m < |bs|
  {
    forall j :: 0 <= j < |bs[m].children| ==> !LaterSync(bs, bs[m].children[j], m)
  }

  /**
   * The block the synchronized search starting at `sb` ends on: `sb` unless
   * some child is a later-starting synchronized block, in which case a
   * synchronized block below `sb` with nothing later-starting and
   * synchronized among its own children.
   */
  ghost function SyncFrom(bs: seq<Block>, sb: int): (m: int)
    requires WellFormed(bs) && 0 <= sb < |bs|
    ensures 0 <= m < |bs| && Reaches(bs, sb, m) && Innermost(bs, m)
    ensures m == sb || (bs[m].isSync && bs[m].start > bs[sb].start)
    ensures m == sb <==> Innermost(bs, sb)
    decreases |bs| - sb, 1
  {
    SyncScan(bs, sb, 0, sb)
  }

  /**
   * The candidate after scanning the children of `sb` from position `i` on,
   * starting from candidate `mb`: a later-starting synchronized child replaces
   * the candidate by the result of searching below that child.
   */
  ghost function SyncScan(bs: seq<Block>, sb: int, i: int, mb: int): (r: int)
    requires WellFormed(bs) && 0 <= sb < |bs| && 0 <= i <= |bs[sb].children| && 0 <= mb < |bs|
    ensures 0 <= r < |bs|
    ensures r == mb <==> forall j :: i <= j < |bs[sb].children| ==> !LaterSync(bs, bs[sb].children[j], mb)
    ensures r != mb ==> Reaches(bs, sb, r) && bs[r].isSync && bs[r].start > bs[mb].start && Innermost(bs, r)
    decreases |bs| - sb, 0, |bs[sb].children| - i
  {
    if i == |bs[sb].children| then mb
    else
      var c := bs[sb].children[i];
      if LaterSync(bs, c, mb) then SyncScan(bs, sb, i + 1, SyncFrom(bs, c))
      else SyncScan(bs, sb, i + 1, mb)
  }

  /**
   * The synchronized block a monitor exit closes. The monitor-enter location
   * is accepted and not consulted; the search may end on `sb` itself.
   */
  method FindSynchronizedScopeBlock(bs: seq<Block>, sb: int, monitorEnterPC: int) returns (m: int)
    requires WellFormed(bs) && 0 <= sb < |bs|
    ensures m == SyncFrom(bs, sb)
    decreases |bs| - sb
  {
    m := sb;
    if bs[sb].hasChildren {
      var kids := bs[sb].children;
      var i := 0;
      while i < |kids|
        invariant 0 <= i <= |kids| && 0 <= m < |bs|
        invariant SyncScan(bs, sb, i, m) == SyncFrom(bs, sb)
      {
        var c := kids[i];
        if bs[c].isSync && bs[c].start > bs[m].start {
          m := c;
          m := FindSynchronizedScopeBlock(bs, m, monitorEnterPC);
        }
        i := i + 1;
      }
    }
  }

  // ---------------------------------------------------------------------
  // findCatchHandlerFor
  // ---------------------------------------------------------------------

  /** One entry of a method's exception table: the guarded range's first location and the handler's location. */
  datatype ExceptionEntry = ExceptionEntry(startPC: nat, handlerPC: nat)

  /** The handler of the first table entry whose guarded range starts at `pc`, or -1 when no entry does. */
  function FindCatchHandlerFor(table: seq<ExceptionEntry>, pc: int): (h: int)
    ensures h == -1 <==> forall i :: 0 <= i < |table| ==> table[i].startPC != pc
    ensures h != -1 ==>
              exists i :: 0 <= i < |table| && table[i].startPC == pc && table[i].handlerPC == h
                          && forall j :: 0 <= j < i ==> table[j].startPC != pc
  {
    if table == [] then -1
    else if table[0].startPC == pc then table[0].handlerPC
    else
      var h := FindCatchHandlerFor(table[1..], pc);
      assert h != -1 ==> exists i :: 1 <= i < |table| && table[i].startPC == pc && table[i].handlerPC == h
                                     && forall j :: 1 <= j < i ==> table[j].startPC != pc by {
        if h != -1 {
          var k :| 0 <= k < |table[1..]| && table[1..][k].startPC == pc && table[1..][k].handlerPC == h
                   && forall j :: 0 <= j < k ==> table[1..][j].startPC != pc;
          assert forall j :: 1 <= j < k + 1 ==> table[j].startPC != pc by {
            forall j | 1 <= j < k + 1 ensures table[j].startPC != pc {
              assert table[j] == table[1..][j - 1];
            }
          }
        }
      }
      h
  }
}
