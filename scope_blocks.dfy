/**
 * The inferred lexical blocks of one method, kept as an arena: a sequence of
 * block records addressed by integer handles, handle 0 being the root that
 * spans the whole method. A block refers to its parent and to its ordered
 * children by handle. Blocks are only ever appended, each as a child of an
 * existing block, so a child's handle is always larger than its parent's;
 * that order is what makes every recursive walk over the tree terminate.
 */
module ScopeBlocks {
  import opened Common

  /** `Integer.MAX_VALUE`: the finish of a synchronized block before its monitor exit is seen. */
  const IntMax: int := 0x7fff_ffff

  /** The object an instance call is made on: a register, or a field named by the call's receiver. */
  datatype CallerKey = RegisterCaller(reg: nat) | FieldCaller(name: string)

  /**
   * The tag attached to a non-void call result on the operand stack. A tag is
   * a fresh object per call, so it is identified here by `site`, the location
   * of the call instruction, which the single pass visits once.
   */
  datatype UserObject = UserObject(site: int, caller: Option<CallerKey>, isRisky: bool)

  /**
   * Keys of a block's association map. Stores put the tag of the stored value
   * (or null when there is none); retractions look up the caller of a later
   * call, a register number or a field name, which are values of other types.
   */
  datatype AssocKey = NullAssoc | TagAssoc(tag: UserObject) | CallerAssoc(caller: CallerKey)

  /**
   * One scope block: the range [start, finish), the kind flags, the register
   * to location maps of its loads and stores, its association map, and its
   * children in list order. `hasChildren` records whether a children list was
   * ever allocated: removing the last child leaves an empty list, and the
   * block still counts as having children afterwards.
   */
  datatype Block = Block(
    parent: int,
    start: int,
    finish: int,
    isLoop: bool,
    isGoto: bool,
    isSync: bool,
    isTry: bool,
    isCase: bool,
    loads: map<nat, int>,
    stores: map<nat, int>,
    assocs: map<AssocKey, nat>,
    children: seq<int>,
    hasChildren: bool)

  /** A block just constructed for the range [start, finish). */
  function NewBlock(start: int, finish: int): (b: Block)
    ensures IsNew(b) && b.start == start && b.finish == finish
    ensures !b.isLoop && !b.isGoto && !b.isSync && !b.isTry && !b.isCase
  {
    Block(-1, start, finish, false, false, false, false, false, map[], map[], map[], [], false)
  }

  /** Not yet attached anywhere: no parent, no accesses, no children list. */
  predicate IsNew(b: Block)
  {
    b.parent == -1 && b.loads == map[] && b.stores == map[] && b.assocs == map[]
    && b.children == [] && !b.hasChildren
  }

  /** `pc` lies strictly inside the block's range, the test every containment query uses. */
  predicate Strict(b: Block, pc: int)
  {
    b.start < pc < b.finish
  }

  /** The block reads or writes register `r` itself. */
  predicate Touches(b: Block, r: nat)
  {
    r in b.loads || r in b.stores
  }

  /**
   * Arena shape: a root exists; every parent handle is smaller than its
   * child's; children handles are larger than their parent's, lie in the
   * arena, point back at the parent and are listed once; a non-empty
   * children list implies the list was allocated.
   */
  ghost predicate WellFormed(bs: seq<Block>)
  {
    && |bs| > 0
    && (forall h :: 0 <= h < |bs| ==> -1 <= bs[h].parent < h && (bs[h].children != [] ==> bs[h].hasChildren))
    && (forall h, i :: 0 <= h < |bs| && 0 <= i < |bs[h].children| ==>
          h < bs[h].children[i] < |bs| && bs[bs[h].children[i]].parent == h)
    && (forall h :: 0 <= h < |bs| ==> Distinct(bs[h].children))
  }

  /** Position of the first occurrence of `c` in `ks`; `|ks|` when there is none. */
  function IndexOf(ks: seq<int>, c: int): (i: nat)
    ensures i <= |ks|
    ensures i < |ks| ==> ks[i] == c
    ensures forall j :: 0 <= j < i ==> ks[j] != c
  {
    if ks == [] then 0
    else if ks[0] == c then 0
    else 1 + IndexOf(ks[1..], c)
  }

  /** No element occurs twice in `ks`. */
  ghost predicate Distinct(ks: seq<int>)
  {
    forall i, j :: 0 <= i < j < |ks| ==> ks[i] != ks[j]
  }

  /** Every element of `ks` is a handle of the arena. */
  ghost predicate Handles(bs: seq<Block>, ks: seq<int>)
  {
    forall i :: 0 <= i < |ks| ==> 0 <= ks[i] < |bs|
  }

  /** `x` is `a` or lies in the subtree of `a`, following children lists. */
  ghost predicate Reaches(bs: seq<Block>, a: int, x: int)
    requires WellFormed(bs) && 0 <= a < |bs|
    decreases |bs| - a
  {
    a == x || exists i :: 0 <= i < |bs[a].children| && Reaches(bs, bs[a].children[i], x)
  }

  /** `a` is `x` or an ancestor of `x`, following parent links. */
  ghost predicate Below(bs: seq<Block>, x: int, a: int)
    requires WellFormed(bs) && 0 <= x < |bs|
    decreases x
  {
    x == a || (bs[x].parent >= 0 && Below(bs, bs[x].parent, a))
  }

  lemma {:induction false} ReachesInArena(bs: seq<Block>, a: int, x: int)
    requires WellFormed(bs) && 0 <= a < |bs| && Reaches(bs, a, x)
    ensures a <= x < |bs|
    decreases |bs| - a
  {
    if a != x {
      var i :| 0 <= i < |bs[a].children| && Reaches(bs, bs[a].children[i], x);
      ReachesInArena(bs, bs[a].children[i], x);
    }
  }

  lemma {:induction false} BelowInArena(bs: seq<Block>, x: int, a: int)
    requires WellFormed(bs) && 0 <= x < |bs| && Below(bs, x, a)
    ensures 0 <= a <= x
    decreases x
  {
    if x != a {
      BelowInArena(bs, bs[x].parent, a);
    }
  }

  /** An ancestor's own parent is an ancestor too. */
  lemma {:induction false} BelowParent(bs: seq<Block>, x: int, c: int)
    requires WellFormed(bs) && 0 <= x < |bs| && Below(bs, x, c) && 0 <= c < |bs| && bs[c].parent >= 0
    ensures Below(bs, x, bs[c].parent)
    decreases x
  {
    if x != c {
      BelowParent(bs, bs[x].parent, c);
    }
  }

  /** Going down the children lists and going up the parent links agree. */
  lemma {:induction false} ReachesIsBelow(bs: seq<Block>, a: int, x: int)
    requires WellFormed(bs) && 0 <= a < |bs| && Reaches(bs, a, x)
    ensures 0 <= x < |bs| && Below(bs, x, a)
    decreases |bs| - a
  {
    ReachesInArena(bs, a, x);
    if a != x {
      var i :| 0 <= i < |bs[a].children| && Reaches(bs, bs[a].children[i], x);
      var c := bs[a].children[i];
      ReachesIsBelow(bs, c, x);
      BelowParent(bs, x, c);
    }
  }

  /** The ancestors of a block form a chain: of two of them, the lower one lies below the higher one. */
  lemma {:induction false} BelowChain(bs: seq<Block>, x: int, a: int, b: int)
    requires WellFormed(bs) && 0 <= x < |bs| && Below(bs, x, a) && Below(bs, x, b) && a <= b
    ensures 0 <= b < |bs| && Below(bs, b, a)
    decreases x
  {
    BelowInArena(bs, x, a);
    BelowInArena(bs, x, b);
    if x != b {
      if x == a {
        assert false;
      } else {
        BelowChain(bs, bs[x].parent, a, b);
      }
    }
  }

  /** The subtrees of two different children of one block share no block. */
  lemma SiblingSubtreesDisjoint(bs: seq<Block>, h: int, i: int, j: int, x: int)
    requires WellFormed(bs) && 0 <= h < |bs|
    requires 0 <= i < |bs[h].children| && 0 <= j < |bs[h].children| && i != j
    requires Reaches(bs, bs[h].children[i], x)
    ensures !Reaches(bs, bs[h].children[j], x)
  {
    var ci, cj := bs[h].children[i], bs[h].children[j];
    if Reaches(bs, cj, x) {
      ReachesIsBelow(bs, ci, x);
      ReachesIsBelow(bs, cj, x);
      if ci < cj {
        BelowChain(bs, x, ci, cj);
        assert bs[cj].parent == h;
        BelowInArena(bs, h, ci);
      } else {
        BelowChain(bs, x, cj, ci);
        assert bs[ci].parent == h;
        BelowInArena(bs, h, cj);
      }
    }
  }

  /** A block of a child's subtree is in the parent's subtree. */
  lemma ReachesThroughChild(bs: seq<Block>, a: int, i: int, x: int)
    requires WellFormed(bs) && 0 <= a < |bs| && 0 <= i < |bs[a].children|
    requires Reaches(bs, bs[a].children[i], x)
    ensures Reaches(bs, a, x)
  {
  }

  /** A block is not in the subtree of any of its own children. */
  lemma NotBelowOwnChild(bs: seq<Block>, a: int, i: int)
    requires WellFormed(bs) && 0 <= a < |bs| && 0 <= i < |bs[a].children|
    ensures !Reaches(bs, bs[a].children[i], a)
  {
    if Reaches(bs, bs[a].children[i], a) {
      ReachesInArena(bs, bs[a].children[i], a);
    }
  }

  // ---------------------------------------------------------------------
  // Register use in a subtree
  // ---------------------------------------------------------------------

  /**
   * Whether the block or any block below it loads or stores `r`: the block's
   * own maps first, then the children in list order.
   */
  function UsesReg(bs: seq<Block>, h: int, r: nat): bool
    requires WellFormed(bs) && 0 <= h < |bs|
    decreases |bs| - h, 1
  {
    Touches(bs[h], r) || ChildUsesReg(bs, h, 0, r)
  }

  /** Whether some child at list position `i` or later uses `r`. */
  function ChildUsesReg(bs: seq<Block>, h: int, i: int, r: nat): bool
    requires WellFormed(bs) && 0 <= h < |bs| && 0 <= i <= |bs[h].children|
    decreases |bs| - h, 0, |bs[h].children| - i
  {
    i < |bs[h].children| && (UsesReg(bs, bs[h].children[i], r) || ChildUsesReg(bs, h, i + 1, r))
  }

  /** `usesReg` holds exactly when some block of the subtree loads or stores the register. */
  lemma {:induction false} UsesRegSubtree(bs: seq<Block>, h: int, r: nat)
    requires WellFormed(bs) && 0 <= h < |bs|
    ensures UsesReg(bs, h, r) <==> exists x :: Reaches(bs, h, x) && 0 <= x < |bs| && Touches(bs[x], r)
    decreases |bs| - h, 1
  {
    ChildUsesRegSubtree(bs, h, 0, r);
  }

  lemma {:induction false} ChildUsesRegSubtree(bs: seq<Block>, h: int, i: int, r: nat)
    requires WellFormed(bs) && 0 <= h < |bs| && 0 <= i <= |bs[h].children|
    ensures ChildUsesReg(bs, h, i, r) <==>
              exists j, x :: i <= j < |bs[h].children| && Reaches(bs, bs[h].children[j], x)
                             && 0 <= x < |bs| && Touches(bs[x], r)
    decreases |bs| - h, 0, |bs[h].children| - i
  {
    if i < |bs[h].children| {
      UsesRegSubtree(bs, bs[h].children[i], r);
      ChildUsesRegSubtree(bs, h, i + 1, r);
    }
  }

  // ---------------------------------------------------------------------
  // Frames: what a query over a subtree depends on
  // ---------------------------------------------------------------------

  /** Two arenas of equal size hold the same record at every block of the subtree of `a`. */
  ghost predicate AgreeBelow(bs: seq<Block>, bs': seq<Block>, a: int)
    requires WellFormed(bs) && 0 <= a < |bs|
  {
    |bs'| == |bs| && forall x :: 0 <= x < |bs| && Reaches(bs, a, x) ==> bs'[x] == bs[x]
  }

  /** Agreement on a subtree passes down to each child's subtree. */
  lemma AgreeBelowChild(bs: seq<Block>, bs': seq<Block>, a: int, i: int)
    requires WellFormed(bs) && 0 <= a < |bs| && AgreeBelow(bs, bs', a) && 0 <= i < |bs[a].children|
    ensures AgreeBelow(bs, bs', bs[a].children[i])
  {
  }

  /** Arenas that agree on a subtree have the same subtree. */
  lemma {:induction false} ReachesFrame(bs: seq<Block>, bs': seq<Block>, a: int, x: int)
    requires WellFormed(bs) && WellFormed(bs') && 0 <= a < |bs| && AgreeBelow(bs, bs', a)
    ensures Reaches(bs, a, x) <==> Reaches(bs', a, x)
    decreases |bs| - a
  {
    assert bs'[a] == bs[a];
    forall i | 0 <= i < |bs[a].children|
      ensures Reaches(bs, bs[a].children[i], x) <==> Reaches(bs', bs[a].children[i], x)
    {
      AgreeBelowChild(bs, bs', a, i);
      ReachesFrame(bs, bs', bs[a].children[i], x);
    }
  }

  /** Whether a subtree uses a register depends on that subtree alone. */
  lemma UsesRegFrame(bs: seq<Block>, bs': seq<Block>, a: int, r: nat)
    requires WellFormed(bs) && WellFormed(bs') && 0 <= a < |bs| && AgreeBelow(bs, bs', a)
    ensures UsesReg(bs', a, r) == UsesReg(bs, a, r)
  {
    forall x ensures Reaches(bs, a, x) <==> Reaches(bs', a, x) {
      ReachesFrame(bs, bs', a, x);
    }
    UsesRegSubtree(bs, a, r);
    UsesRegSubtree(bs', a, r);
  }

  /** Arenas that differ only in the loads, stores and association maps of their blocks. */
  ghost predicate SameShape(bs: seq<Block>, bs': seq<Block>)
  {
    |bs'| == |bs| &&
    forall x :: 0 <= x < |bs| ==>
      bs'[x].parent == bs[x].parent && bs'[x].children == bs[x].children && bs'[x].hasChildren == bs[x].hasChildren
  }

  lemma SameShapeWellFormed(bs: seq<Block>, bs': seq<Block>)
    requires WellFormed(bs) && SameShape(bs, bs')
    ensures WellFormed(bs')
  {
  }

  lemma {:induction false} SameShapeReaches(bs: seq<Block>, bs': seq<Block>, a: int, x: int)
    requires WellFormed(bs) && SameShape(bs, bs') && 0 <= a < |bs|
    ensures WellFormed(bs') && (Reaches(bs, a, x) <==> Reaches(bs', a, x))
    decreases |bs| - a
  {
    SameShapeWellFormed(bs, bs');
    forall i | 0 <= i < |bs[a].children|
      ensures Reaches(bs, bs[a].children[i], x) <==> Reaches(bs', bs[a].children[i], x)
    {
      SameShapeReaches(bs, bs', bs[a].children[i], x);
    }
  }

  // ---------------------------------------------------------------------
  // Containment among a children list
  // ---------------------------------------------------------------------

  /** Position of the first block of `ks`, in list order, whose range strictly contains `s`; `|ks|` when none does. */
  function FirstContaining(bs: seq<Block>, ks: seq<int>, s: int): (i: nat)
    requires Handles(bs, ks)
    ensures i <= |ks|
    ensures i < |ks| ==> Strict(bs[ks[i]], s)
    ensures forall j :: 0 <= j < i ==> !Strict(bs[ks[j]], s)
  {
    if ks == [] then 0
    else if Strict(bs[ks[0]], s) then 0
    else 1 + FirstContaining(bs, ks[1..], s)
  }

  /**
   * The block reached from `a` by stepping, as long as possible, into the
   * first child (in list order) whose range strictly contains `s`.
   */
  ghost function Descend(bs: seq<Block>, a: int, s: int): (d: int)
    requires WellFormed(bs) && 0 <= a < |bs|
    ensures 0 <= d < |bs| && Reaches(bs, a, d)
    ensures d == a || Strict(bs[d], s)
    ensures forall j :: 0 <= j < |bs[d].children| ==> !Strict(bs[bs[d].children[j]], s)
    decreases |bs| - a
  {
    assert Handles(bs, bs[a].children);
    var i := FirstContaining(bs, bs[a].children, s);
    if i < |bs[a].children| then Descend(bs, bs[a].children[i], s) else a
  }
}
