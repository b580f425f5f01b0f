/**
 * What the final walk over the scope tree reports, as a function of the tree
 * it walks. A store of register r at location p in a block is reported when
 * r is neither loaded in that block nor used by an enclosing block nor
 * ignored, the block has children, exactly one child's subtree uses r, and no
 * child using r is a loop, synchronized or try block. Loop blocks report
 * nothing and are not descended into. Children are judged against the
 * registers their ancestors store or load.
 */
module Reporting {
  import opened ScopeBlocks

  /** A child whose use of a register keeps a store from being reported. */
  predicate Shielded(b: Block)
  {
    b.isLoop || b.isSync || b.isTry
  }

  /** The block's stores left after dropping registers it loads, registers used above it, and ignored registers. */
  function LiveStores(b: Block, parentUsed: set<nat>, ignore: set<nat>): map<nat, int>
  {
    b.stores - b.loads.Keys - parentUsed - ignore
  }

  /** The registers handed to the children: those used above, plus those this block stores or loads. */
  function UsedBelow(b: Block, parentUsed: set<nat>): set<nat>
  {
    parentUsed + b.stores.Keys + b.loads.Keys
  }

  /** How many of the first `n` children of `h` use `r` somewhere in their subtree. */
  function UseCount(bs: seq<Block>, h: int, n: int, r: nat): nat
    requires WellFormed(bs) && 0 <= h < |bs| && 0 <= n <= |bs[h].children|
    decreases n
  {
    if n == 0 then 0
    else UseCount(bs, h, n - 1, r) + (if UsesReg(bs, bs[h].children[n - 1], r) then 1 else 0)
  }

  /** A loop, synchronized or try child of `h` uses `r`. */
  ghost predicate ShieldedUse(bs: seq<Block>, h: int, r: nat)
    requires WellFormed(bs) && 0 <= h < |bs|
  {
    exists j :: 0 <= j < |bs[h].children| && UsesReg(bs, bs[h].children[j], r) && Shielded(bs[bs[h].children[j]])
  }

  /** The child-side half of the rule: children exist, exactly one uses `r`, and none using `r` is shielded. */
  ghost predicate Reportable(bs: seq<Block>, h: int, r: nat)
    requires WellFormed(bs) && 0 <= h < |bs|
  {
    bs[h].hasChildren && UseCount(bs, h, |bs[h].children|, r) == 1 && !ShieldedUse(bs, h, r)
  }

  /** The registers whose stores in block `h` are reported. */
  ghost function ReportedRegs(bs: seq<Block>, h: int, parentUsed: set<nat>, ignore: set<nat>): set<nat>
    requires WellFormed(bs) && 0 <= h < |bs|
  {
    set r | r in LiveStores(bs[h], parentUsed, ignore) && Reportable(bs, h, r)
  }

  /** Only live stores are reported, and a block without children reports none. */
  lemma ReportedRegsBounds(bs: seq<Block>, h: int, parentUsed: set<nat>, ignore: set<nat>)
    requires WellFormed(bs) && 0 <= h < |bs|
    ensures ReportedRegs(bs, h, parentUsed, ignore) <= LiveStores(bs[h], parentUsed, ignore).Keys
    ensures !bs[h].hasChildren ==> ReportedRegs(bs, h, parentUsed, ignore) == {}
  {
  }

  /** The outcome of the child count decides whether a live store of a block with children is reported. */
  lemma ReportedByCount(bs: seq<Block>, h: int, parentUsed: set<nat>, ignore: set<nat>, r: nat, count: nat, shielded: bool)
    requires WellFormed(bs) && 0 <= h < |bs| && bs[h].hasChildren && r in LiveStores(bs[h], parentUsed, ignore)
    requires shielded <==> ShieldedUse(bs, h, r)
    requires !shielded ==> count == UseCount(bs, h, |bs[h].children|, r)
    ensures r in ReportedRegs(bs, h, parentUsed, ignore) <==> !shielded && count == 1
  {
  }

  /** Some element of a non-empty register set. */
  ghost function PickReg(regs: set<nat>): (r: nat)
    requires regs != {}
    ensures r in regs
  {
    var r :| r in regs; r
  }

  /** The locations `m` records for the registers `regs`, with multiplicity. */
  ghost function PcsOf(m: map<nat, int>, regs: set<nat>): (ps: multiset<int>)
    requires regs <= m.Keys
    ensures |ps| == |regs|
    decreases |regs|
  {
    if regs == {} then multiset{}
    else
      var r := PickReg(regs);
      multiset{m[r]} + PcsOf(m, regs - {r})
  }

  /** The recorded locations are exactly those of the given registers. */
  lemma {:induction false} PcsOfMembers(m: map<nat, int>, regs: set<nat>)
    requires regs <= m.Keys
    ensures forall p :: p in PcsOf(m, regs) <==> exists r :: r in regs && m[r] == p
    decreases |regs|
  {
    if regs != {} {
      var x := PickReg(regs);
      PcsOfMembers(m, regs - {x});
    }
  }

  /** Any element may be taken out first. */
  lemma {:induction false} PcsOfPick(m: map<nat, int>, regs: set<nat>, r: nat)
    requires regs <= m.Keys && r in regs
    ensures PcsOf(m, regs) == multiset{m[r]} + PcsOf(m, regs - {r})
    decreases |regs|
  {
    var x := PickReg(regs);
    if x != r {
      calc {
        PcsOf(m, regs);
        multiset{m[x]} + PcsOf(m, regs - {x});
        { PcsOfPick(m, regs - {x}, r); }
        multiset{m[x]} + multiset{m[r]} + PcsOf(m, regs - {x} - {r});
        { assert regs - {x} - {r} == regs - {r} - {x}; }
        multiset{m[r]} + (multiset{m[x]} + PcsOf(m, regs - {r} - {x}));
        { PcsOfPick(m, regs - {r}, x); }
        multiset{m[r]} + PcsOf(m, regs - {r});
      }
    }
  }

  /**
   * The locations reported by the walk starting at `h` with the registers
   * `parentUsed` used above it and `ignore` ignored.
   */
  ghost function ReportsTree(bs: seq<Block>, h: int, parentUsed: set<nat>, ignore: set<nat>): multiset<int>
    requires WellFormed(bs) && 0 <= h < |bs|
    decreases |bs| - h, 1
  {
    if bs[h].isLoop then multiset{}
    else
      PcsOf(LiveStores(bs[h], parentUsed, ignore), ReportedRegs(bs, h, parentUsed, ignore))
      + ReportsKids(bs, h, |bs[h].children|, UsedBelow(bs[h], parentUsed), ignore)
  }

  /** The reports of the walks over the first `n` children of `h`. */
  ghost function ReportsKids(bs: seq<Block>, h: int, n: int, used: set<nat>, ignore: set<nat>): multiset<int>
    requires WellFormed(bs) && 0 <= h < |bs| && 0 <= n <= |bs[h].children|
    decreases |bs| - h, 0, n
  {
    if n == 0 then multiset{}
    else ReportsKids(bs, h, n - 1, used, ignore) + ReportsTree(bs, bs[h].children[n - 1], used, ignore)
  }

  // ---------------------------------------------------------------------
  // Exactly one child
  // ---------------------------------------------------------------------

  /** Child `j` is the only one among the first `n` children of `h` that uses `r`. */
  ghost predicate SoleUser(bs: seq<Block>, h: int, n: int, r: nat, j: int)
    requires WellFormed(bs) && 0 <= h < |bs| && 0 <= n <= |bs[h].children|
  {
    && 0 <= j < n && UsesReg(bs, bs[h].children[j], r)
    && forall k :: 0 <= k < n && k != j ==> !UsesReg(bs, bs[h].children[k], r)
  }

  /** Counting uses equals one exactly when a single child among the first `n` uses the register. */
  lemma {:induction false} UseCountIsOne(bs: seq<Block>, h: int, n: int, r: nat)
    requires WellFormed(bs) && 0 <= h < |bs| && 0 <= n <= |bs[h].children|
    ensures UseCount(bs, h, n, r) == 1 <==> exists j :: SoleUser(bs, h, n, r, j)
    decreases n
  {
    if n > 0 {
      UseCountIsOne(bs, h, n - 1, r);
      UseCountZero(bs, h, n - 1, r);
      var last := UsesReg(bs, bs[h].children[n - 1], r);
      assert UseCount(bs, h, n, r) == UseCount(bs, h, n - 1, r) + (if last then 1 else 0);
      if UseCount(bs, h, n, r) == 1 {
        if last {
          assert SoleUser(bs, h, n, r, n - 1);
        } else {
          var j :| SoleUser(bs, h, n - 1, r, j);
          assert SoleUser(bs, h, n, r, j);
        }
      }
      if exists j :: SoleUser(bs, h, n, r, j) {
        var j :| SoleUser(bs, h, n, r, j);
        if j == n - 1 {
          assert forall k :: 0 <= k < n - 1 ==> !UsesReg(bs, bs[h].children[k], r);
        } else {
          assert SoleUser(bs, h, n - 1, r, j);
        }
      }
    }
  }

  lemma {:induction false} UseCountZero(bs: seq<Block>, h: int, n: int, r: nat)
    requires WellFormed(bs) && 0 <= h < |bs| && 0 <= n <= |bs[h].children|
    ensures UseCount(bs, h, n, r) == 0 <==> forall k :: 0 <= k < n ==> !UsesReg(bs, bs[h].children[k], r)
    decreases n
  {
    if n > 0 {
      UseCountZero(bs, h, n - 1, r);
    }
  }

  // ---------------------------------------------------------------------
  // Where reports come from
  // ---------------------------------------------------------------------

  /** `x` is reached from `h` through blocks none of which is a loop block, both ends included. */
  ghost predicate Visited(bs: seq<Block>, h: int, x: int)
    requires WellFormed(bs) && 0 <= h < |bs|
    decreases |bs| - h
  {
    !bs[h].isLoop && (h == x || exists i :: 0 <= i < |bs[h].children| && Visited(bs, bs[h].children[i], x))
  }

  /** No block on the way from `h` down to `x`, `h` included and `x` excluded, stores or loads `r`. */
  ghost predicate UnusedBetween(bs: seq<Block>, h: int, x: int, r: nat)
    requires WellFormed(bs) && 0 <= h < |bs|
  {
    forall y :: 0 <= y < |bs| && y != x && Reaches(bs, h, y) && Reaches(bs, y, x) ==> !Touches(bs[y], r)
  }

  /**
   * Block `x`, seen from a walk started at `h` with `parentUsed` used above,
   * stores some register `r` at `p` that the walk reports: `r` is live in `x`
   * against `parentUsed`, no block between `h` and `x` uses it (so it is live
   * against the registers the walk hands down to `x`), and exactly one child
   * of `x` uses it, none of them a loop, synchronized or try block.
   */
  ghost predicate StoreSource(bs: seq<Block>, h: int, x: int, p: int, parentUsed: set<nat>, ignore: set<nat>)
    requires WellFormed(bs) && 0 <= h < |bs|
  {
    && 0 <= x < |bs|
    && exists r :: && r in LiveStores(bs[x], parentUsed, ignore) && bs[x].stores[r] == p
                   && Reportable(bs, x, r) && UnusedBetween(bs, h, x, r)
  }

  lemma {:induction false} VisitedReaches(bs: seq<Block>, h: int, x: int)
    requires WellFormed(bs) && 0 <= h < |bs| && Visited(bs, h, x)
    ensures Reaches(bs, h, x)
    decreases |bs| - h
  {
    if h != x {
      var i :| 0 <= i < |bs[h].children| && Visited(bs, bs[h].children[i], x);
      VisitedReaches(bs, bs[h].children[i], x);
    }
  }

  /** Nothing lies strictly between a block and itself. */
  lemma UnusedBetweenSelf(bs: seq<Block>, h: int, r: nat)
    requires WellFormed(bs) && 0 <= h < |bs|
    ensures UnusedBetween(bs, h, h, r)
  {
    forall y | 0 <= y < |bs| && y != h && Reaches(bs, h, y) && Reaches(bs, y, h)
      ensures false
    {
      ReachesInArena(bs, h, y);
      ReachesInArena(bs, y, h);
    }
  }

  /**
   * Going down one level: `r` is unused between `h` and `x` exactly when `h`
   * does not touch it and it is unused between the child of `h` that holds
   * `x` and `x`.
   */
  lemma UnusedBetweenChild(bs: seq<Block>, h: int, i: int, x: int, r: nat)
    requires WellFormed(bs) && 0 <= h < |bs| && 0 <= i < |bs[h].children| && Reaches(bs, bs[h].children[i], x)
    ensures UnusedBetween(bs, h, x, r) <==> !Touches(bs[h], r) && UnusedBetween(bs, bs[h].children[i], x, r)
  {
    var c := bs[h].children[i];
    ReachesInArena(bs, c, x);
    NotBelowOwnChild(bs, h, i);
    assert h != x;
    assert Reaches(bs, h, x) && Reaches(bs, h, h);
    if !Touches(bs[h], r) && UnusedBetween(bs, c, x, r) {
      forall y | 0 <= y < |bs| && y != x && Reaches(bs, h, y) && Reaches(bs, y, x)
        ensures !Touches(bs[y], r)
      {
        if y != h {
          var j :| 0 <= j < |bs[h].children| && Reaches(bs, bs[h].children[j], y);
          ReachesTransitive(bs, bs[h].children[j], y, x);
          if j != i {
            SiblingSubtreesDisjoint(bs, h, i, j, x);
          }
        }
      }
    }
    if UnusedBetween(bs, h, x, r) {
      forall y | 0 <= y < |bs| && y != x && Reaches(bs, c, y) && Reaches(bs, y, x)
        ensures !Touches(bs[y], r)
      {
        ReachesThroughChild(bs, h, i, y);
      }
    }
  }

  /** Every reported location comes from a reportable store in a block reached without entering a loop block. */
  lemma {:induction false} ReportsComeFromStores(bs: seq<Block>, h: int, parentUsed: set<nat>, ignore: set<nat>, p: int)
    requires WellFormed(bs) && 0 <= h < |bs| && p in ReportsTree(bs, h, parentUsed, ignore)
    ensures exists x :: Visited(bs, h, x) && StoreSource(bs, h, x, p, parentUsed, ignore)
    decreases |bs| - h, 1
  {
    var b := bs[h];
    var live := LiveStores(b, parentUsed, ignore);
    PcsOfMembers(live, ReportedRegs(bs, h, parentUsed, ignore));
    if p in PcsOf(live, ReportedRegs(bs, h, parentUsed, ignore)) {
      var r :| r in ReportedRegs(bs, h, parentUsed, ignore) && live[r] == p;
      UnusedBetweenSelf(bs, h, r);
      assert StoreSource(bs, h, h, p, parentUsed, ignore);
    } else {
      var used := UsedBelow(b, parentUsed);
      KidsReportsComeFromStores(bs, h, |b.children|, used, ignore, p);
      var i, x :| 0 <= i < |b.children| && Visited(bs, b.children[i], x) && StoreSource(bs, b.children[i], x, p, used, ignore);
      var r :| && r in LiveStores(bs[x], used, ignore) && bs[x].stores[r] == p
               && Reportable(bs, x, r) && UnusedBetween(bs, b.children[i], x, r);
      VisitedReaches(bs, b.children[i], x);
      UnusedBetweenChild(bs, h, i, x, r);
      assert StoreSource(bs, h, x, p, parentUsed, ignore);
    }
  }

  lemma {:induction false} KidsReportsComeFromStores(bs: seq<Block>, h: int, n: int, used: set<nat>, ignore: set<nat>, p: int)
    requires WellFormed(bs) && 0 <= h < |bs| && 0 <= n <= |bs[h].children|
    requires p in ReportsKids(bs, h, n, used, ignore)
    ensures exists i, x :: 0 <= i < n && Visited(bs, bs[h].children[i], x) && StoreSource(bs, bs[h].children[i], x, p, used, ignore)
    decreases |bs| - h, 0, n
  {
    if p in ReportsKids(bs, h, n - 1, used, ignore) {
      KidsReportsComeFromStores(bs, h, n - 1, used, ignore, p);
    } else {
      ReportsComeFromStores(bs, bs[h].children[n - 1], used, ignore, p);
    }
  }

  /** The walk over the first `n` children includes the walk over each of them. */
  lemma {:induction false} KidReportsIncluded(bs: seq<Block>, h: int, n: int, i: int, used: set<nat>, ignore: set<nat>)
    requires WellFormed(bs) && 0 <= h < |bs| && 0 <= i < n <= |bs[h].children|
    ensures ReportsTree(bs, bs[h].children[i], used, ignore) <= ReportsKids(bs, h, n, used, ignore)
    decreases n
  {
    if i < n - 1 {
      KidReportsIncluded(bs, h, n - 1, i, used, ignore);
    }
  }

  /**
   * The converse of `ReportsComeFromStores`: every reportable store in a
   * block the walk visits is reported, at its location.
   */
  lemma {:induction false} ReportedWhenSourced(bs: seq<Block>, h: int, x: int, parentUsed: set<nat>, ignore: set<nat>, p: int)
    requires WellFormed(bs) && 0 <= h < |bs| && Visited(bs, h, x) && StoreSource(bs, h, x, p, parentUsed, ignore)
    ensures p in ReportsTree(bs, h, parentUsed, ignore)
    decreases |bs| - h
  {
    var r :| && r in LiveStores(bs[x], parentUsed, ignore) && bs[x].stores[r] == p
             && Reportable(bs, x, r) && UnusedBetween(bs, h, x, r);
    if x == h {
      ReportedAtStart(bs, h, parentUsed, ignore, r);
    } else {
      var b := bs[h];
      var i :| 0 <= i < |b.children| && Visited(bs, b.children[i], x);
      var c := b.children[i];
      var used := UsedBelow(b, parentUsed);
      VisitedReaches(bs, c, x);
      UnusedBetweenChild(bs, h, i, x, r);
      assert StoreSource(bs, c, x, p, used, ignore);
      ReportedWhenSourced(bs, c, x, used, ignore, p);
      KidReportsIncluded(bs, h, |b.children|, i, used, ignore);
      assert ReportsTree(bs, h, parentUsed, ignore)
          == PcsOf(LiveStores(b, parentUsed, ignore), ReportedRegs(bs, h, parentUsed, ignore))
             + ReportsKids(bs, h, |b.children|, used, ignore);
    }
  }

  /** No block below a loop block is ever visited: the walk stops at loop blocks. */
  lemma {:induction false} NothingVisitedUnderLoop(bs: seq<Block>, h: int, a: int, x: int)
    requires WellFormed(bs) && 0 <= h < |bs| && Reaches(bs, h, a) && 0 <= a < |bs| && bs[a].isLoop && Reaches(bs, a, x)
    ensures !Visited(bs, h, x)
    decreases |bs| - h
  {
    if h != a && Visited(bs, h, x) {
      var i :| 0 <= i < |bs[h].children| && Reaches(bs, bs[h].children[i], a);
      ReachesTransitive(bs, bs[h].children[i], a, x);
      ReachesInArena(bs, h, a);
      ReachesInArena(bs, a, x);
      var j :| 0 <= j < |bs[h].children| && Visited(bs, bs[h].children[j], x);
      VisitedReaches(bs, bs[h].children[j], x);
      if i != j {
        SiblingSubtreesDisjoint(bs, h, i, j, x);
      }
      NothingVisitedUnderLoop(bs, bs[h].children[i], a, x);
    }
  }

  lemma {:induction false} ReachesTransitive(bs: seq<Block>, a: int, b: int, c: int)
    requires WellFormed(bs) && 0 <= a < |bs| && Reaches(bs, a, b) && 0 <= b < |bs| && Reaches(bs, b, c)
    ensures Reaches(bs, a, c)
    decreases |bs| - a
  {
    if a != b {
      var i :| 0 <= i < |bs[a].children| && Reaches(bs, bs[a].children[i], b);
      ReachesTransitive(bs, bs[a].children[i], b, c);
    }
  }

  /** A register live and reportable in a visited starting block has its store location reported. */
  lemma ReportedAtStart(bs: seq<Block>, h: int, parentUsed: set<nat>, ignore: set<nat>, r: nat)
    requires WellFormed(bs) && 0 <= h < |bs| && !bs[h].isLoop
    requires r in LiveStores(bs[h], parentUsed, ignore) && Reportable(bs, h, r)
    ensures bs[h].stores[r] in ReportsTree(bs, h, parentUsed, ignore)
  {
    var live := LiveStores(bs[h], parentUsed, ignore);
    var regs := ReportedRegs(bs, h, parentUsed, ignore);
    assert r in regs;
    PcsOfMembers(live, regs);
    assert live[r] == bs[h].stores[r] && live[r] in PcsOf(live, regs);
    assert ReportsTree(bs, h, parentUsed, ignore) == PcsOf(live, regs) + ReportsKids(bs, h, |bs[h].children|, UsedBelow(bs[h], parentUsed), ignore);
  }

  // ---------------------------------------------------------------------
  // Frame: the walk over a subtree depends on that subtree alone
  // ---------------------------------------------------------------------

  lemma {:induction false} UseCountFrame(bs: seq<Block>, bs': seq<Block>, h: int, n: int, r: nat)
    requires WellFormed(bs) && WellFormed(bs') && 0 <= h < |bs| && AgreeBelow(bs, bs', h)
    requires 0 <= n <= |bs[h].children|
    ensures bs'[h] == bs[h] && UseCount(bs', h, n, r) == UseCount(bs, h, n, r)
    decreases n
  {
    assert bs'[h] == bs[h];
    if n > 0 {
      UseCountFrame(bs, bs', h, n - 1, r);
      AgreeBelowChild(bs, bs', h, n - 1);
      UsesRegFrame(bs, bs', bs[h].children[n - 1], r);
    }
  }

  lemma ReportedRegsFrame(bs: seq<Block>, bs': seq<Block>, h: int, parentUsed: set<nat>, ignore: set<nat>)
    requires WellFormed(bs) && WellFormed(bs') && 0 <= h < |bs| && AgreeBelow(bs, bs', h)
    ensures bs'[h] == bs[h] && ReportedRegs(bs', h, parentUsed, ignore) == ReportedRegs(bs, h, parentUsed, ignore)
  {
    assert bs'[h] == bs[h];
    forall r: nat
      ensures Reportable(bs', h, r) == Reportable(bs, h, r)
    {
      UseCountFrame(bs, bs', h, |bs[h].children|, r);
      forall j | 0 <= j < |bs[h].children|
        ensures UsesReg(bs', bs[h].children[j], r) == UsesReg(bs, bs[h].children[j], r)
        ensures bs'[bs[h].children[j]] == bs[bs[h].children[j]]
      {
        assert Reaches(bs, bs[h].children[j], bs[h].children[j]);
        AgreeBelowChild(bs, bs', h, j);
        UsesRegFrame(bs, bs', bs[h].children[j], r);
      }
    }
  }

  lemma {:induction false} ReportsTreeFrame(bs: seq<Block>, bs': seq<Block>, h: int, parentUsed: set<nat>, ignore: set<nat>)
    requires WellFormed(bs) && WellFormed(bs') && 0 <= h < |bs| && AgreeBelow(bs, bs', h)
    ensures ReportsTree(bs', h, parentUsed, ignore) == ReportsTree(bs, h, parentUsed, ignore)
    decreases |bs| - h, 1
  {
    ReportedRegsFrame(bs, bs', h, parentUsed, ignore);
    ReportsKidsFrame(bs, bs', h, |bs[h].children|, UsedBelow(bs[h], parentUsed), ignore);
  }

  lemma {:induction false} ReportsKidsFrame(bs: seq<Block>, bs': seq<Block>, h: int, n: int, used: set<nat>, ignore: set<nat>)
    requires WellFormed(bs) && WellFormed(bs') && 0 <= h < |bs| && AgreeBelow(bs, bs', h)
    requires 0 <= n <= |bs[h].children|
    ensures bs'[h] == bs[h] && ReportsKids(bs', h, n, used, ignore) == ReportsKids(bs, h, n, used, ignore)
    decreases |bs| - h, 0, n
  {
    assert Reaches(bs, h, h);
    if n > 0 {
      var c := bs[h].children[n - 1];
      ReportsKidsFrame(bs, bs', h, n - 1, used, ignore);
      AgreeBelowChild(bs, bs', h, n - 1);
      ReportsTreeFrame(bs, bs', c, used, ignore);
      assert ReportsKids(bs, h, n, used, ignore) == ReportsKids(bs, h, n - 1, used, ignore) + ReportsTree(bs, c, used, ignore);
    }
  }
}
