/**
 * The scope tree of one method as a mutable object: the arena of blocks and
 * the block operations that change it in place (attaching a new block,
 * detaching a child, recording loads and stores, retracting a store by its
 * association, handing accesses up to the parent, adjusting a range, and
 * the reporting walk, which prunes stores as it goes).
 */
module ScopeTrees {
  import opened Common
  import opened ScopeBlocks
  import opened Reporting

  function Min(a: int, b: int): int
  {
    if a <= b then a else b
  }

  /** No children list of the arena holds `n`. */
  ghost predicate Unlisted(bs: seq<Block>, n: int)
  {
    forall x, i :: 0 <= x < |bs| && 0 <= i < |bs[x].children| ==> bs[x].children[i] != n
  }

  /** An unlisted block is in no other block's subtree. */
  lemma {:induction false} UnlistedUnreached(bs: seq<Block>, a: int, n: int)
    requires WellFormed(bs) && 0 <= a < |bs| && Unlisted(bs, n) && a != n
    ensures !Reaches(bs, a, n)
    decreases |bs| - a
  {
    forall i | 0 <= i < |bs[a].children|
      ensures !Reaches(bs, bs[a].children[i], n)
    {
      UnlistedUnreached(bs, bs[a].children[i], n);
    }
  }

  /**
   * The finish a new block starting at `s` with finish `f` ends up with when
   * attached below `a`: at each step into a child it is cut down to that
   * child's finish.
   */
  ghost function ClippedFinish(bs: seq<Block>, a: int, s: int, f: int): (r: int)
    requires WellFormed(bs) && 0 <= a < |bs|
    ensures r <= f
    ensures Descend(bs, a, s) != a ==> r <= bs[Descend(bs, a, s)].finish
    decreases |bs| - a
  {
    assert Handles(bs, bs[a].children);
    var i := FirstContaining(bs, bs[a].children, s);
    if i < |bs[a].children| then
      var c := bs[a].children[i];
      ClippedFinish(bs, c, s, Min(f, bs[c].finish))
    else f
  }

  /** Position in `ks` of the first block starting after `s`; `|ks|` when none does. */
  function InsertPos(bs: seq<Block>, ks: seq<int>, s: int): (p: nat)
    requires Handles(bs, ks)
    ensures p <= |ks|
    ensures forall j :: 0 <= j < p ==> bs[ks[j]].start <= s
    ensures p < |ks| ==> s < bs[ks[p]].start
  {
    if ks == [] then 0
    else if s < bs[ks[0]].start then 0
    else 1 + InsertPos(bs, ks[1..], s)
  }

  /** The first strict container is the only position with no strict container before it. */
  lemma FirstContainingUnique(bs: seq<Block>, ks: seq<int>, s: int, i: int)
    requires Handles(bs, ks) && 0 <= i <= |ks|
    requires forall j :: 0 <= j < i ==> !Strict(bs[ks[j]], s)
    requires i < |ks| ==> Strict(bs[ks[i]], s)
    ensures i == FirstContaining(bs, ks, s)
  {
  }

  /** The insertion position is the only position with no later-starting block before it and one at it. */
  lemma InsertPosUnique(bs: seq<Block>, ks: seq<int>, s: int, p: int)
    requires Handles(bs, ks) && 0 <= p <= |ks|
    requires forall j :: 0 <= j < p ==> bs[ks[j]].start <= s
    requires p < |ks| ==> s < bs[ks[p]].start
    ensures p == InsertPos(bs, ks, s)
  {
  }

  /** `ks` with `n` inserted at position `p`. */
  function InsertAt(ks: seq<int>, p: int, n: int): seq<int>
    requires 0 <= p <= |ks|
  {
    ks[..p] + [n] + ks[p..]
  }

  /**
   * The arena after attaching the unlisted, childless last block `n` below
   * `h`: it joins the children list of `Descend(bs, h, start)` before the
   * first child starting after it, takes that block as parent, and has its
   * finish clipped along the way down. No other block changes.
   */
  ghost function PlacedAt(bs: seq<Block>, h: int, n: int): seq<Block>
    requires WellFormed(bs) && 0 <= h < n && n == |bs| - 1 && Unlisted(bs, n)
  {
    var s := bs[n].start;
    var home := Descend(bs, h, s);
    var ks := bs[home].children;
    assert Handles(bs, ks);
    bs[home := bs[home].(children := InsertAt(ks, InsertPos(bs, ks, s), n), hasChildren := true)]
      [n := bs[n].(parent := home, finish := ClippedFinish(bs, h, s, bs[n].finish))]
  }

  /** The start locations of the listed blocks, in list order. */
  ghost function Starts(bs: seq<Block>, ks: seq<int>): (xs: seq<int>)
    requires Handles(bs, ks)
    ensures |xs| == |ks| && forall i :: 0 <= i < |ks| ==> xs[i] == bs[ks[i]].start
  {
    seq(|ks|, i requires 0 <= i < |ks| => bs[ks[i]].start)
  }

  /** Children lists ordered by start location. */
  ghost predicate SortedByStart(bs: seq<Block>, ks: seq<int>)
    requires Handles(bs, ks)
  {
    Ascending(Starts(bs, ks))
  }

  /** Inserting `v` after every element not above it and before the first one above it keeps a sequence ascending. */
  lemma InsertAtAscending(xs: seq<int>, p: int, v: int)
    requires 0 <= p <= |xs| && Ascending(xs)
    requires forall j :: 0 <= j < p ==> xs[j] <= v
    requires p < |xs| ==> v < xs[p]
    ensures Ascending(xs[..p] + [v] + xs[p..])
  {
    var ys := xs[..p] + [v] + xs[p..];
    forall i, j | 0 <= i < j < |ys|
      ensures ys[i] <= ys[j]
    {
      if i == p {
        assert xs[p] <= xs[j - 1];
      }
    }
  }

  /** Inserting before the first later-starting block keeps a start-ordered list ordered. */
  lemma InsertKeepsSorted(bs: seq<Block>, ks: seq<int>, n: int)
    requires Handles(bs, ks) && 0 <= n < |bs| && SortedByStart(bs, ks)
    ensures Handles(bs, InsertAt(ks, InsertPos(bs, ks, bs[n].start), n))
    ensures SortedByStart(bs, InsertAt(ks, InsertPos(bs, ks, bs[n].start), n))
  {
    var s := bs[n].start;
    var p := InsertPos(bs, ks, s);
    var ks' := InsertAt(ks, p, n);
    InsertAtIndex(ks, p, n);
    var xs := Starts(bs, ks);
    InsertAtAscending(xs, p, s);
    assert Starts(bs, ks') == xs[..p] + [s] + xs[p..];
  }

  /** The elements of `InsertAt(ks, p, n)` by position. */
  lemma InsertAtIndex(ks: seq<int>, p: int, n: int)
    requires 0 <= p <= |ks|
    ensures |InsertAt(ks, p, n)| == |ks| + 1
    ensures forall i :: 0 <= i < |InsertAt(ks, p, n)| ==>
              InsertAt(ks, p, n)[i] == if i < p then ks[i] else if i == p then n else ks[i - 1]
  {
  }

  /**
   * Attaching a new block: the arena stays well formed, the new block is
   * listed exactly once, by the block it was placed under, and has that block
   * as parent; its start is kept and its finish only shrinks; every other
   * block keeps its range, flags, maps and parent, and only the new block's
   * home gains a child.
   */
  lemma PlacedAttachesOnce(bs: seq<Block>, h: int, n: int)
    requires WellFormed(bs) && 0 <= h < n && n == |bs| - 1 && Unlisted(bs, n)
    requires bs[n].children == [] && !bs[n].hasChildren
    ensures var bs' := PlacedAt(bs, h, n);
            var home := Descend(bs, h, bs[n].start);
            && WellFormed(bs') && |bs'| == |bs|
            && home < n && bs'[n].parent == home
            && (forall x :: 0 <= x < |bs'| && n in bs'[x].children ==> x == home)
            && n in bs'[home].children
            && bs'[n].start == bs[n].start && bs'[n].finish <= bs[n].finish
            && bs'[n] == bs[n].(parent := home, finish := bs'[n].finish)
            && bs'[home] == bs[home].(children := bs'[home].children, hasChildren := true)
            && (forall x :: 0 <= x < |bs| && x != home && x != n ==> bs'[x] == bs[x])
  {
    var s := bs[n].start;
    var home := Descend(bs, h, s);
    UnlistedUnreached(bs, h, n);
    assert home != n;
    var ks := bs[home].children;
    PlacedUnfolds(bs, h, n);
    assert n !in ks;
    var ks' := InsertAt(ks, InsertPos(bs, ks, s), n);
    InsertAtDistinct(ks, InsertPos(bs, ks, s), n);
    var nb := bs[n].(parent := home, finish := ClippedFinish(bs, h, s, bs[n].finish));
    assert nb == bs[n].(parent := home, finish := nb.finish);
    AttachShape(bs, home, ks', n, nb);
    assert PlacedAt(bs, h, n) == bs[home := bs[home].(children := ks', hasChildren := true)][n := nb];
  }

  /**
   * Listing a childless unlisted last block `n` as a child of an earlier
   * block `home` (the new list holding exactly the old children and `n`)
   * and giving it `home` as parent: the arena stays well formed, only
   * `home` lists `n`, and no other block changes.
   */
  lemma AttachShape(bs: seq<Block>, home: int, ks': seq<int>, n: int, nb: Block)
    requires WellFormed(bs) && 0 <= home < n && n == |bs| - 1 && Unlisted(bs, n)
    requires bs[n].children == [] && !bs[n].hasChildren
    requires nb == bs[n].(parent := home, finish := nb.finish)
    requires Distinct(ks') && forall x :: x in ks' <==> x in bs[home].children || x == n
    ensures var bs' := bs[home := bs[home].(children := ks', hasChildren := true)][n := nb];
            && WellFormed(bs')
            && (forall x :: 0 <= x < |bs'| && n in bs'[x].children ==> x == home)
            && n in bs'[home].children
            && (forall x :: 0 <= x < |bs| && x != home && x != n ==> bs'[x] == bs[x])
  {
    PlacedWellFormed(bs, home, ks', n, nb);
    ListedOnlyByHome(bs, home, ks', n, nb);
  }

  /** `Placed` written out with its home, insertion position and clipped finish named. */
  lemma PlacedUnfolds(bs: seq<Block>, h: int, n: int)
    requires WellFormed(bs) && 0 <= h < n && n == |bs| - 1 && Unlisted(bs, n)
    ensures var s := bs[n].start;
            var home := Descend(bs, h, s);
            var ks := bs[home].children;
            Handles(bs, ks) &&
            PlacedAt(bs, h, n) == bs[home := bs[home].(children := InsertAt(ks, InsertPos(bs, ks, s), n), hasChildren := true)]
                                  [n := bs[n].(parent := home, finish := ClippedFinish(bs, h, s, bs[n].finish))]
  {
    var home := Descend(bs, h, bs[n].start);
    assert Handles(bs, bs[home].children);
  }

  /** When no child of `h` strictly contains the new start, the block is placed in `h`'s own list, its finish kept. */
  lemma PlacedHere(bs: seq<Block>, h: int, n: int)
    requires WellFormed(bs) && 0 <= h < n && n == |bs| - 1 && Unlisted(bs, n)
    requires forall j :: 0 <= j < |bs[h].children| ==> !Strict(bs[bs[h].children[j]], bs[n].start)
    ensures Handles(bs, bs[h].children)
    ensures PlacedAt(bs, h, n) == bs[h := bs[h].(children := InsertAt(bs[h].children, InsertPos(bs, bs[h].children, bs[n].start), n), hasChildren := true)]
                                  [n := bs[n].(parent := h)]
  {
    assert Handles(bs, bs[h].children);
    assert FirstContaining(bs, bs[h].children, bs[n].start) == |bs[h].children|;
    PlacedUnfolds(bs, h, n);
  }

  /** After the placement only the home lists the new block. */
  lemma ListedOnlyByHome(bs: seq<Block>, home: int, ks': seq<int>, n: int, nb: Block)
    requires 0 <= home < n && n == |bs| - 1 && Unlisted(bs, n) && nb.children == []
    ensures var bs' := bs[home := bs[home].(children := ks', hasChildren := true)][n := nb];
            forall x :: 0 <= x < |bs'| && n in bs'[x].children ==> x == home
  {
    var bs' := bs[home := bs[home].(children := ks', hasChildren := true)][n := nb];
    forall x | 0 <= x < |bs'| && x != home
      ensures n !in bs'[x].children
    {
      if x != n {
        assert bs'[x].children == bs[x].children;
      }
    }
  }

  /** The arena stays well formed when a childless unlisted last block joins the list of a block before it. */
  lemma PlacedWellFormed(bs: seq<Block>, home: int, ks': seq<int>, n: int, nb: Block)
    requires WellFormed(bs) && 0 <= home < n && n == |bs| - 1 && Unlisted(bs, n)
    requires bs[n].children == [] && !bs[n].hasChildren
    requires nb == bs[n].(parent := home, finish := nb.finish)
    requires Distinct(ks') && forall x :: x in ks' <==> x in bs[home].children || x == n
    ensures WellFormed(bs[home := bs[home].(children := ks', hasChildren := true)][n := nb])
  {
    var bs' := bs[home := bs[home].(children := ks', hasChildren := true)][n := nb];
    forall x | 0 <= x < |bs'|
      ensures -1 <= bs'[x].parent < x && (bs'[x].children != [] ==> bs'[x].hasChildren)
      ensures Distinct(bs'[x].children)
    {
    }
    forall x, i | 0 <= x < |bs'| && 0 <= i < |bs'[x].children|
      ensures x < bs'[x].children[i] < |bs'| && bs'[bs'[x].children[i]].parent == x
    {
      var k := bs'[x].children[i];
      if x == home {
        if k != n {
          assert k in bs[home].children;
          var j :| 0 <= j < |bs[home].children| && bs[home].children[j] == k;
        }
      } else {
        assert k == bs[x].children[i];
      }
    }
  }

  /** Arenas whose blocks start alike give any list the same starts. */
  lemma StartsAgree(bs: seq<Block>, bs': seq<Block>, ks: seq<int>)
    requires Handles(bs, ks) && |bs'| >= |bs|
    requires forall x :: 0 <= x < |bs| ==> bs'[x].start == bs[x].start
    ensures Handles(bs', ks) && Starts(bs', ks) == Starts(bs, ks)
  {
  }

  /** Replacing a children list by a duplicate-free selection of its entries keeps the arena well formed. */
  lemma ShorterListWellFormed(bs: seq<Block>, h: int, ks': seq<int>)
    requires WellFormed(bs) && 0 <= h < |bs|
    requires Distinct(ks') && forall x :: x in ks' ==> x in bs[h].children
    ensures WellFormed(bs[h := bs[h].(children := ks')])
  {
    var bs' := bs[h := bs[h].(children := ks')];
    forall i | 0 <= i < |ks'|
      ensures h < ks'[i] < |bs| && bs[ks'[i]].parent == h
    {
      assert ks'[i] in ks';
      var j :| 0 <= j < |bs[h].children| && bs[h].children[j] == ks'[i];
    }
    if ks' != [] {
      assert ks'[0] in bs[h].children;
    }
    forall x, i | 0 <= x < |bs'| && 0 <= i < |bs'[x].children|
      ensures x < bs'[x].children[i] < |bs'| && bs'[bs'[x].children[i]].parent == x
    {
      if x != h {
        assert bs'[x].children[i] == bs[x].children[i];
      }
    }
  }

  // ---------------------------------------------------------------------
  // Frames for the descent
  // ---------------------------------------------------------------------

  /** Arenas of equal size that differ at most at block `n`. */
  ghost predicate SameExcept(bs: seq<Block>, bs': seq<Block>, n: int)
  {
    |bs'| == |bs| && forall x :: 0 <= x < |bs| && x != n ==> bs'[x] == bs[x]
  }

  lemma {:induction false} FirstContainingFrame(bs: seq<Block>, bs': seq<Block>, ks: seq<int>, n: int, s: int)
    requires Handles(bs, ks) && SameExcept(bs, bs', n) && forall i :: 0 <= i < |ks| ==> ks[i] != n
    ensures Handles(bs', ks) && FirstContaining(bs', ks, s) == FirstContaining(bs, ks, s)
    ensures InsertPos(bs', ks, s) == InsertPos(bs, ks, s)
    decreases |ks|
  {
    if ks != [] {
      FirstContainingFrame(bs, bs', ks[1..], n, s);
    }
  }

  /** Changing the unlisted block `n` does not change the descent from another block, nor the clipping. */
  lemma {:induction false} DescendFrame(bs: seq<Block>, bs': seq<Block>, a: int, n: int, s: int, f: int)
    requires WellFormed(bs) && WellFormed(bs') && SameExcept(bs, bs', n) && Unlisted(bs, n)
    requires 0 <= a < |bs| && a != n
    ensures Descend(bs', a, s) == Descend(bs, a, s)
    ensures ClippedFinish(bs', a, s, f) == ClippedFinish(bs, a, s, f)
    decreases |bs| - a
  {
    var ks := bs[a].children;
    assert bs'[a] == bs[a];
    assert Handles(bs, ks);
    FirstContainingFrame(bs, bs', ks, n, s);
    var i := FirstContaining(bs, ks, s);
    if i < |ks| {
      DescendFrame(bs, bs', ks[i], n, s, Min(f, bs[ks[i]].finish));
    }
  }

  /** Re-parenting or re-ranging an unlisted block under an earlier block keeps the arena well formed. */
  lemma ReattachWellFormed(bs: seq<Block>, n: int, nb: Block)
    requires WellFormed(bs) && 0 <= n < |bs| && Unlisted(bs, n)
    requires nb.children == bs[n].children && nb.hasChildren == bs[n].hasChildren && -1 <= nb.parent < n
    ensures WellFormed(bs[n := nb]) && Unlisted(bs[n := nb], n) && SameExcept(bs, bs[n := nb], n)
  {
    var bs' := bs[n := nb];
    forall x, i | 0 <= x < |bs'| && 0 <= i < |bs'[x].children|
      ensures x < bs'[x].children[i] < |bs'| && bs'[bs'[x].children[i]].parent == x
    {
      assert bs'[x].children[i] == bs[x].children[i];
    }
  }

  /** Stepping into the first child `c` containing the start, with the finish clipped to `c`'s, keeps the arena well formed and the block unlisted. */
  lemma StepInto(bs: seq<Block>, h: int, n: int, i: int)
    requires WellFormed(bs) && 0 <= h < n && n == |bs| - 1 && Unlisted(bs, n)
    requires Handles(bs, bs[h].children) && 0 <= i < |bs[h].children|
    ensures var c := bs[h].children[i];
            var mid := bs[n := bs[n].(parent := h, finish := Min(bs[n].finish, bs[c].finish))];
            WellFormed(mid) && h < c < n && Unlisted(mid, n)
  {
    var c := bs[h].children[i];
    ReattachWellFormed(bs, n, bs[n].(parent := h, finish := Min(bs[n].finish, bs[c].finish)));
    assert c != n;
  }

  /** Attaching below `h` where `c` is the first child containing the start is attaching below `c`, the finish clipped to `c`'s. */
  lemma PlacedStep(bs: seq<Block>, h: int, n: int, i: int)
    requires WellFormed(bs) && 0 <= h < n && n == |bs| - 1 && Unlisted(bs, n)
    requires Handles(bs, bs[h].children) && i == FirstContaining(bs, bs[h].children, bs[n].start) && i < |bs[h].children|
    ensures var c := bs[h].children[i];
            var mid := bs[n := bs[n].(parent := h, finish := Min(bs[n].finish, bs[c].finish))];
            WellFormed(mid) && 0 <= c < n && Unlisted(mid, n) && PlacedAt(mid, c, n) == PlacedAt(bs, h, n)
  {
    var s := bs[n].start;
    var c := bs[h].children[i];
    var f := Min(bs[n].finish, bs[c].finish);
    var mid := bs[n := bs[n].(parent := h, finish := f)];
    ReattachWellFormed(bs, n, bs[n].(parent := h, finish := f));
    UnlistedUnreached(bs, c, n);
    DescendFrame(bs, mid, c, n, s, f);
    var home := Descend(bs, c, s);
    assert home == Descend(bs, h, s);
    assert ClippedFinish(bs, h, s, bs[n].finish) == ClippedFinish(bs, c, s, f);
    PlacedSameHome(bs, mid, h, c, n);
  }

  /**
   * Two arenas differing only at the unlisted last block, whose descents
   * from `h` and `c` reach the same home with the same clipped finish,
   * place that block alike.
   */
  lemma PlacedSameHome(bs: seq<Block>, mid: seq<Block>, h: int, c: int, n: int)
    requires WellFormed(bs) && 0 <= h < n && n == |bs| - 1 && Unlisted(bs, n)
    requires WellFormed(mid) && 0 <= c < n && Unlisted(mid, n) && SameExcept(bs, mid, n)
    requires mid[n].start == bs[n].start && mid[n].(parent := 0, finish := 0) == bs[n].(parent := 0, finish := 0)
    requires Descend(mid, c, bs[n].start) == Descend(bs, h, bs[n].start)
    requires ClippedFinish(mid, c, bs[n].start, mid[n].finish) == ClippedFinish(bs, h, bs[n].start, bs[n].finish)
    ensures PlacedAt(mid, c, n) == PlacedAt(bs, h, n)
  {
    var s := bs[n].start;
    var home := Descend(bs, h, s);
    var ks := bs[home].children;
    assert mid[home] == bs[home];
    assert Handles(bs, ks);
    FirstContainingFrame(bs, mid, ks, n, s);
    var ks' := InsertAt(ks, InsertPos(bs, ks, s), n);
    var nb := bs[n].(parent := home, finish := ClippedFinish(bs, h, s, bs[n].finish));
    assert nb == mid[n].(parent := home, finish := ClippedFinish(mid, c, s, mid[n].finish));
    var x := bs[home].(children := ks', hasChildren := true);
    assert PlacedAt(mid, c, n) == mid[home := x][n := nb];
    assert PlacedAt(bs, h, n) == bs[home := x][n := nb];
    UpdatesHideDifference(mid, bs, home, n, x, nb);
  }

  /** Two sequences that differ at most at `j` agree once `j` is overwritten. */
  lemma UpdatesHideDifference<T>(a: seq<T>, b: seq<T>, i: int, j: int, x: T, y: T)
    requires |a| == |b| && 0 <= i < |a| && 0 <= j < |a|
    requires forall k :: 0 <= k < |a| && k != j ==> a[k] == b[k]
    ensures a[i := x][j := y] == b[i := x][j := y]
  {
    var a', b' := a[i := x][j := y], b[i := x][j := y];
    assert forall k :: 0 <= k < |a'| ==> a'[k] == b'[k];
  }

  // ---------------------------------------------------------------------
  // Removing a child
  // ---------------------------------------------------------------------

  /** `ks` without its first occurrence of `c`, as a list removal by identity does. */
  function RemoveFirst(ks: seq<int>, c: int): seq<int>
  {
    var i := IndexOf(ks, c);
    if i < |ks| then ks[..i] + ks[i + 1..] else ks
  }

  /** Removal takes out exactly one copy of `c` when there is one, and nothing else. */
  lemma RemoveFirstRemovesOne(ks: seq<int>, c: int)
    ensures multiset(RemoveFirst(ks, c)) == multiset(ks) - multiset{c}
  {
    var i := IndexOf(ks, c);
    if i < |ks| {
      assert ks == ks[..i] + [c] + ks[i + 1..];
    } else {
      assert c !in ks;
    }
  }

  /** A list without repetitions keeps none after a removal, and loses exactly the removed element. */
  lemma RemoveFirstDistinct(ks: seq<int>, c: int)
    requires Distinct(ks)
    ensures Distinct(RemoveFirst(ks, c))
    ensures forall x :: x in RemoveFirst(ks, c) <==> x in ks && x != c
  {
    var i := IndexOf(ks, c);
    if i < |ks| {
      var r := ks[..i] + ks[i + 1..];
      assert forall a :: 0 <= a < |r| ==> r[a] == ks[if a < i then a else a + 1];
      forall x | x in ks && x != c
        ensures x in r
      {
        var a :| 0 <= a < |ks| && ks[a] == x;
        if a < i { assert r[a] == x; } else { assert r[a - 1] == x; }
      }
    } else {
      assert c !in ks;
    }
  }

  /** Inserting an element not yet present into a list without repetitions keeps it without repetitions. */
  lemma InsertAtDistinct(ks: seq<int>, p: int, n: int)
    requires Distinct(ks) && n !in ks && 0 <= p <= |ks|
    ensures Distinct(InsertAt(ks, p, n))
    ensures forall x :: x in InsertAt(ks, p, n) <==> x in ks || x == n
  {
    var r := InsertAt(ks, p, n);
    assert forall a :: 0 <= a < |r| ==> r[a] == if a < p then ks[a] else if a == p then n else ks[a - 1];
    forall x | x in ks
      ensures x in r
    {
      var a :| 0 <= a < |ks| && ks[a] == x;
      if a < p { assert r[a] == x; } else { assert r[a + 1] == x; }
    }
  }

  /** The accesses of `child` merged into `parent`: the keys of both, the child's entry winning on a shared key. */
  ghost predicate MergedInto(parent: map<nat, int>, child: map<nat, int>, merged: map<nat, int>)
  {
    && (forall r :: r in merged <==> r in parent || r in child)
    && (forall r :: r in child ==> merged[r] == child[r])
    && (forall r :: r in parent && r !in child ==> merged[r] == parent[r])
  }

  /** Every entry of `small` is an entry of `big`. */
  ghost predicate Submap(small: map<nat, int>, big: map<nat, int>)
  {
    forall r :: r in small ==> r in big && small[r] == big[r]
  }

  /** `b'` is `b` with only its stores reduced. */
  ghost predicate StoresPruned(b: Block, b': Block)
  {
    b' == b.(stores := b'.stores) && Submap(b'.stores, b.stores)
  }

  /** Taking one register out of the registers still to do moves its location, when reported, out of the pending reports. */
  lemma ReportStep(m: map<nat, int>, reported: set<nat>, todo: set<nat>, r: nat, found: seq<int>, found': seq<int>)
    requires reported <= m.Keys && r in todo
    requires multiset(found) + PcsOf(m, reported * todo) == PcsOf(m, reported)
    requires found' == if r in reported then found + [m[r]] else found
    ensures multiset(found') + PcsOf(m, reported * (todo - {r})) == PcsOf(m, reported)
  {
    if r in reported {
      PcsOfPick(m, reported * todo, r);
      assert reported * todo - {r} == reported * (todo - {r});
      assert multiset(found') == multiset(found) + multiset{m[r]};
    } else {
      assert reported * todo == reported * (todo - {r});
    }
  }

  /**
   * The state of the walk over the children of `h` once the first `k` are
   * done: the arena has the shape of `bs0`, stores have only been pruned,
   * and nothing outside the subtrees of those `k` children has changed.
   */
  ghost predicate WalkedUpTo(bs0: seq<Block>, bs: seq<Block>, h: int, k: int)
    requires WellFormed(bs0) && 0 <= h < |bs0| && 0 <= k <= |bs0[h].children|
  {
    && WellFormed(bs) && SameShape(bs0, bs)
    && (forall x :: 0 <= x < |bs| ==> StoresPruned(bs0[x], bs[x]))
    && (forall x :: 0 <= x < |bs| && !Reaches(bs0, h, x) ==> bs[x] == bs0[x])
    && bs[h] == bs0[h]
    && (forall t, x :: k <= t < |bs0[h].children| && 0 <= x < |bs| && Reaches(bs0, bs0[h].children[t], x) ==> bs[x] == bs0[x])
  }

  /** Before child `k` is walked its subtree is as it was, so its walk reports what it would have reported in `bs0`. */
  lemma WalkNext(bs0: seq<Block>, before: seq<Block>, h: int, k: int, used: set<nat>, ignore: set<nat>)
    requires WellFormed(bs0) && 0 <= h < |bs0| && 0 <= k < |bs0[h].children|
    requires WalkedUpTo(bs0, before, h, k)
    ensures |before| == |bs0| && WellFormed(before) && before[h] == bs0[h] && h < bs0[h].children[k] < |bs0|
    ensures ReportsTree(before, bs0[h].children[k], used, ignore) == ReportsTree(bs0, bs0[h].children[k], used, ignore)
    ensures ReportsKids(bs0, h, k + 1, used, ignore) == ReportsKids(bs0, h, k, used, ignore) + ReportsTree(bs0, bs0[h].children[k], used, ignore)
  {
    var c := bs0[h].children[k];
    assert AgreeBelow(bs0, before, c);
    ReportsTreeFrame(bs0, before, c, used, ignore);
  }

  /** Walking child `k` (changing at most its subtree, pruning only) advances the walk state by one child. */
  lemma WalkStep(bs0: seq<Block>, before: seq<Block>, after: seq<Block>, h: int, k: int)
    requires WellFormed(bs0) && 0 <= h < |bs0| && 0 <= k < |bs0[h].children|
    requires WalkedUpTo(bs0, before, h, k)
    requires WellFormed(after) && SameShape(before, after)
    requires forall x :: 0 <= x < |after| ==> StoresPruned(before[x], after[x])
    requires forall x :: 0 <= x < |after| && !Reaches(before, bs0[h].children[k], x) ==> after[x] == before[x]
    ensures WalkedUpTo(bs0, after, h, k + 1)
  {
    var c := bs0[h].children[k];
    forall x ensures Reaches(before, c, x) <==> Reaches(bs0, c, x) {
      SameShapeReaches(bs0, before, c, x);
    }
    ChildWalkFrame(bs0, h, k);
    forall x | 0 <= x < |after|
      ensures StoresPruned(bs0[x], after[x])
    {
      assert StoresPruned(bs0[x], before[x]) && StoresPruned(before[x], after[x]);
    }
  }

  /** Pruning the stores of `h` itself leaves the walks over its children as they were. */
  lemma {:induction false} PrunedKidsReportAlike(bs: seq<Block>, bs': seq<Block>, h: int, n: int, used: set<nat>, ignore: set<nat>)
    requires WellFormed(bs) && 0 <= h < |bs| && 0 <= n <= |bs[h].children|
    requires |bs'| == |bs| && bs' == bs[h := bs[h].(stores := bs'[h].stores)]
    ensures WellFormed(bs') && ReportsKids(bs', h, n, used, ignore) == ReportsKids(bs, h, n, used, ignore)
    decreases n
  {
    SameShapeWellFormed(bs, bs');
    if n > 0 {
      PrunedKidsReportAlike(bs, bs', h, n - 1, used, ignore);
      var c := bs[h].children[n - 1];
      NotBelowOwnChild(bs, h, n - 1);
      assert AgreeBelow(bs, bs', c);
      ReportsTreeFrame(bs, bs', c, used, ignore);
    }
  }

  /**
   * The subtree of child `k` of `h` is disjoint from the subtrees of the
   * later children, from everything outside the subtree of `h`, and from
   * `h` itself.
   */
  lemma ChildWalkFrame(bs: seq<Block>, h: int, k: int)
    requires WellFormed(bs) && 0 <= h < |bs| && 0 <= k < |bs[h].children|
    ensures !Reaches(bs, bs[h].children[k], h)
    ensures forall t, x :: k < t < |bs[h].children| && Reaches(bs, bs[h].children[t], x) ==> !Reaches(bs, bs[h].children[k], x)
    ensures forall x :: !Reaches(bs, h, x) ==> !Reaches(bs, bs[h].children[k], x)
  {
    NotBelowOwnChild(bs, h, k);
    forall t, x | k < t < |bs[h].children| && Reaches(bs, bs[h].children[t], x)
      ensures !Reaches(bs, bs[h].children[k], x)
    {
      SiblingSubtreesDisjoint(bs, h, t, k, x);
    }
    forall x | Reaches(bs, bs[h].children[k], x)
      ensures Reaches(bs, h, x)
    {
      ReachesThroughChild(bs, h, k, x);
    }
  }

  // ---------------------------------------------------------------------
  // Whole-arena views of the single-block operations
  // ---------------------------------------------------------------------

  /**
   * The arena once `nb` has been appended and placed below `h`: the new
   * block keeps its start and flags but may have its finish clipped, and
   * the other blocks change at most in their children lists.
   */
  ghost function Attached(bs: seq<Block>, h: int, nb: Block): (r: seq<Block>)
    requires WellFormed(bs) && 0 <= h < |bs| && IsNew(nb)
    ensures WellFormed(r) && |r| == |bs| + 1
    decreases |bs| - h
  {
    var s := nb.start;
    var ks := bs[h].children;
    assert Handles(bs, ks);
    var i := FirstContaining(bs, ks, s);
    if i < |ks| then
      assert h < ks[i] < |bs|;
      Attached(bs, ks[i], nb.(finish := Min(nb.finish, bs[ks[i]].finish)))
    else
      AppendedHere(bs, h, nb);
      bs[h := bs[h].(children := InsertAt(ks, InsertPos(bs, ks, s), |bs|), hasChildren := true)] + [nb.(parent := h)]
  }

  /** Appending the new block as a child of `h`, when no child of `h` strictly contains its start, keeps the arena well formed. */
  lemma AppendedHere(bs: seq<Block>, h: int, nb: Block)
    requires WellFormed(bs) && 0 <= h < |bs| && IsNew(nb)
    requires Handles(bs, bs[h].children) && FirstContaining(bs, bs[h].children, nb.start) == |bs[h].children|
    ensures WellFormed(bs[h := bs[h].(children := InsertAt(bs[h].children, InsertPos(bs, bs[h].children, nb.start), |bs|), hasChildren := true)]
                       + [nb.(parent := h)])
  {
    var n := |bs|;
    var bs1 := bs + [nb];
    var ks := bs[h].children;
    AppendNew(bs, nb);
    AppendFrame(bs, nb, ks, nb.start);
    assert bs1[h] == bs[h] && bs1[n] == nb;
    InsertedHere(bs1, h, n);
    var x := bs[h].(children := InsertAt(ks, InsertPos(bs, ks, nb.start), n), hasChildren := true);
    assert bs1[h := x][n := nb.(parent := h)] == bs[h := x] + [nb.(parent := h)];
  }

  /** Searching a children list of an arena is unaffected by a block appended to it. */
  lemma {:induction false} AppendFrame(bs: seq<Block>, nb: Block, ks: seq<int>, s: int)
    requires Handles(bs, ks)
    ensures Handles(bs + [nb], ks)
    ensures FirstContaining(bs + [nb], ks, s) == FirstContaining(bs, ks, s)
    ensures InsertPos(bs + [nb], ks, s) == InsertPos(bs, ks, s)
    decreases |ks|
  {
    if ks != [] {
      AppendFrame(bs, nb, ks[1..], s);
      assert (bs + [nb])[ks[0]] == bs[ks[0]];
    }
  }

  /** A new block appended with any earlier parent leaves the arena well formed and is listed nowhere. */
  lemma AppendParented(bs: seq<Block>, nb: Block, p: int)
    requires WellFormed(bs) && IsNew(nb) && -1 <= p < |bs|
    ensures WellFormed(bs + [nb.(parent := p)]) && Unlisted(bs + [nb.(parent := p)], |bs|)
  {
    var bs1 := bs + [nb.(parent := p)];
    assert forall x :: 0 <= x < |bs| ==> bs1[x] == bs[x];
  }

  /** Attaching is placing the appended block, whatever parent it was appended with. */
  lemma {:induction false} AttachedIsPlaced(bs: seq<Block>, h: int, nb: Block, p: int)
    requires WellFormed(bs) && 0 <= h < |bs| && IsNew(nb) && -1 <= p < |bs|
    ensures WellFormed(bs + [nb.(parent := p)]) && Unlisted(bs + [nb.(parent := p)], |bs|)
    ensures Placed(bs + [nb.(parent := p)], h, |bs|) == Attached(bs, h, nb)
    decreases |bs| - h
  {
    var n := |bs|;
    var nbp := nb.(parent := p);
    var bs1 := bs + [nbp];
    AppendParented(bs, nb, p);
    var s := nb.start;
    var ks := bs[h].children;
    assert Handles(bs, ks);
    AppendFrame(bs, nbp, ks, s);
    assert bs1[h] == bs[h] && bs1[n] == nbp;
    var i := FirstContaining(bs, ks, s);
    if i < |ks| {
      var c := ks[i];
      StepInto(bs1, h, n, i);
      AppendedStep(bs, nbp, h, c);
      AttachedIsPlaced(bs, c, nb.(finish := Min(nb.finish, bs[c].finish)), h);
    } else {
      AppendedLast(bs, nbp, h, bs[h].(children := InsertAt(ks, InsertPos(bs, ks, s), n), hasChildren := true));
    }
  }

  /** Re-parenting and clipping the appended block is appending it re-parented and clipped. */
  lemma AppendedStep(bs: seq<Block>, nb: Block, h: int, c: int)
    requires 0 <= c < |bs|
    ensures var bs1 := bs + [nb];
            bs1[|bs| := bs1[|bs|].(parent := h, finish := Min(bs1[|bs|].finish, bs1[c].finish))]
              == bs + [nb.(parent := h, finish := Min(nb.finish, bs[c].finish))]
  {
    var bs1 := bs + [nb];
    assert bs1[c] == bs[c];
  }

  /** Updating an earlier block and re-parenting the appended one is updating before appending. */
  lemma AppendedLast(bs: seq<Block>, nb: Block, h: int, x: Block)
    requires 0 <= h < |bs|
    ensures var bs1 := bs + [nb];
            bs1[h := x][|bs| := bs1[|bs|].(parent := h)] == bs[h := x] + [nb.(parent := h)]
  {
  }

  /**
   * Attaching the unlisted last block `n` below `h`, step by step: the
   * block takes `h` as parent; when a child of `h` strictly contains its
   * start, its finish is cut down to that child's and it moves on into the
   * child; otherwise it joins `h`'s children before the first one starting
   * after it.
   */
  ghost function Placed(bs: seq<Block>, h: int, n: int): (r: seq<Block>)
    requires WellFormed(bs) && 0 <= h < n && n == |bs| - 1 && Unlisted(bs, n)
    requires bs[n].children == [] && !bs[n].hasChildren
    ensures WellFormed(r) && |r| == |bs|
    decreases n - h
  {
    var s := bs[n].start;
    var ks := bs[h].children;
    assert Handles(bs, ks);
    var i := FirstContaining(bs, ks, s);
    if i < |ks| then
      var c := ks[i];
      StepInto(bs, h, n, i);
      Placed(bs[n := bs[n].(parent := h, finish := Min(bs[n].finish, bs[c].finish))], c, n)
    else
      InsertedHere(bs, h, n);
      bs[h := bs[h].(children := InsertAt(ks, InsertPos(bs, ks, s), n), hasChildren := true)][n := bs[n].(parent := h)]
  }

  /** Joining the children of `h` when none of them strictly contains the new start keeps the arena well formed. */
  lemma InsertedHere(bs: seq<Block>, h: int, n: int)
    requires WellFormed(bs) && 0 <= h < n && n == |bs| - 1 && Unlisted(bs, n)
    requires bs[n].children == [] && !bs[n].hasChildren
    requires Handles(bs, bs[h].children) && FirstContaining(bs, bs[h].children, bs[n].start) == |bs[h].children|
    ensures WellFormed(bs[h := bs[h].(children := InsertAt(bs[h].children, InsertPos(bs, bs[h].children, bs[n].start), n), hasChildren := true)]
                          [n := bs[n].(parent := h)])
  {
    PlacedHere(bs, h, n);
    PlacedAttachesOnce(bs, h, n);
  }

  /** The step-by-step placement ends where the closed form says. */
  lemma {:induction false} PlacedIsPlacedAt(bs: seq<Block>, h: int, n: int)
    requires WellFormed(bs) && 0 <= h < n && n == |bs| - 1 && Unlisted(bs, n)
    requires bs[n].children == [] && !bs[n].hasChildren
    ensures Placed(bs, h, n) == PlacedAt(bs, h, n)
    decreases n - h
  {
    var s := bs[n].start;
    var ks := bs[h].children;
    assert Handles(bs, ks);
    var i := FirstContaining(bs, ks, s);
    if i < |ks| {
      var c := ks[i];
      PlacedStep(bs, h, n, i);
      assert h < c;
      PlacedIsPlacedAt(bs[n := bs[n].(parent := h, finish := Min(bs[n].finish, bs[c].finish))], c, n);
    } else {
      PlacedHere(bs, h, n);
    }
  }

  /**
   * What attaching changes: the new block keeps its start and flags but
   * may have its finish clipped, is listed by the block that adopts it,
   * and the other blocks change at most in their children lists.
   */
  lemma {:induction false} AttachedKeeps(bs: seq<Block>, h: int, nb: Block)
    requires WellFormed(bs) && 0 <= h < |bs| && IsNew(nb)
    ensures var r := Attached(bs, h, nb);
            && r[|bs|] == nb.(parent := r[|bs|].parent, finish := r[|bs|].finish)
            && 0 <= r[|bs|].parent < |bs| && r[|bs|].finish <= nb.finish && |bs| in r[r[|bs|].parent].children
            && forall x :: 0 <= x < |bs| ==> r[x] == bs[x].(children := r[x].children, hasChildren := r[x].hasChildren)
    decreases |bs| - h
  {
    var ks := bs[h].children;
    assert Handles(bs, ks);
    var i := FirstContaining(bs, ks, nb.start);
    if i < |ks| {
      assert h < ks[i] < |bs|;
      AttachedKeeps(bs, ks[i], nb.(finish := Min(nb.finish, bs[ks[i]].finish)));
    } else {
      AppendedKeeps(bs, h, nb);
    }
  }

  /** The base case of `AttachedKeeps`: the block is appended as a child of `h`. */
  lemma AppendedKeeps(bs: seq<Block>, h: int, nb: Block)
    requires WellFormed(bs) && 0 <= h < |bs|
    ensures var r := bs[h := bs[h].(children := InsertAt(bs[h].children, InsertPos(bs, bs[h].children, nb.start), |bs|), hasChildren := true)]
                     + [nb.(parent := h)];
            && r[|bs|] == nb.(parent := h) && |bs| in r[h].children
            && forall x :: 0 <= x < |bs| ==> r[x] == bs[x].(children := r[x].children, hasChildren := r[x].hasChildren)
  {
    var ks := bs[h].children;
    assert Handles(bs, ks);
    var x := bs[h].(children := InsertAt(ks, InsertPos(bs, ks, nb.start), |bs|), hasChildren := true);
    assert |bs| in x.children;
  }

  /** Every children list is ordered by start location. */
  ghost predicate ListsSorted(bs: seq<Block>)
  {
    forall x :: 0 <= x < |bs| ==> Handles(bs, bs[x].children) && SortedByStart(bs, bs[x].children)
  }

  /** Attaching a block keeps every children list ordered by start location. */
  lemma {:induction false} AttachedKeepsSorted(bs: seq<Block>, h: int, nb: Block)
    requires WellFormed(bs) && 0 <= h < |bs| && IsNew(nb) && ListsSorted(bs)
    ensures ListsSorted(Attached(bs, h, nb))
    decreases |bs| - h
  {
    var ks := bs[h].children;
    assert Handles(bs, ks);
    var i := FirstContaining(bs, ks, nb.start);
    if i < |ks| {
      assert h < ks[i] < |bs|;
      AttachedKeepsSorted(bs, ks[i], nb.(finish := Min(nb.finish, bs[ks[i]].finish)));
    } else {
      AppendedSorted(bs, h, nb);
    }
  }

  /** Appending a block as a child of `h`, before the first child starting after it, keeps the lists ordered. */
  lemma AppendedSorted(bs: seq<Block>, h: int, nb: Block)
    requires WellFormed(bs) && 0 <= h < |bs| && ListsSorted(bs) && nb.children == []
    ensures Handles(bs, bs[h].children)
    ensures ListsSorted(bs[h := bs[h].(children := InsertAt(bs[h].children, InsertPos(bs, bs[h].children, nb.start), |bs|), hasChildren := true)]
                        + [nb.(parent := h)])
  {
    var n := |bs|;
    var bs1 := bs + [nb];
    var ks := bs[h].children;
    assert Handles(bs, ks);
    AppendFrame(bs, nb, ks, nb.start);
    StartsAgree(bs, bs1, ks);
    assert bs1[n] == nb;
    InsertKeepsSorted(bs1, ks, n);
    var ks' := InsertAt(ks, InsertPos(bs, ks, nb.start), n);
    var r := bs[h := bs[h].(children := ks', hasChildren := true)] + [nb.(parent := h)];
    StartsAgree(bs1, r, ks');
    forall x | 0 <= x < |r|
      ensures Handles(r, r[x].children) && SortedByStart(r, r[x].children)
    {
      if x != h && x < n {
        StartsAgree(bs, r, bs[x].children);
      }
    }
  }

  /** A new block appended to a well-formed arena is listed nowhere and leaves the arena well formed. */
  lemma AppendNew(bs: seq<Block>, nb: Block)
    requires WellFormed(bs) && IsNew(nb)
    ensures WellFormed(bs + [nb]) && Unlisted(bs + [nb], |bs|)
  {
    var bs1 := bs + [nb];
    assert forall x :: 0 <= x < |bs| ==> bs1[x] == bs[x];
  }

  /** Block `h` with a store of `reg` at `pc` recorded and `key` associated with `reg`. */
  function WithStore(bs: seq<Block>, h: int, reg: nat, pc: int, key: AssocKey): seq<Block>
    requires 0 <= h < |bs|
  {
    bs[h := bs[h].(stores := bs[h].stores[reg := pc], assocs := bs[h].assocs[key := reg])]
  }

  /** Block `h` with a load of `reg` at `pc` recorded. */
  function WithLoad(bs: seq<Block>, h: int, reg: nat, pc: int): seq<Block>
    requires 0 <= h < |bs|
  {
    bs[h := bs[h].(loads := bs[h].loads[reg := pc])]
  }

  /**
   * Block `h` without the register associated with `key`: the association,
   * and that register's load and store there; unchanged when `key` has no
   * association in `h`.
   */
  function Forgotten(bs: seq<Block>, h: int, key: AssocKey): seq<Block>
    requires 0 <= h < |bs|
  {
    var b := bs[h];
    if key in b.assocs then
      var reg := b.assocs[key];
      bs[h := b.(assocs := b.assocs - {key}, loads := b.loads - {reg}, stores := b.stores - {reg})]
    else bs
  }

  /**
   * The arena once the loads and stores of `h` have moved to its parent,
   * the child's entries winning, leaving `h` with none; a block without a
   * parent keeps its own, and associations never move.
   */
  function PushedUp(bs: seq<Block>, h: int): (r: seq<Block>)
    requires WellFormed(bs) && 0 <= h < |bs|
    ensures WellFormed(r) && |r| == |bs|
  {
    var p := bs[h].parent;
    if p < 0 then bs
    else
      var b := bs[h];
      var r := bs[p := bs[p].(loads := bs[p].loads + b.loads, stores := bs[p].stores + b.stores)][h := b.(loads := map[], stores := map[])];
      SameShapeWellFormed(bs, r);
      r
  }

  /**
   * Pushing up merges the block's accesses into its parent's, the block's
   * own entries winning, and leaves the block with none; associations and
   * the tree's shape stay, and a block without a parent keeps its accesses.
   */
  lemma PushedUpSpec(bs: seq<Block>, h: int)
    requires WellFormed(bs) && 0 <= h < |bs|
    ensures var r := PushedUp(bs, h);
            && SameShape(bs, r)
            && (bs[h].parent < 0 ==> r == bs)
            && (bs[h].parent >= 0 ==>
                  var p := bs[h].parent;
                  && MergedInto(bs[p].loads, bs[h].loads, r[p].loads)
                  && MergedInto(bs[p].stores, bs[h].stores, r[p].stores)
                  && r[p] == bs[p].(loads := r[p].loads, stores := r[p].stores)
                  && r[h] == bs[h].(loads := map[], stores := map[])
                  && forall x :: 0 <= x < |r| && x != p && x != h ==> r[x] == bs[x])
  {
  }

  class ScopeTree {
    /** The blocks; handle 0 is the root spanning the method. */
    var blocks: seq<Block>

    ghost predicate Valid()
      reads this
    {
      WellFormed(blocks)
    }

    /** A tree holding only the root block [start, finish). */
    constructor(start: int, finish: int)
      ensures Valid() && blocks == [NewBlock(start, finish)]
    {
      blocks := [NewBlock(start, finish)];
    }

    /**
     * Attaches the unlisted last block `n` below `h`: into the first child
     * whose range strictly contains the new start (clipping the new finish
     * to that child's), else into this block's list before the first child
     * starting after it.
     */
    method AddChild(h: int, n: int)
      requires Valid() && 0 <= h < n && n == |blocks| - 1 && Unlisted(blocks, n)
      requires blocks[n].children == [] && !blocks[n].hasChildren
      modifies this
      ensures blocks == Placed(old(blocks), h, n)
      decreases n - h
    {
      var bs := blocks;
      var s := bs[n].start;
      var kids := bs[h].children;
      var i := FirstChildContaining(h, s);
      if i < |kids| {
        var c := kids[i];
        var f := bs[n].finish;
        if f > bs[c].finish {
          f := bs[c].finish;
        }
        PlacedStep(bs, h, n, i);
        blocks := bs[n := bs[n].(parent := h, finish := f)];
        AddChild(c, n);
        return;
      }
      var pos := InsertPosition(h, s);
      PlacedHere(bs, h, n);
      blocks := bs[h := bs[h].(children := InsertAt(kids, pos, n), hasChildren := true)][n := bs[n].(parent := h)];
    }

    /** Position in the children of `h` of the first child whose range strictly contains `s`; the list length when none does. */
    method FirstChildContaining(h: int, s: int) returns (i: int)
      requires Valid() && 0 <= h < |blocks|
      ensures Handles(blocks, blocks[h].children) && i == FirstContaining(blocks, blocks[h].children, s)
    {
      var kids := blocks[h].children;
      assert Handles(blocks, kids);
      i := 0;
      while i < |kids| && !(s > blocks[kids[i]].start && s < blocks[kids[i]].finish)
        invariant 0 <= i <= |kids|
        invariant forall j :: 0 <= j < i ==> !Strict(blocks[kids[j]], s)
      {
        i := i + 1;
      }
      FirstContainingUnique(blocks, kids, s, i);
    }

    /** Position in the children of `h` of the first child starting after `s`; the list length when none does. */
    method InsertPosition(h: int, s: int) returns (pos: int)
      requires Valid() && 0 <= h < |blocks|
      ensures Handles(blocks, blocks[h].children) && pos == InsertPos(blocks, blocks[h].children, s)
    {
      var kids := blocks[h].children;
      assert Handles(blocks, kids);
      pos := 0;
      while pos < |kids| && s >= blocks[kids[pos]].start
        invariant 0 <= pos <= |kids|
        invariant forall j :: 0 <= j < pos ==> blocks[kids[j]].start <= s
      {
        pos := pos + 1;
      }
      InsertPosUnique(blocks, kids, s, pos);
    }

    /** Appends the freshly constructed block `nb` and attaches it below `h`; `n` is its handle. */
    method AddNew(h: int, nb: Block) returns (n: int)
      requires Valid() && 0 <= h < |blocks| && IsNew(nb)
      modifies this
      ensures blocks == Attached(old(blocks), h, nb)
      ensures n == |old(blocks)| && Valid()
    {
      ghost var bs := blocks;
      n := |blocks|;
      blocks := blocks + [nb];
      AppendNew(bs, nb);
      AddChild(h, n);
      AttachedIsPlaced(bs, h, nb, -1);
      assert nb.(parent := -1) == nb;
    }

    /** Drops the first occurrence of `c` from the children of `h`; the list stays allocated. */
    method RemoveChild(h: int, c: int)
      requires Valid() && 0 <= h < |blocks|
      modifies this
      ensures Valid()
      ensures blocks == old(blocks)[h := old(blocks)[h].(children := RemoveFirst(old(blocks)[h].children, c))]
    {
      var bs := blocks;
      assert Distinct(bs[h].children);
      RemoveFirstDistinct(bs[h].children, c);
      ShorterListWellFormed(bs, h, RemoveFirst(bs[h].children, c));
      blocks := bs[h := bs[h].(children := RemoveFirst(bs[h].children, c))];
    }

    /** Records a store of `reg` at `pc` in block `h`, associating the stored value's key with `reg`. */
    method AddStore(h: int, reg: nat, pc: int, key: AssocKey)
      requires Valid() && 0 <= h < |blocks|
      modifies this
      ensures Valid() && SameShape(old(blocks), blocks)
      ensures blocks == WithStore(old(blocks), h, reg, pc, key)
    {
      blocks := blocks[h := blocks[h].(stores := blocks[h].stores[reg := pc], assocs := blocks[h].assocs[key := reg])];
    }

    /** Records a load of `reg` at `pc` in block `h`. */
    method AddLoad(h: int, reg: nat, pc: int)
      requires Valid() && 0 <= h < |blocks|
      modifies this
      ensures Valid() && SameShape(old(blocks), blocks)
      ensures blocks == WithLoad(old(blocks), h, reg, pc)
    {
      blocks := blocks[h := blocks[h].(loads := blocks[h].loads[reg := pc])];
    }

    /**
     * Forgets the register associated with `key` in block `h`: the
     * association, and the register's load and store there. Nothing happens
     * when `key` has no association.
     */
    method RemoveByAssoc(h: int, key: AssocKey)
      requires Valid() && 0 <= h < |blocks|
      modifies this
      ensures Valid() && SameShape(old(blocks), blocks)
      ensures blocks == Forgotten(old(blocks), h, key)
    {
      var b := blocks[h];
      if key in b.assocs {
        var reg := b.assocs[key];
        blocks := blocks[h := b.(assocs := b.assocs - {key}, loads := b.loads - {reg}, stores := b.stores - {reg})];
      }
    }

    /**
     * Hands the loads and stores of block `h` to its parent (see `PushedUp`).
     */
    method PushUpLoadStores(h: int)
      requires Valid() && 0 <= h < |blocks|
      modifies this
      ensures Valid() && blocks == PushedUp(old(blocks), h)
    {
      var bs := blocks;
      var p := bs[h].parent;
      if p >= 0 {
        var b := bs[h];
        var bs' := bs[p := bs[p].(loads := bs[p].loads + b.loads, stores := bs[p].stores + b.stores)];
        bs' := bs'[h := b.(loads := map[], stores := map[])];
        blocks := bs';
      }
    }

    method SetStart(h: int, start: int)
      requires Valid() && 0 <= h < |blocks|
      modifies this
      ensures Valid() && SameShape(old(blocks), blocks)
      ensures blocks == old(blocks)[h := old(blocks)[h].(start := start)]
    {
      blocks := blocks[h := blocks[h].(start := start)];
    }

    method SetFinish(h: int, finish: int)
      requires Valid() && 0 <= h < |blocks|
      modifies this
      ensures Valid() && SameShape(old(blocks), blocks)
      ensures blocks == old(blocks)[h := old(blocks)[h].(finish := finish)]
    {
      blocks := blocks[h := blocks[h].(finish := finish)];
    }

    method SetLoop(h: int)
      requires Valid() && 0 <= h < |blocks|
      modifies this
      ensures Valid() && SameShape(old(blocks), blocks)
      ensures blocks == old(blocks)[h := old(blocks)[h].(isLoop := true)]
    {
      blocks := blocks[h := blocks[h].(isLoop := true)];
    }

    /**
     * The reporting walk from block `h`: returns the reported store
     * locations (in some order, the stores being a hash map), and prunes the
     * stores of the blocks it visits.
     */
    method FindBugs(h: int, parentUsed: set<nat>, ignore: set<nat>) returns (found: seq<int>)
      requires Valid() && 0 <= h < |blocks|
      modifies this
      ensures Valid() && SameShape(old(blocks), blocks)
      ensures multiset(found) == ReportsTree(old(blocks), h, parentUsed, ignore)
      ensures forall x :: 0 <= x < |blocks| ==> StoresPruned(old(blocks)[x], blocks[x])
      ensures forall x :: 0 <= x < |blocks| && !Reaches(old(blocks), h, x) ==> blocks[x] == old(blocks)[x]
      ensures !old(blocks)[h].isLoop ==> blocks[h].stores == LiveStores(old(blocks)[h], parentUsed, ignore)
      decreases |blocks| - h, 1
    {
      var bs0 := blocks;
      var b := bs0[h];
      if b.isLoop {
        return [];
      }
      var used := UsedBelow(b, parentUsed);
      var live := LiveStores(b, parentUsed, ignore);
      found := ReportStores(h, live, parentUsed, ignore);
      var bs1 := bs0[h := b.(stores := live)];
      SameShapeWellFormed(bs0, bs1);
      PrunedKidsReportAlike(bs0, bs1, h, |b.children|, used, ignore);
      forall x ensures Reaches(bs1, h, x) <==> Reaches(bs0, h, x) {
        SameShapeReaches(bs0, bs1, h, x);
      }
      blocks := bs1;
      var more := FindBugsInChildren(h, used, ignore);
      found := found + more;
    }

    /** The reports of the stores of block `h` itself, `live` being its pruned stores. */
    method ReportStores(h: int, live: map<nat, int>, ghost parentUsed: set<nat>, ghost ignore: set<nat>) returns (found: seq<int>)
      requires Valid() && 0 <= h < |blocks| && live == LiveStores(blocks[h], parentUsed, ignore)
      ensures multiset(found) == PcsOf(live, ReportedRegs(blocks, h, parentUsed, ignore))
    {
      ghost var reported := ReportedRegs(blocks, h, parentUsed, ignore);
      ReportedRegsBounds(blocks, h, parentUsed, ignore);
      found := [];
      if !blocks[h].hasChildren {
        return;
      }
      var todo := live.Keys;
      assert reported * todo == reported;
      while todo != {}
        invariant todo <= live.Keys
        invariant multiset(found) + PcsOf(live, reported * todo) == PcsOf(live, reported)
        decreases |todo|
      {
        var r :| r in todo;
        var count, shielded := CountChildUses(h, r);
        ReportedByCount(blocks, h, parentUsed, ignore, r, count, shielded);
        ghost var prev := found;
        if !shielded && count == 1 {
          found := found + [live[r]];
        }
        ReportStep(live, reported, todo, r, prev, found);
        todo := todo - {r};
      }
    }

    /** The reporting walks over the children of `h`, in list order, each judged against `used`. */
    method FindBugsInChildren(h: int, used: set<nat>, ignore: set<nat>) returns (found: seq<int>)
      requires Valid() && 0 <= h < |blocks|
      modifies this
      ensures Valid() && SameShape(old(blocks), blocks)
      ensures multiset(found) == ReportsKids(old(blocks), h, |old(blocks)[h].children|, used, ignore)
      ensures forall x :: 0 <= x < |blocks| ==> StoresPruned(old(blocks)[x], blocks[x])
      ensures forall x :: 0 <= x < |blocks| && !Reaches(old(blocks), h, x) ==> blocks[x] == old(blocks)[x]
      ensures blocks[h] == old(blocks)[h]
      decreases |blocks| - h, 0
    {
      ghost var bs0 := blocks;
      var kids := blocks[h].children;
      found := [];
      var k := 0;
      while k < |kids|
        invariant 0 <= k <= |kids|
        invariant WalkedUpTo(bs0, blocks, h, k)
        invariant multiset(found) == ReportsKids(bs0, h, k, used, ignore)
      {
        var c := kids[k];
        ghost var before := blocks;
        WalkNext(bs0, before, h, k, used, ignore);
        var f := FindBugs(c, used, ignore);
        WalkStep(bs0, before, blocks, h, k);
        found := found + f;
        k := k + 1;
      }
    }

    /**
     * How many children of `h` use `r`, stopping at the first loop,
     * synchronized or try child that uses it (`shielded`).
     */
    method CountChildUses(h: int, r: nat) returns (count: nat, shielded: bool)
      requires Valid() && 0 <= h < |blocks|
      ensures shielded <==> ShieldedUse(blocks, h, r)
      ensures !shielded ==> count == UseCount(blocks, h, |blocks[h].children|, r)
    {
      var kids := blocks[h].children;
      count := 0;
      shielded := false;
      var j := 0;
      while j < |kids|
        invariant 0 <= j <= |kids| && !shielded
        invariant count == UseCount(blocks, h, j, r)
        invariant forall t :: 0 <= t < j ==> !(UsesReg(blocks, kids[t], r) && Shielded(blocks[kids[t]]))
      {
        var c := kids[j];
        if UsesReg(blocks, c, r) {
          var b := blocks[c];
          if b.isLoop || b.isSync || b.isTry {
            shielded := true;
            break;
          }
          count := count + 1;
        }
        j := j + 1;
      }
    }
  }
}
