// The jump targets of a table or lookup switch: every case offset and the
// default offset, made absolute and put in ascending order. Consecutive
// targets bound the case blocks the detector creates.

module SwitchTargets {
  import opened Common

  /** Inserts `x` into a list before its first element not smaller than it. */
  function InsertSorted(x: int, xs: seq<int>): (r: seq<int>)
    ensures multiset(r) == multiset(xs) + multiset{x}
  {
    if xs == [] then [x]
    else if x <= xs[0] then [x] + xs
    else
      assert xs == [xs[0]] + xs[1..];
      [xs[0]] + InsertSorted(x, xs[1..])
  }

  /** Inserting into an ascending list keeps it ascending. */
  lemma {:induction false} InsertAscending(x: int, xs: seq<int>)
    requires Ascending(xs)
    ensures Ascending(InsertSorted(x, xs))
  {
    if xs != [] && x > xs[0] {
      var rest := InsertSorted(x, xs[1..]);
      InsertAscending(x, xs[1..]);
      forall k | 0 <= k < |rest| ensures xs[0] <= rest[k] {
        assert rest[k] in multiset(rest);
        assert rest[k] == x || rest[k] in multiset(xs[1..]);
      }
    }
  }

  /**
   * The list in ascending order, as sorting a list of boxed integers by
   * their natural order leaves it; see `SortSpec`.
   */
  function Sort(xs: seq<int>): (r: seq<int>)
    ensures multiset(r) == multiset(xs)
  {
    if xs == [] then []
    else
      assert xs == [xs[0]] + xs[1..];
      InsertSorted(xs[0], Sort(xs[1..]))
  }

  /** Sorting yields an ascending permutation of its input. */
  lemma {:induction false} SortSpec(xs: seq<int>)
    ensures Ascending(Sort(xs)) && multiset(Sort(xs)) == multiset(xs)
  {
    if xs != [] {
      SortSpec(xs[1..]);
      InsertAscending(xs[0], Sort(xs[1..]));
    }
  }

  /** Each case offset made absolute by adding the switch's own location. */
  function Shifted(offsets: seq<int>, pc: int): (ts: seq<int>)
    ensures |ts| == |offsets|
    ensures forall i :: 0 <= i < |ts| ==> ts[i] == offsets[i] + pc
  {
    seq(|offsets|, i requires 0 <= i < |offsets| => offsets[i] + pc)
  }

  /**
   * The switch's targets in ascending order: the absolute case targets, and
   * the default target unless a case already jumps there.
   */
  function SwitchTargetList(offsets: seq<int>, defaultOffset: int, pc: int): seq<int>
  {
    Sort(WithDefault(Shifted(offsets, pc), defaultOffset + pc))
  }

  /** The case targets, with the default target appended when no case jumps there. */
  function WithDefault(cases: seq<int>, d: int): (u: seq<int>)
    ensures d in u && |u| == |cases| + (if d in cases then 0 else 1)
    ensures forall t :: t in u <==> t == d || t in cases
  {
    if d in cases then cases else cases + [d]
  }

  /**
   * The targets are ascending, never empty, and are exactly the absolute
   * case targets and the default target, the default counted only when no
   * case jumps there.
   */
  lemma TargetListContents(offsets: seq<int>, defaultOffset: int, pc: int)
    ensures var ts := SwitchTargetList(offsets, defaultOffset, pc);
            && Ascending(ts) && |ts| >= 1
            && (forall t :: t in ts <==> t == defaultOffset + pc || exists i :: 0 <= i < |offsets| && t == offsets[i] + pc)
            && |ts| == |offsets| + (if defaultOffset + pc in Shifted(offsets, pc) then 0 else 1)
  {
    var u := WithDefault(Shifted(offsets, pc), defaultOffset + pc);
    SortSpec(u);
    SortKeepsElements(u);
    ShiftedMembers(offsets, pc);
  }

  /** The switch always has at least one target, the default. */
  lemma TargetsNonEmpty(offsets: seq<int>, defaultOffset: int, pc: int)
    ensures |SwitchTargetList(offsets, defaultOffset, pc)| >= 1
  {
    SortKeepsElements(WithDefault(Shifted(offsets, pc), defaultOffset + pc));
  }

  /** The absolute case targets are the offsets shifted by the switch's location. */
  lemma ShiftedMembers(offsets: seq<int>, pc: int)
    ensures forall t :: t in Shifted(offsets, pc) <==> exists i :: 0 <= i < |offsets| && t == offsets[i] + pc
  {
    var cases := Shifted(offsets, pc);
    forall t ensures t in cases <==> exists i :: 0 <= i < |offsets| && t == offsets[i] + pc {
      if t in cases {
        var j :| 0 <= j < |cases| && cases[j] == t;
        assert t == offsets[j] + pc;
      }
      if exists i :: 0 <= i < |offsets| && t == offsets[i] + pc {
        var i :| 0 <= i < |offsets| && t == offsets[i] + pc;
        assert cases[i] == t;
      }
    }
  }

  /** Sorting keeps the length and the elements. */
  lemma SortKeepsElements(u: seq<int>)
    ensures |Sort(u)| == |u| && forall t :: t in Sort(u) <==> t in u
  {
    var ts := Sort(u);
    assert |multiset(ts)| == |ts| && |multiset(u)| == |u|;
    forall t ensures t in ts <==> t in u {
      assert t in ts <==> t in multiset(ts);
      assert t in u <==> t in multiset(u);
    }
  }

  /**
   * Builds the target list the way the switch handler does: the absolute
   * case targets in order, the default appended when absent, then sorted.
   */
  method CollectTargets(offsets: seq<int>, defaultOffset: int, pc: int) returns (ts: seq<int>)
    ensures ts == SwitchTargetList(offsets, defaultOffset, pc)
  {
    var targets: seq<int> := [];
    var i := 0;
    while i < |offsets|
      invariant 0 <= i <= |offsets|
      invariant targets == Shifted(offsets[..i], pc)
    {
      targets := targets + [offsets[i] + pc];
      i := i + 1;
    }
    assert offsets[..i] == offsets;
    var defTarget := defaultOffset + pc;
    if defTarget !in targets {
      targets := targets + [defTarget];
    }
    assert targets == WithDefault(Shifted(offsets, pc), defTarget);
    ts := Sort(targets);
  }
}
