/** Sackin's index of tree imbalance: the mean number of links from a tip to the root. */
module TreeShape {
  import opened Wrappers
  import opened Population
  import opened Tree

  /** One recorded index value: the sum of the tip depths and the number of tips. */
  datatype Ratio = Ratio(num: int, den: nat)

  /** The sum of the depths of `tips`. */
  ghost function SumDepths<T>(nodes: seq<Locus<T>>, gen: seq<nat>, tips: seq<nat>): int
    requires Ranked(nodes, gen) && forall i :: 0 <= i < |tips| ==> tips[i] < |nodes|
    decreases |tips|
  {
    if tips == [] then 0
    else SumDepths(nodes, gen, tips[..|tips| - 1]) + Depth(nodes, gen, tips[|tips| - 1])
  }

  /**
   * The index reads the parent links only: two arenas with the same parent
   * links give the same sum for the same tips, whatever their partners,
   * breakpoints, offspring lists or payloads.
   */
  lemma {:induction false} SumDepthsParentsOnly<T, U>(a: seq<Locus<T>>, ga: seq<nat>, b: seq<Locus<U>>, gb: seq<nat>, tips: seq<nat>)
    requires Ranked(a, ga) && Ranked(b, gb) && |a| == |b|
    requires forall i :: 0 <= i < |a| ==> a[i].parent == b[i].parent
    requires forall i :: 0 <= i < |tips| ==> tips[i] < |a|
    ensures SumDepths(a, ga, tips) == SumDepths(b, gb, tips)
    decreases |tips|
  {
    if tips != [] {
      SumDepthsParentsOnly(a, ga, b, gb, tips[..|tips| - 1]);
      DepthParentsOnly(a, ga, b, gb, tips[|tips| - 1]);
    }
  }

  /** Every tip contributes at least one link when no tip is a root. */
  lemma {:induction false} SumDepthsAtLeastTips<T>(nodes: seq<Locus<T>>, gen: seq<nat>, tips: seq<nat>)
    requires Ranked(nodes, gen) && forall i :: 0 <= i < |tips| ==> tips[i] < |nodes|
    requires forall i :: 0 <= i < |tips| ==> nodes[tips[i]].parent.Some?
    ensures SumDepths(nodes, gen, tips) >= |tips|
    decreases |tips|
  {
    if tips != [] {
      SumDepthsAtLeastTips(nodes, gen, tips[..|tips| - 1]);
      assert nodes[tips[|tips| - 1]].parent.Some?;
    }
  }

  class SackinsIndex {
    /** The values collected so far, one per collected tree. */
    var values: seq<Ratio>

    constructor ()
      ensures values == []
    {
      values := [];
    }

    /** collect: appends the tip-depth sum over the tip count of `tree`; a null tree adds nothing. */
    method Collect<T>(tree: Option<GenTree<T>>)
      requires tree.Some? ==> ValidTree(tree.value)
      modifies this
      ensures tree.None? ==> values == old(values)
      ensures tree.Some? ==>
        values == old(values) + [Ratio(SumDepths(tree.value.arena.nodes, tree.value.arena.Gen, tree.value.tips), |tree.value.tips|)]
    {
      if tree.None? {
        return;
      }
      var t := tree.value;
      var tips := t.tips;
      var sum := 0;
      for i := 0 to |tips|
        invariant values == old(values)
        invariant sum == SumDepths(t.arena.nodes, t.arena.Gen, tips[..i])
      {
        var d := t.arena.DistToRoot(tips[i]);
        assert tips[..i + 1][..i] == tips[..i];
        sum := sum + d;
      }
      assert tips[..|tips|] == tips;
      values := values + [Ratio(sum, |tips|)];
    }
  }
}
