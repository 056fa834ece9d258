/** The genealogy snapshot a tree statistic is given: the arena and its current tips. */
module Tree {
  import opened Population

  datatype GenTree<T> = GenTree(arena: Genealogy<T>, tips: seq<nat>)

  /** The arena is well formed and every tip is one of its loci. */
  ghost predicate ValidTree<T>(t: GenTree<T>)
    reads t.arena
  {
    t.arena.Valid() && forall i :: 0 <= i < |t.tips| ==> t.tips[i] < |t.arena.nodes|
  }
}
