/**
 * The genealogy of a simulated population: loci (individuals) linked to one
 * parent, an ordered list of offspring, and at most one recombination partner
 * of the same generation whose parent donated the sites of a half-open
 * breakpoint interval.
 *
 * Loci live in an arena (`Genealogy`) and refer to each other by index. The
 * pure functions below state what each operation computes; the class methods
 * perform the operations in place and are proved to agree with them.
 */
module Population {
  import opened Wrappers

  /** The exceptions the modelled code can raise. */
  datatype Failure =
    | NullPointer        // a null reference is dereferenced
    | IllegalArgument    // an explicit argument check fails
    | IndexOutOfBounds   // a list or array index is outside its range
    | NegativeArraySize  // an array of negative length is requested
    | OutOfMemory        // an array longer than the virtual machine allows is requested
    | RegionOutOfRange   // a payload region lies outside the payload
    | Diverges           // a redraw loop that cannot leave

  /**
   * The fitness provider of a locus as the genealogy code sees it: whether it
   * is a DNA fitness, whether it offers region exchange, and its sites.
   */
  datatype Payload<T> = Payload(isDna: bool, recombineable: bool, data: seq<T>)

  /** One locus. Handles (`parent`, `partner`, `offspring`) index the arena. */
  datatype Locus<T> = Locus(
    id: int,
    parent: Option<nat>,
    offspring: seq<nat>,
    preserve: bool,
    partner: Option<nat>,
    bpMin: int,
    bpMax: int,
    payload: Payload<T>,
    originPop: int)

  /** The outcome of a state-changing operation together with the arena it leaves. */
  datatype Step<T> = Step(outcome: Outcome<Failure>, nodes: seq<Locus<T>>)

  /* ---------------------------------------------------------------------- */
  /* Construction and copies                                                 */
  /* ---------------------------------------------------------------------- */

  /** A newly constructed locus that has been given its fitness provider. */
  function FreshLocus<T>(id: int, payload: Payload<T>): Locus<T>
  {
    Locus(id, None, [], false, None, 0, 0, payload, -1)
  }

  /** A new locus carrying a copy of `src`'s data and origin, but no links. */
  function CopyOfData<T>(src: Locus<T>, id: int): (c: Locus<T>)
    ensures c.payload == src.payload && c.originPop == src.originPop
    ensures c.parent.None? && c.offspring == [] && c.partner.None? && !c.preserve
    ensures c.bpMin == c.bpMax
  {
    FreshLocus(id, src.payload).(originPop := src.originPop)
  }

  /* ---------------------------------------------------------------------- */
  /* Well-formed arenas                                                      */
  /* ---------------------------------------------------------------------- */

  predicate HandleIn(size: nat, h: Option<nat>)
  {
    h.None? || h.value < size
  }

  /** Every handle held by `l` addresses one of `size` loci. */
  predicate LinksIn<T>(size: nat, l: Locus<T>)
  {
    && HandleIn(size, l.parent)
    && HandleIn(size, l.partner)
    && forall k :: 0 <= k < |l.offspring| ==> l.offspring[k] < size
  }

  /** Every handle in the arena addresses a locus of the arena. */
  predicate Closed<T>(nodes: seq<Locus<T>>)
  {
    forall i :: 0 <= i < |nodes| ==> LinksIn(|nodes|, nodes[i])
  }

  /**
   * `gen` numbers the generations: a parent belongs to an earlier generation
   * than its child, and recombination partners belong to the same generation.
   */
  ghost predicate Ranked<T>(nodes: seq<Locus<T>>, gen: seq<nat>)
  {
    && Closed(nodes)
    && |gen| == |nodes|
    && (forall i :: 0 <= i < |nodes| && nodes[i].parent.Some? ==> gen[nodes[i].parent.value] < gen[i])
    && (forall i :: 0 <= i < |nodes| && nodes[i].partner.Some? ==> gen[nodes[i].partner.value] == gen[i])
  }

  /* ---------------------------------------------------------------------- */
  /* Queries                                                                 */
  /* ---------------------------------------------------------------------- */

  predicate HasRecombination<T>(l: Locus<T>)
  {
    l.partner.Some?
  }

  /** The first index of `x` in `s`, or -1 when `x` does not occur (a list's indexOf). */
  function IndexOf<X(==)>(s: seq<X>, x: X): (i: int)
    ensures -1 <= i < |s|
    ensures i == -1 <==> x !in s
    ensures 0 <= i ==> s[i] == x && x !in s[..i]
  {
    if s == [] then -1
    else if s[0] == x then 0
    else
      var j := IndexOf(s[1..], x);
      if j == -1 then -1
      else
        assert s[..j + 1] == [s[0]] + s[1..][..j];
        j + 1
  }

  /** Where `kid` stands in the offspring list of `l`; None when it is not an offspring. */
  function OffspringIndex<T>(l: Locus<T>, kid: nat): (r: Option<nat>)
    ensures r.None? <==> kid !in l.offspring
    ensures r.Some? ==> r.value < |l.offspring| && l.offspring[r.value] == kid && kid !in l.offspring[..r.value]
  {
    var index := IndexOf(l.offspring, kid);
    if index == -1 then None else Some(index)
  }

  /** A tip is a locus with no offspring: no handle has an offspring index in it. */
  predicate IsTip<T>(l: Locus<T>): (r: bool)
    ensures r <==> forall kid :: OffspringIndex(l, kid).None?
  {
    assert |l.offspring| > 0 ==> OffspringIndex(l, l.offspring[0]).Some?;
    |l.offspring| == 0
  }

  /** `s` without the first occurrence of `x` (a list's remove of an element). */
  function RemoveFirst<X(==)>(s: seq<X>, x: X): seq<X>
  {
    var i := IndexOf(s, x);
    if i == -1 then s else s[..i] + s[i + 1..]
  }

  /** Removal takes away exactly one occurrence of `x` when there is one, and nothing else. */
  lemma RemoveFirstMultiset<X>(s: seq<X>, x: X)
    ensures multiset(RemoveFirst(s, x)) == multiset(s) - multiset{x}
    ensures |RemoveFirst(s, x)| == if x in s then |s| - 1 else |s|
  {
    var i := IndexOf(s, x);
    if i != -1 {
      assert s == s[..i] + [x] + s[i + 1..];
    } else {
      assert x !in multiset(s);
    }
  }

  /** Removal only drops elements. */
  lemma RemoveFirstSubset<X>(s: seq<X>, x: X)
    ensures forall y :: y in RemoveFirst(s, x) ==> y in s
  {
    RemoveFirstMultiset(s, x);
    forall y | y in RemoveFirst(s, x) ensures y in s {
      assert y in multiset(RemoveFirst(s, x));
    }
  }

  /** Whether `site` lies in the half-open breakpoint interval of `l`. */
  predicate InBreak<T>(l: Locus<T>, site: int)
  {
    l.bpMin <= site < l.bpMax
  }

  /**
   * The locus that donated `site` to locus `n`: the partner's parent inside
   * the breakpoint interval, the own parent outside it. A site inside the
   * interval of a locus without partner dereferences null.
   */
  function SiteParent<T>(nodes: seq<Locus<T>>, n: nat, site: int): (r: Result<Option<nat>, Failure>)
    requires n < |nodes| && LinksIn(|nodes|, nodes[n])
    ensures r.Err? <==> InBreak(nodes[n], site) && nodes[n].partner.None?
    ensures r.Err? ==> r.error == NullPointer
  {
    var l := nodes[n];
    if InBreak(l, site) then
      if l.partner.None? then Err(NullPointer) else Ok(nodes[l.partner.value].parent)
    else
      Ok(l.parent)
  }

  /** The site-parent of a locus belongs to an earlier generation. */
  lemma SiteParentEarlier<T>(nodes: seq<Locus<T>>, gen: seq<nat>, n: nat, site: int)
    requires Ranked(nodes, gen) && n < |nodes|
    ensures var r := SiteParent(nodes, n, site);
      r.Ok? && r.value.Some? ==> r.value.value < |nodes| && gen[r.value.value] < gen[n]
  {
    var l := nodes[n];
    if InBreak(l, site) && l.partner.Some? {
      assert LinksIn(|nodes|, nodes[l.partner.value]);
    }
  }

  /**
   * A locus whose interval is empty, as it is on construction (0, 0), takes
   * every site from its own parent; with an interval and a partner, the
   * interval's sites come from the partner's parent and all others, the
   * interval's upper end included, from the own parent.
   */
  lemma SiteParentRule<T>(nodes: seq<Locus<T>>, n: nat)
    requires Closed(nodes) && n < |nodes|
    ensures nodes[n].bpMax <= nodes[n].bpMin ==>
      forall site :: SiteParent(nodes, n, site) == Ok(nodes[n].parent)
    ensures nodes[n].partner.Some? ==>
      forall site :: SiteParent(nodes, n, site) ==
        Ok(if nodes[n].bpMin <= site < nodes[n].bpMax then nodes[nodes[n].partner.value].parent else nodes[n].parent)
    ensures nodes[n].partner.Some? && nodes[n].bpMin < nodes[n].bpMax ==>
      && SiteParent(nodes, n, nodes[n].bpMin) == Ok(nodes[nodes[n].partner.value].parent)
      && SiteParent(nodes, n, nodes[n].bpMax) == Ok(nodes[n].parent)
  {
    assert LinksIn(|nodes|, nodes[n]);
  }

  /* ---------------------------------------------------------------------- */
  /* Distance to the root                                                    */
  /* ---------------------------------------------------------------------- */

  /** The `k`-th ancestor of `n` along parent links; None past the root. */
  function Up<T>(nodes: seq<Locus<T>>, n: nat, k: nat): (r: Option<nat>)
    requires Closed(nodes) && n < |nodes|
    ensures r.Some? ==> r.value < |nodes|
    decreases k
  {
    if k == 0 then Some(n)
    else
      assert LinksIn(|nodes|, nodes[n]);
      match nodes[n].parent
      case None => None
      case Some(p) => Up(nodes, p, k - 1)
  }

  /** The number of parent links from `n` to the root. */
  ghost function Depth<T>(nodes: seq<Locus<T>>, gen: seq<nat>, n: nat): nat
    requires Ranked(nodes, gen) && n < |nodes|
    decreases gen[n]
  {
    assert LinksIn(|nodes|, nodes[n]);
    match nodes[n].parent
    case None => 0
    case Some(p) => 1 + Depth(nodes, gen, p)
  }

  /**
   * `Depth(n)` parent links lead from `n` to a locus without parent, through
   * ancestors that all exist; one more link leads nowhere.
   */
  lemma {:induction false} DepthReachesRoot<T>(nodes: seq<Locus<T>>, gen: seq<nat>, n: nat)
    requires Ranked(nodes, gen) && n < |nodes|
    ensures forall k :: 0 <= k <= Depth(nodes, gen, n) ==> Up(nodes, n, k).Some?
    ensures var r := Up(nodes, n, Depth(nodes, gen, n)); r.Some? && nodes[r.value].parent.None?
    ensures Up(nodes, n, Depth(nodes, gen, n) + 1).None?
    decreases gen[n]
  {
    assert LinksIn(|nodes|, nodes[n]);
    match nodes[n].parent
    case None =>
    case Some(p) =>
      DepthReachesRoot(nodes, gen, p);
      forall k | 1 <= k <= Depth(nodes, gen, n)
        ensures Up(nodes, n, k) == Up(nodes, p, k - 1)
      {}
  }

  /** Depth depends on the parent links only, whatever generation numbering witnesses them. */
  lemma {:induction false} DepthParentsOnly<T, U>(a: seq<Locus<T>>, ga: seq<nat>, b: seq<Locus<U>>, gb: seq<nat>, n: nat)
    requires Ranked(a, ga) && Ranked(b, gb) && |a| == |b| && n < |a|
    requires forall i :: 0 <= i < |a| ==> a[i].parent == b[i].parent
    ensures Depth(a, ga, n) == Depth(b, gb, n)
    decreases ga[n]
  {
    assert a[n].parent == b[n].parent;
    assert LinksIn(|a|, a[n]);
    match a[n].parent
    case None =>
    case Some(p) => DepthParentsOnly(a, ga, b, gb, p);
  }

  /* ---------------------------------------------------------------------- */
  /* Removal from the population                                             */
  /* ---------------------------------------------------------------------- */

  /** The upward walk stops below a locus that is preserved or has other than one offspring. */
  predicate StopsWalk<T>(l: Locus<T>)
  {
    |l.offspring| != 1 || l.preserve
  }

  /**
   * How many parent links the removal walk climbs from `n` before it meets a
   * parent that stops it; when the walk reaches a locus without parent, the
   * next test dereferences null.
   */
  ghost function PruneSteps<T>(nodes: seq<Locus<T>>, gen: seq<nat>, n: nat): (r: Result<nat, Failure>)
    requires Ranked(nodes, gen) && n < |nodes|
    ensures r.Err? ==> r.error == NullPointer
    ensures r.Ok? ==> Up(nodes, n, r.value).Some? && nodes[Up(nodes, n, r.value).value].parent.Some?
    decreases gen[n]
  {
    assert LinksIn(|nodes|, nodes[n]);
    match nodes[n].parent
    case None => Err(NullPointer)
    case Some(p) =>
      if StopsWalk(nodes[p]) then Ok(0)
      else
        match PruneSteps(nodes, gen, p)
        case Err(e) => Err(e)
        case Ok(k) => Ok(k + 1)
  }

  /**
   * A walk of `k` steps climbs through `k` ancestors that do not stop it and
   * ends below a parent that does; a failed walk meets no ancestor that
   * stops it.
   */
  lemma {:induction false} PruneStepsWalk<T>(nodes: seq<Locus<T>>, gen: seq<nat>, n: nat)
    requires Ranked(nodes, gen) && n < |nodes|
    ensures var r := PruneSteps(nodes, gen, n);
      && (r.Ok? ==>
            && (forall j :: 1 <= j <= r.value ==> Up(nodes, n, j).Some? && !StopsWalk(nodes[Up(nodes, n, j).value]))
            && Up(nodes, n, r.value).Some?
            && nodes[Up(nodes, n, r.value).value].parent.Some?
            && StopsWalk(nodes[nodes[Up(nodes, n, r.value).value].parent.value]))
      && (r.Err? ==>
            forall j :: 1 <= j && Up(nodes, n, j).Some? ==> !StopsWalk(nodes[Up(nodes, n, j).value]))
    decreases gen[n]
  {
    assert LinksIn(|nodes|, nodes[n]);
    match nodes[n].parent
    case None =>
      forall j | 1 <= j ensures Up(nodes, n, j).None? {}
    case Some(p) =>
      if !StopsWalk(nodes[p]) {
        PruneStepsWalk(nodes, gen, p);
        forall j | 1 <= j ensures Up(nodes, n, j) == Up(nodes, p, j - 1) {}
      }
  }

  /** Climbing past a parent that does not stop the walk adds one step. */
  lemma PruneStepsClimb<T>(nodes: seq<Locus<T>>, gen: seq<nat>, n: nat)
    requires Ranked(nodes, gen) && n < |nodes|
    requires nodes[n].parent.Some? && !StopsWalk(nodes[nodes[n].parent.value])
    ensures nodes[n].parent.value < |nodes|
    ensures PruneSteps(nodes, gen, n) == Shift(PruneSteps(nodes, gen, nodes[n].parent.value), 1)
  {
    assert LinksIn(|nodes|, nodes[n]);
  }

  /** The walk ends at a locus whose parent is missing (it fails) or stops it (no further steps). */
  lemma PruneStepsStop<T>(nodes: seq<Locus<T>>, gen: seq<nat>, ref: nat)
    requires Ranked(nodes, gen) && ref < |nodes|
    requires nodes[ref].parent.Some? ==> StopsWalk(nodes[nodes[ref].parent.value])
    ensures nodes[ref].parent.None? ==> PruneSteps(nodes, gen, ref) == Err(NullPointer)
    ensures nodes[ref].parent.Some? ==> PruneSteps(nodes, gen, ref) == Ok(0)
  {
    assert LinksIn(|nodes|, nodes[ref]);
  }

  /** Removes `t` from its parent's offspring list, then nulls `t`'s parent. */
  function Detach<T>(nodes: seq<Locus<T>>, t: nat): (r: seq<Locus<T>>)
    requires t < |nodes| && nodes[t].parent.Some? && nodes[t].parent.value < |nodes|
  {
    var p := nodes[t].parent.value;
    var n1 := nodes[p := nodes[p].(offspring := RemoveFirst(nodes[p].offspring, t))];
    n1[t := n1[t].(parent := None)]
  }

  /** Detaching `t` changes its parent link and its parent's offspring, and nothing else. */
  lemma DetachChanges<T>(nodes: seq<Locus<T>>, gen: seq<nat>, t: nat)
    requires Ranked(nodes, gen) && t < |nodes| && nodes[t].parent.Some?
    ensures var p := nodes[t].parent.value;
      var d := Detach(nodes, t);
      && p < |nodes| && p != t && |d| == |nodes|
      && d[t] == nodes[t].(parent := None)
      && d[p] == nodes[p].(offspring := RemoveFirst(nodes[p].offspring, t))
      && forall i :: 0 <= i < |nodes| && i != t && i != p ==> d[i] == nodes[i]
  {
    assert LinksIn(|nodes|, nodes[t]);
  }

  /** removeFromPop: nothing for a preserved locus, otherwise detach the top of the walk. */
  ghost function Removal<T>(nodes: seq<Locus<T>>, gen: seq<nat>, n: nat): (s: Step<T>)
    requires Ranked(nodes, gen) && n < |nodes|
  {
    if nodes[n].preserve then Step(Pass, nodes)
    else
      match PruneSteps(nodes, gen, n)
      case Err(e) => Step(Fail(e), nodes)
      case Ok(k) =>
        var t := Up(nodes, n, k).value;
        assert LinksIn(|nodes|, nodes[t]);
        Step(Pass, Detach(nodes, t))
  }

  /**
   * What removeFromPop does: a preserved start changes nothing; a walk that
   * reaches the root fails and changes nothing; otherwise exactly one locus
   * `t`, an unpreserved ancestor-or-self of `n`, loses its parent link, its
   * parent `p` (preserved or not single-child) loses one occurrence of `t`
   * from its offspring, and every other locus is unchanged.
   */
  lemma RemovalDetachesOne<T>(nodes: seq<Locus<T>>, gen: seq<nat>, n: nat)
    requires Ranked(nodes, gen) && n < |nodes|
    ensures var s := Removal(nodes, gen, n);
      && |s.nodes| == |nodes|
      && (nodes[n].preserve ==> s == Step(Pass, nodes))
      && (s.outcome.Fail? ==> s.nodes == nodes && s.outcome.error == NullPointer)
      && (!nodes[n].preserve && PruneSteps(nodes, gen, n).Err? ==> s.outcome.Fail?)
      && (s.outcome.Pass? && !nodes[n].preserve ==>
            var k := PruneSteps(nodes, gen, n).value;
            var t := Up(nodes, n, k).value;
            var p := nodes[t].parent.value;
            && !nodes[t].preserve
            && StopsWalk(nodes[p])
            && p != t
            && s.nodes[t] == nodes[t].(parent := None)
            && s.nodes[p] == nodes[p].(offspring := RemoveFirst(nodes[p].offspring, t))
            && forall i :: 0 <= i < |nodes| && i != t && i != p ==> s.nodes[i] == nodes[i])
  {
    if !nodes[n].preserve {
      PruneStepsWalk(nodes, gen, n);
      var w := PruneSteps(nodes, gen, n);
      if w.Ok? {
        var t := Up(nodes, n, w.value).value;
        assert !nodes[t].preserve by {
          if w.value > 0 {
            assert !StopsWalk(nodes[Up(nodes, n, w.value).value]);
          }
        }
        DetachChanges(nodes, gen, t);
        assert Removal(nodes, gen, n) == Step(Pass, Detach(nodes, t));
      } else {
        assert Removal(nodes, gen, n) == Step(Fail(NullPointer), nodes);
      }
    }
  }

  /** A preserved locus keeps its parent link through every removal. */
  lemma RemovalSparesPreserved<T>(nodes: seq<Locus<T>>, gen: seq<nat>, n: nat, i: nat)
    requires Ranked(nodes, gen) && n < |nodes| && i < |nodes| && nodes[i].preserve
    ensures |Removal(nodes, gen, n).nodes| == |nodes|
    ensures Removal(nodes, gen, n).nodes[i].parent == nodes[i].parent
  {
    RemovalDetachesOne(nodes, gen, n);
  }

  /** Detaching one locus from its parent keeps the arena well formed. */
  lemma DetachKeepsRanked<T>(nodes: seq<Locus<T>>, gen: seq<nat>, t: nat)
    requires Ranked(nodes, gen) && t < |nodes| && nodes[t].parent.Some?
    ensures nodes[t].parent.value < |nodes| && Ranked(Detach(nodes, t), gen)
  {
    assert LinksIn(|nodes|, nodes[t]);
    var p := nodes[t].parent.value;
    var d := Detach(nodes, t);
    assert LinksIn(|nodes|, nodes[p]);
    RemoveFirstSubset(nodes[p].offspring, t);
    forall i | 0 <= i < |d| ensures LinksIn(|d|, d[i]) {
      assert LinksIn(|nodes|, nodes[i]);
      if i == p {
        forall j | 0 <= j < |d[p].offspring| ensures d[p].offspring[j] < |nodes| {
          assert d[p].offspring[j] in nodes[p].offspring;
        }
      }
    }
    forall i | 0 <= i < |d| ensures d[i].parent == (if i == t then None else nodes[i].parent) && d[i].partner == nodes[i].partner {
    }
  }

  /** Removal keeps the arena well formed. */
  lemma RemovalKeepsRanked<T>(nodes: seq<Locus<T>>, gen: seq<nat>, n: nat)
    requires Ranked(nodes, gen) && n < |nodes|
    ensures Ranked(Removal(nodes, gen, n).nodes, gen)
  {
    if !nodes[n].preserve && PruneSteps(nodes, gen, n).Ok? {
      var k := PruneSteps(nodes, gen, n).value;
      DetachKeepsRanked(nodes, gen, Up(nodes, n, k).value);
    }
  }

  /* ---------------------------------------------------------------------- */
  /* Recombination                                                           */
  /* ---------------------------------------------------------------------- */

  function Min(a: int, b: int): int
  {
    if a <= b then a else b
  }

  /**
   * The breakpoint drawn from a uniform `u` in [0, 1) when the shorter payload
   * has `m + 1` sites: never 0 and never past the last site when `m >= 1`.
   * The only draw that yields 0 (and makes the code draw again) comes from an
   * empty payload (`m == -1`), where every later draw but an exact 0 yields 0 too.
   */
  function DrawSite(m: int, u: real): (site: int)
    requires m >= -1 && 0.0 <= u < 1.0
    ensures m >= 1 ==> 1 <= site <= m
    ensures m == 0 ==> site == 1
    ensures m == -1 ==> (site == 0 <==> u > 0.0) && (site != 0 ==> site == 1)
  {
    var x := m as real * u;
    assert m >= 1 ==> 0.0 <= x < m as real by {
      if m >= 1 {
        assert m as real * (1.0 - u) > 0.0;
      }
    }
    assert m == -1 ==> x == -u;
    x.Floor + 1
  }

  /** The exchanged region: above the site when `upper`, below it otherwise. */
  function Region(site: int, upper: bool, len: nat): (r: (int, int))
  {
    if upper then (site, len) else (0, site)
  }

  predicate RegionFits<T>(s: seq<T>, lo: int, hi: int)
  {
    0 <= lo <= hi <= |s|
  }

  /** The payload `s` with the region [lo, hi) replaced by `region`. */
  function ReplaceRegion<T>(s: seq<T>, lo: int, hi: int, region: seq<T>): (r: seq<T>)
    requires RegionFits(s, lo, hi) && |region| == hi - lo
    ensures |r| == |s| && r[lo..hi] == region
    ensures forall i :: 0 <= i < |s| && !(lo <= i < hi) ==> r[i] == s[i]
  {
    s[..lo] + region + s[hi..]
  }

  function WithData<T>(l: Locus<T>, data: seq<T>): Locus<T>
  {
    l.(payload := l.payload.(data := data))
  }

  /** The partner link and the interval that recombination installs on one locus. */
  function Partnered<T>(l: Locus<T>, lo: int, hi: int, p: nat): Locus<T>
  {
    l.(partner := Some(p), bpMin := lo, bpMax := hi)
  }

  /**
   * recombine(one, two) with uniform draws `u` (the site) and `coin` (the side).
   * Refused if either locus already has a partner; a payload that offers no
   * region exchange is dereferenced as null; the partner links and the
   * interval are installed before the payload regions are read.
   */
  function Recombination<T>(nodes: seq<Locus<T>>, one: nat, two: nat, u: real, coin: real): (s: Step<T>)
    requires one < |nodes| && two < |nodes| && 0.0 <= u < 1.0
    ensures |s.nodes| == |nodes|
  {
    var a, b := nodes[one], nodes[two];
    if HasRecombination(a) || HasRecombination(b) then Step(Fail(IllegalArgument), nodes)
    else if !a.payload.recombineable || !b.payload.recombineable then Step(Fail(NullPointer), nodes)
    else
      var site := DrawSite(Min(|a.payload.data|, |b.payload.data|) - 1, u);
      if site == 0 then Step(Fail(Diverges), nodes)
      else
        var (lo, hi) := Region(site, coin > 0.5, |a.payload.data|);
        Crossover(nodes, one, two, lo, hi)
  }

  /**
   * The second half of recombine: both loci are linked to each other with
   * the interval [lo, hi), then the region is exchanged if it lies inside
   * both payloads.
   */
  function Crossover<T>(nodes: seq<Locus<T>>, one: nat, two: nat, lo: int, hi: int): (s: Step<T>)
    requires one < |nodes| && two < |nodes|
    ensures |s.nodes| == |nodes|
  {
    var a, b := nodes[one], nodes[two];
    var n1 := nodes[one := Partnered(a, lo, hi, two)];
    var n2 := n1[two := Partnered(n1[two], lo, hi, one)];
    if !RegionFits(a.payload.data, lo, hi) || !RegionFits(b.payload.data, lo, hi) then
      Step(Fail(RegionOutOfRange), n2)
    else
      Exchange(n2, one, two, lo, hi, a.payload.data[lo..hi], b.payload.data[lo..hi])
  }

  /** The payload regions [lo, hi) of `one` and `two` become `r2` and `r1`. */
  function Exchange<T>(nodes: seq<Locus<T>>, one: nat, two: nat, lo: int, hi: int, r1: seq<T>, r2: seq<T>): Step<T>
    requires one < |nodes| && two < |nodes| && |r1| == |r2| == hi - lo
    requires RegionFits(nodes[one].payload.data, lo, hi) && RegionFits(nodes[two].payload.data, lo, hi)
  {
    var n3 := nodes[one := WithData(nodes[one], ReplaceRegion(nodes[one].payload.data, lo, hi, r2))];
    var n4 := n3[two := WithData(n3[two], ReplaceRegion(n3[two].payload.data, lo, hi, r1))];
    Step(Pass, n4)
  }

  /**
   * Recombination is refused, with an illegal argument and no change, when
   * either locus already has a partner; every failure other than a region
   * outside a payload leaves the arena unchanged.
   */
  lemma RecombinationRefusals<T>(nodes: seq<Locus<T>>, one: nat, two: nat, u: real, coin: real)
    requires one < |nodes| && two < |nodes| && 0.0 <= u < 1.0
    ensures HasRecombination(nodes[one]) || HasRecombination(nodes[two]) ==>
      Recombination(nodes, one, two, u, coin) == Step(Fail(IllegalArgument), nodes)
    ensures var s := Recombination(nodes, one, two, u, coin);
      s.outcome.Fail? && s.outcome.error != RegionOutOfRange ==> s.nodes == nodes
  {
  }

  /**
   * A successful recombination links the two loci to each other with the
   * same interval, [site, len(one)) on the upper side or [0, site) on the
   * lower, exchanges exactly that region of their payloads, and changes no
   * other field and no other locus.
   */
  lemma RecombinationExchanges<T>(nodes: seq<Locus<T>>, one: nat, two: nat, u: real, coin: real)
    requires one < |nodes| && two < |nodes| && one != two && 0.0 <= u < 1.0
    requires Recombination(nodes, one, two, u, coin).outcome.Pass?
    ensures
      var s := Recombination(nodes, one, two, u, coin).nodes;
      var a, b := nodes[one], nodes[two];
      var site := DrawSite(Min(|a.payload.data|, |b.payload.data|) - 1, u);
      var lo := Region(site, coin > 0.5, |a.payload.data|).0;
      var hi := Region(site, coin > 0.5, |a.payload.data|).1;
      && !HasRecombination(a) && !HasRecombination(b)
      && a.payload.recombineable && b.payload.recombineable
      && 1 <= site
      && RegionFits(a.payload.data, lo, hi) && RegionFits(b.payload.data, lo, hi)
      && s[one] == WithData(Partnered(a, lo, hi, two), s[one].payload.data)
      && s[two] == WithData(Partnered(b, lo, hi, one), s[two].payload.data)
      && |s[one].payload.data| == |a.payload.data|
      && |s[two].payload.data| == |b.payload.data|
      && (forall i :: 0 <= i < |a.payload.data| ==>
            s[one].payload.data[i] == if lo <= i < hi then b.payload.data[i] else a.payload.data[i])
      && (forall i :: 0 <= i < |b.payload.data| ==>
            s[two].payload.data[i] == if lo <= i < hi then a.payload.data[i] else b.payload.data[i])
      && (forall i :: 0 <= i < |nodes| && i != one && i != two ==> s[i] == nodes[i])
  {
  }

  /**
   * Loci of equal payload length with at least two sites and no partner
   * always recombine, at a site that leaves both [0, site) and [site, len)
   * non-empty. A failure on the regions happens exactly when the upper side
   * is chosen and `two` is shorter than `one`.
   */
  lemma RecombinationSucceeds<T>(nodes: seq<Locus<T>>, one: nat, two: nat, u: real, coin: real)
    requires one < |nodes| && two < |nodes| && 0.0 <= u < 1.0
    requires !HasRecombination(nodes[one]) && !HasRecombination(nodes[two])
    requires nodes[one].payload.recombineable && nodes[two].payload.recombineable
    requires |nodes[one].payload.data| >= 1 && |nodes[two].payload.data| >= 1
    ensures var s := Recombination(nodes, one, two, u, coin);
      s.outcome == Pass || s.outcome == Fail(RegionOutOfRange)
    ensures Recombination(nodes, one, two, u, coin).outcome == Fail(RegionOutOfRange) <==>
      coin > 0.5 && |nodes[two].payload.data| < |nodes[one].payload.data|
    ensures |nodes[one].payload.data| == |nodes[two].payload.data| >= 2 ==>
      var site := DrawSite(|nodes[one].payload.data| - 1, u);
      Recombination(nodes, one, two, u, coin).outcome == Pass && 0 < site < |nodes[one].payload.data|
  {
    var a, b := nodes[one], nodes[two];
    var m := Min(|a.payload.data|, |b.payload.data|) - 1;
    assert m >= 0;
  }

  /**
   * After a successful recombination, each of the two loci takes the sites
   * of the exchanged region from the other's parent and every other site
   * from its own parent.
   */
  lemma RecombinedAncestry<T>(nodes: seq<Locus<T>>, one: nat, two: nat, u: real, coin: real)
    requires Closed(nodes) && one < |nodes| && two < |nodes| && one != two && 0.0 <= u < 1.0
    requires Recombination(nodes, one, two, u, coin).outcome.Pass?
    ensures
      var s := Recombination(nodes, one, two, u, coin).nodes;
      var a, b := nodes[one], nodes[two];
      var site := DrawSite(Min(|a.payload.data|, |b.payload.data|) - 1, u);
      var lo := Region(site, coin > 0.5, |a.payload.data|).0;
      var hi := Region(site, coin > 0.5, |a.payload.data|).1;
      && LinksIn(|s|, s[one]) && LinksIn(|s|, s[two])
      && (forall x :: SiteParent(s, one, x) == Ok(if lo <= x < hi then b.parent else a.parent))
      && (forall x :: SiteParent(s, two, x) == Ok(if lo <= x < hi then a.parent else b.parent))
  {
    RecombinationExchanges(nodes, one, two, u, coin);
    assert LinksIn(|nodes|, nodes[one]) && LinksIn(|nodes|, nodes[two]);
  }

  /** Replacing one locus by a well-linked one whose links respect the generations keeps the arena well formed. */
  lemma UpdateKeepsRanked<T>(nodes: seq<Locus<T>>, gen: seq<nat>, n: nat, l: Locus<T>)
    requires Ranked(nodes, gen) && n < |nodes| && LinksIn(|nodes|, l)
    requires l.parent.Some? ==> gen[l.parent.value] < gen[n]
    requires l.partner.Some? ==> gen[l.partner.value] == gen[n]
    ensures Ranked(nodes[n := l], gen)
  {
    var s := nodes[n := l];
    forall i | 0 <= i < |s| ensures LinksIn(|s|, s[i]) {
      if i != n {
        assert LinksIn(|nodes|, nodes[i]);
      }
    }
  }

  /** Exchanging payload regions changes no link. */
  lemma ExchangeKeepsRanked<T>(nodes: seq<Locus<T>>, gen: seq<nat>, one: nat, two: nat, lo: int, hi: int, r1: seq<T>, r2: seq<T>)
    requires Ranked(nodes, gen) && one < |nodes| && two < |nodes| && |r1| == |r2| == hi - lo
    requires RegionFits(nodes[one].payload.data, lo, hi) && RegionFits(nodes[two].payload.data, lo, hi)
    ensures Ranked(Exchange(nodes, one, two, lo, hi, r1, r2).nodes, gen)
  {
    var l1 := WithData(nodes[one], ReplaceRegion(nodes[one].payload.data, lo, hi, r2));
    assert LinksIn(|nodes|, nodes[one]);
    UpdateKeepsRanked(nodes, gen, one, l1);
    var n3 := nodes[one := l1];
    var l2 := WithData(n3[two], ReplaceRegion(n3[two].payload.data, lo, hi, r1));
    assert LinksIn(|n3|, n3[two]);
    UpdateKeepsRanked(n3, gen, two, l2);
  }

  /** Linking two loci of one generation and exchanging their region keeps the arena well formed. */
  lemma CrossoverKeepsRanked<T>(nodes: seq<Locus<T>>, gen: seq<nat>, one: nat, two: nat, lo: int, hi: int)
    requires Ranked(nodes, gen) && one < |nodes| && two < |nodes| && gen[one] == gen[two]
    ensures Ranked(Crossover(nodes, one, two, lo, hi).nodes, gen)
  {
    var a, b := nodes[one], nodes[two];
    assert LinksIn(|nodes|, a);
    UpdateKeepsRanked(nodes, gen, one, Partnered(a, lo, hi, two));
    var n1 := nodes[one := Partnered(a, lo, hi, two)];
    assert LinksIn(|n1|, n1[two]);
    UpdateKeepsRanked(n1, gen, two, Partnered(n1[two], lo, hi, one));
    var n2 := n1[two := Partnered(n1[two], lo, hi, one)];
    if RegionFits(a.payload.data, lo, hi) && RegionFits(b.payload.data, lo, hi) {
      ExchangeKeepsRanked(n2, gen, one, two, lo, hi, a.payload.data[lo..hi], b.payload.data[lo..hi]);
    }
  }

  /** Recombination of two loci of one generation keeps the arena well formed. */
  lemma RecombinationKeepsRanked<T>(nodes: seq<Locus<T>>, gen: seq<nat>, one: nat, two: nat, u: real, coin: real)
    requires Ranked(nodes, gen) && one < |nodes| && two < |nodes| && gen[one] == gen[two] && 0.0 <= u < 1.0
    ensures Ranked(Recombination(nodes, one, two, u, coin).nodes, gen)
  {
    var a, b := nodes[one], nodes[two];
    if !HasRecombination(a) && !HasRecombination(b) && a.payload.recombineable && b.payload.recombineable {
      var site := DrawSite(Min(|a.payload.data|, |b.payload.data|) - 1, u);
      if site != 0 {
        var (lo, hi) := Region(site, coin > 0.5, |a.payload.data|);
        CrossoverKeepsRanked(nodes, gen, one, two, lo, hi);
        assert Recombination(nodes, one, two, u, coin) == Crossover(nodes, one, two, lo, hi);
      }
    }
  }

  /** One more parent link from the `k`-th ancestor. */
  lemma {:induction false} UpLast<T>(nodes: seq<Locus<T>>, n: nat, k: nat)
    requires Closed(nodes) && n < |nodes|
    ensures Up(nodes, n, k + 1) == match Up(nodes, n, k) case None => None case Some(t) => nodes[t].parent
    decreases k
  {
    assert LinksIn(|nodes|, nodes[n]);
    if k > 0 {
      match nodes[n].parent
      case None =>
      case Some(p) => UpLast(nodes, p, k - 1);
    }
  }

  /** A walk result `d` steps further from its start. */
  function Shift(r: Result<nat, Failure>, d: nat): Result<nat, Failure>
  {
    match r
    case Ok(k) => Ok(k + d)
    case Err(e) => Err(e)
  }

  lemma ShiftTwice(r: Result<nat, Failure>, d: nat)
    ensures Shift(Shift(r, 1), d) == Shift(r, d + 1)
  {
  }

  /* ---------------------------------------------------------------------- */
  /* The arena                                                               */
  /* ---------------------------------------------------------------------- */

  /** All loci of a simulation, addressed by index, with their generation numbers. */
  class Genealogy<T> {
    var nodes: seq<Locus<T>>
    ghost var Gen: seq<nat>

    ghost predicate Valid()
      reads this
    {
      Ranked(nodes, Gen)
    }

    constructor ()
      ensures Valid() && nodes == []
    {
      nodes := [];
      Gen := [];
    }

    /**
     * Constructs a locus (`new Locus(rng)`, `id` being the identity drawn from
     * `rng`) and gives it its fitness provider; `generation` is its generation.
     */
    method NewLocus(id: int, payload: Payload<T>, ghost generation: nat) returns (n: nat)
      requires Valid()
      modifies this
      ensures Valid() && n == old(|nodes|)
      ensures nodes == old(nodes) + [FreshLocus(id, payload)] && Gen == old(Gen) + [generation]
    {
      n := |nodes|;
      nodes := nodes + [FreshLocus(id, payload)];
      Gen := Gen + [generation];
      assert forall i :: 0 <= i < n ==> nodes[i] == old(nodes)[i];
      forall i | 0 <= i < |nodes| ensures LinksIn(|nodes|, nodes[i]) {
        if i < n {
          assert LinksIn(|old(nodes)|, old(nodes)[i]);
        }
      }
    }

    /** setParent: the new parent must belong to an earlier generation. */
    method SetParent(n: nat, p: Option<nat>)
      requires Valid() && n < |nodes|
      requires p.Some? ==> p.value < |nodes| && Gen[p.value] < Gen[n]
      modifies this
      ensures Valid() && Gen == old(Gen)
      ensures nodes == old(nodes)[n := old(nodes)[n].(parent := p)]
    {
      assert LinksIn(|nodes|, nodes[n]);
      UpdateKeepsRanked(nodes, Gen, n, nodes[n].(parent := p));
      nodes := nodes[n := nodes[n].(parent := p)];
    }

    /** setOriginPopulation: records the population number `n` was created in. */
    method SetOriginPopulation(n: nat, num: int)
      requires Valid() && n < |nodes|
      modifies this
      ensures Valid() && Gen == old(Gen)
      ensures nodes == old(nodes)[n := old(nodes)[n].(originPop := num)]
    {
      assert LinksIn(|nodes|, nodes[n]);
      UpdateKeepsRanked(nodes, Gen, n, nodes[n].(originPop := num));
      nodes := nodes[n := nodes[n].(originPop := num)];
    }

    method SetPreserve(n: nat, preserve: bool)
      requires Valid() && n < |nodes|
      modifies this
      ensures Valid() && Gen == old(Gen)
      ensures nodes == old(nodes)[n := old(nodes)[n].(preserve := preserve)]
    {
      assert LinksIn(|nodes|, nodes[n]);
      UpdateKeepsRanked(nodes, Gen, n, nodes[n].(preserve := preserve));
      nodes := nodes[n := nodes[n].(preserve := preserve)];
    }

    /** addOffspring appends `kid` at the end of the offspring list of `n`. */
    method AddOffspring(n: nat, kid: nat)
      requires Valid() && n < |nodes| && kid < |nodes|
      modifies this
      ensures Valid() && Gen == old(Gen)
      ensures nodes == old(nodes)[n := old(nodes)[n].(offspring := old(nodes)[n].offspring + [kid])]
    {
      var l := nodes[n];
      assert LinksIn(|nodes|, l);
      UpdateKeepsRanked(nodes, Gen, n, l.(offspring := l.offspring + [kid]));
      nodes := nodes[n := l.(offspring := l.offspring + [kid])];
    }

    /** removeOffspring drops the first occurrence of `kid` and reports whether there was one. */
    method RemoveOffspring(n: nat, kid: nat) returns (removed: bool)
      requires Valid() && n < |nodes|
      modifies this
      ensures Valid() && Gen == old(Gen)
      ensures removed == (kid in old(nodes)[n].offspring)
      ensures nodes == old(nodes)[n := old(nodes)[n].(offspring := RemoveFirst(old(nodes)[n].offspring, kid))]
    {
      var l := nodes[n];
      removed := kid in l.offspring;
      assert LinksIn(|nodes|, l);
      RemoveFirstSubset(l.offspring, kid);
      var l' := l.(offspring := RemoveFirst(l.offspring, kid));
      assert LinksIn(|nodes|, l') by {
        forall k | 0 <= k < |l'.offspring| ensures l'.offspring[k] < |nodes| {
          assert l'.offspring[k] in l.offspring;
        }
      }
      UpdateKeepsRanked(nodes, Gen, n, l');
      nodes := nodes[n := l'];
    }

    /** distToRoot counts the parent links from `n` to the root. */
    method DistToRoot(n: nat) returns (dist: nat)
      requires Valid() && n < |nodes|
      ensures dist == Depth(nodes, Gen, n)
    {
      dist := 0;
      var ref: nat := n;
      while nodes[ref].parent.Some?
        invariant ref < |nodes|
        invariant dist + Depth(nodes, Gen, ref) == Depth(nodes, Gen, n)
        decreases Gen[ref]
      {
        assert LinksIn(|nodes|, nodes[ref]);
        dist := dist + 1;
        ref := nodes[ref].parent.value;
      }
    }

    /** clearReferences nulls the parent and the partner link, and nothing else. */
    method ClearReferences(n: nat)
      requires Valid() && n < |nodes|
      modifies this
      ensures Valid() && Gen == old(Gen)
      ensures nodes == old(nodes)[n := old(nodes)[n].(parent := None, partner := None)]
    {
      assert LinksIn(|nodes|, nodes[n]);
      UpdateKeepsRanked(nodes, Gen, n, nodes[n].(parent := None, partner := None));
      nodes := nodes[n := nodes[n].(parent := None, partner := None)];
    }

    /** copyDataFrom: `n` takes the origin population and (a copy of) the fitness provider of `src`. */
    method CopyDataFrom(n: nat, src: nat)
      requires Valid() && n < |nodes| && src < |nodes|
      modifies this
      ensures Valid() && Gen == old(Gen)
      ensures nodes == old(nodes)[n := old(nodes)[n].(originPop := old(nodes)[src].originPop, payload := old(nodes)[src].payload)]
    {
      var l := nodes[n].(originPop := nodes[src].originPop, payload := nodes[src].payload);
      assert LinksIn(|nodes|, nodes[n]);
      UpdateKeepsRanked(nodes, Gen, n, l);
      nodes := nodes[n := l];
    }

    /** getDataCopy: a new locus with `n`'s data and no links. */
    method GetDataCopy(n: nat, id: int) returns (c: nat)
      requires Valid() && n < |nodes|
      modifies this
      ensures Valid() && c == old(|nodes|) && Gen == old(Gen) + [old(Gen)[n]]
      ensures nodes == old(nodes) + [CopyOfData(old(nodes)[n], id)]
    {
      c := NewLocus(id, nodes[n].payload, Gen[n]);
      CopyDataFrom(c, n);
    }

    /**
     * getCompleteCopy: a new locus with `n`'s data, the same parent and the
     * same offspring in the same order; the offspring keep their own parent link.
     */
    method GetCompleteCopy(n: nat, id: int) returns (c: nat)
      requires Valid() && n < |nodes|
      modifies this
      ensures Valid() && c == old(|nodes|) && Gen == old(Gen) + [old(Gen)[n]]
      ensures nodes == old(nodes) +
        [CopyOfData(old(nodes)[n], id).(parent := old(nodes)[n].parent, offspring := old(nodes)[n].offspring)]
    {
      var src := nodes[n];
      assert LinksIn(|nodes|, src);
      c := NewLocus(id, src.payload, Gen[n]);
      CopyDataFrom(c, n);
      SetParent(c, src.parent);
      ghost var base := nodes;
      for i := 0 to |src.offspring|
        invariant Valid() && |nodes| == |base| && Gen == old(Gen) + [old(Gen)[n]]
        invariant nodes == base[c := base[c].(offspring := src.offspring[..i])]
      {
        AddOffspring(c, src.offspring[i]);
        assert src.offspring[..i + 1] == src.offspring[..i] + [src.offspring[i]];
      }
      assert src.offspring[..|src.offspring|] == src.offspring;
    }

    /** setRecombinationPartner(lo, hi, p): assigns the interval and the partner of `n`. */
    method SetRecombinationPartner(n: nat, lo: int, hi: int, p: nat)
      requires Valid() && n < |nodes| && p < |nodes| && Gen[p] == Gen[n]
      modifies this
      ensures Valid() && Gen == old(Gen)
      ensures nodes == old(nodes)[n := Partnered(old(nodes)[n], lo, hi, p)]
    {
      assert LinksIn(|nodes|, nodes[n]);
      UpdateKeepsRanked(nodes, Gen, n, Partnered(nodes[n], lo, hi, p));
      nodes := nodes[n := Partnered(nodes[n], lo, hi, p)];
    }

    /** setRegion on the payload of `n`: the region [lo, hi) becomes `region`. */
    method SetRegion(n: nat, lo: int, hi: int, region: seq<T>)
      requires Valid() && n < |nodes| && RegionFits(nodes[n].payload.data, lo, hi) && |region| == hi - lo
      modifies this
      ensures Valid() && Gen == old(Gen)
      ensures nodes == old(nodes)[n := WithData(old(nodes)[n], ReplaceRegion(old(nodes)[n].payload.data, lo, hi, region))]
    {
      var l := WithData(nodes[n], ReplaceRegion(nodes[n].payload.data, lo, hi, region));
      assert LinksIn(|nodes|, nodes[n]);
      UpdateKeepsRanked(nodes, Gen, n, l);
      nodes := nodes[n := l];
    }

    /**
     * recombine(one, two); `u` and `coin` are the two uniform draws in [0, 1)
     * that choose the site and the side.
     */
    method Recombine(one: nat, two: nat, u: real, coin: real) returns (r: Outcome<Failure>)
      requires Valid() && one < |nodes| && two < |nodes| && Gen[one] == Gen[two]
      requires 0.0 <= u < 1.0 && 0.0 <= coin < 1.0
      modifies this
      ensures Valid() && Gen == old(Gen)
      ensures Step(r, nodes) == Recombination(old(nodes), one, two, u, coin)
    {
      if HasRecombination(nodes[one]) || HasRecombination(nodes[two]) {
        return Fail(IllegalArgument);
      }
      var rOne, rTwo := nodes[one].payload, nodes[two].payload;
      if !rOne.recombineable || !rTwo.recombineable {
        return Fail(NullPointer);
      }
      var site := DrawSite(Min(|rOne.data|, |rTwo.data|) - 1, u);
      if site == 0 {
        return Fail(Diverges);
      }
      var upper := coin > 0.5;
      var (lo, hi) := Region(site, upper, |rOne.data|);
      ghost var n0 := nodes;
      SetRecombinationPartner(one, lo, hi, two);
      ghost var n1 := nodes;
      SetRecombinationPartner(two, lo, hi, one);
      ghost var n2 := nodes;
      assert Recombination(n0, one, two, u, coin) == Crossover(n0, one, two, lo, hi);
      assert Crossover(n0, one, two, lo, hi) ==
        if !RegionFits(rOne.data, lo, hi) || !RegionFits(rTwo.data, lo, hi) then Step(Fail(RegionOutOfRange), n2)
        else Exchange(n2, one, two, lo, hi, rOne.data[lo..hi], rTwo.data[lo..hi]);
      if !RegionFits(rOne.data, lo, hi) || !RegionFits(rTwo.data, lo, hi) {
        return Fail(RegionOutOfRange);
      }
      var rOneData := rOne.data[lo..hi];
      var rTwoData := rTwo.data[lo..hi];
      SetRegion(one, lo, hi, rTwoData);
      SetRegion(two, lo, hi, rOneData);
      return Pass;
    }

    /**
     * The upward walk of removeFromPop: climbs from `n` while the parent exists
     * and does not stop the walk, ending at the locus that removal detaches,
     * or at the root when the walk fails.
     */
    method PruneTop(n: nat) returns (ref: nat)
      requires Valid() && n < |nodes|
      ensures ref < |nodes|
      ensures nodes[ref].parent.None? <==> PruneSteps(nodes, Gen, n).Err?
      ensures nodes[ref].parent.Some? ==> Up(nodes, n, PruneSteps(nodes, Gen, n).value) == Some(ref)
    {
      ref := n;
      ghost var depth: nat := 0;
      while nodes[ref].parent.Some? && !StopsWalk(nodes[nodes[ref].parent.value])
        invariant ref < |nodes| && Up(nodes, n, depth) == Some(ref)
        invariant PruneSteps(nodes, Gen, n) == Shift(PruneSteps(nodes, Gen, ref), depth)
        decreases Gen[ref]
      {
        UpLast(nodes, n, depth);
        PruneStepsClimb(nodes, Gen, ref);
        ShiftTwice(PruneSteps(nodes, Gen, nodes[ref].parent.value), depth);
        ref := nodes[ref].parent.value;
        depth := depth + 1;
      }
      PruneStepsStop(nodes, Gen, ref);
    }

    /**
     * removeFromPop: unless `n` is preserved, climb while the parent has
     * exactly one offspring and is not preserved, then detach the locus reached.
     */
    method RemoveFromPop(n: nat) returns (r: Outcome<Failure>)
      requires Valid() && n < |nodes|
      modifies this
      ensures Valid() && Gen == old(Gen)
      ensures Step(r, nodes) == Removal(old(nodes), Gen, n)
    {
      if nodes[n].preserve {
        return Pass;
      }
      var ref := PruneTop(n);
      if nodes[ref].parent.None? {
        return Fail(NullPointer);
      }
      var par := nodes[ref].parent.value;
      ghost var before := nodes;
      var _ := RemoveOffspring(par, ref);
      SetParent(ref, None);
      assert nodes == Detach(before, ref);
      return Pass;
    }
  }
}
