/**
 * The TMRCA density statistic: for sites spaced a bin width apart along the
 * sequence, the number of generations back to the most recent common
 * ancestor of the tips at that site, recorded in one histogram per bin.
 */
module Statistics {
  import opened Wrappers
  import opened Population
  import opened Tree

  /* ---------------------------------------------------------------------- */
  /* Ancestor lists                                                          */
  /* ---------------------------------------------------------------------- */

  /** Every entry of `s` is null or one of the loci of `nodes`. */
  predicate AllIn<T>(nodes: seq<Locus<T>>, s: seq<Option<nat>>)
  {
    forall i :: 0 <= i < |s| ==> HandleIn(|nodes|, s[i])
  }

  /** The tips of a tree as a list of (non-null) loci. */
  function Lift(tips: seq<nat>): (s: seq<Option<nat>>)
    ensures |s| == |tips| && forall i :: 0 <= i < |tips| ==> s[i] == Some(tips[i])
  {
    seq(|tips|, i requires 0 <= i < |tips| => Some(tips[i]))
  }

  ghost predicate Distinct<X>(s: seq<X>)
  {
    forall i, j :: 0 <= i < j < |s| ==> s[i] != s[j]
  }

  /** The list built by adding each element of `s` in turn unless the list already contains it. */
  function Dedup<X(==)>(s: seq<X>): seq<X>
    decreases |s|
  {
    if s == [] then []
    else
      var d := Dedup(s[..|s| - 1]);
      if s[|s| - 1] in d then d else d + [s[|s| - 1]]
  }

  /** Dedup holds no element twice, the same elements as `s`, and no more entries. */
  lemma {:induction false} DedupSpec<X(!new)>(s: seq<X>)
    ensures Distinct(Dedup(s))
    ensures forall x :: x in Dedup(s) <==> x in s
    ensures |Dedup(s)| <= |s|
    decreases |s|
  {
    if s != [] {
      var init, last := s[..|s| - 1], s[|s| - 1];
      assert s == init + [last];
      DedupSpec(init);
    }
  }

  lemma DedupSnoc<X(!new)>(s: seq<X>, x: X)
    ensures Dedup(s + [x]) == if x in Dedup(s) then Dedup(s) else Dedup(s) + [x]
  {
    assert (s + [x])[..|s|] == s;
  }

  lemma IndexOfSnoc<X>(s: seq<X>, x: X, y: X)
    ensures IndexOf(s + [x], y) == if y in s then IndexOf(s, y) else if y == x then |s| else -1
  {
    var i := IndexOf(s + [x], y);
    if y in s {
      var j := IndexOf(s, y);
      assert (s + [x])[j] == y;
      assert (s + [x])[..j] == s[..j];
    } else if y == x {
      assert (s + [x])[|s|] == y;
      assert (s + [x])[..|s|] == s;
    }
  }

  /** Dedup keeps the elements in the order of their first occurrence in `s`. */
  lemma {:induction false} DedupKeepsFirstOccurrenceOrder<X(!new)>(s: seq<X>)
    ensures forall i, j :: 0 <= i < j < |Dedup(s)| ==> IndexOf(s, Dedup(s)[i]) < IndexOf(s, Dedup(s)[j])
    decreases |s|
  {
    if s != [] {
      var init, x := s[..|s| - 1], s[|s| - 1];
      assert s == init + [x];
      DedupKeepsFirstOccurrenceOrder(init);
      DedupSpec(init);
      var d, r := Dedup(init), Dedup(s);
      forall k | 0 <= k < |d| ensures IndexOf(s, d[k]) == IndexOf(init, d[k]) {
        IndexOfSnoc(init, x, d[k]);
      }
      if x !in d {
        IndexOfSnoc(init, x, x);
        assert r == d + [x];
        forall i, j | 0 <= i < j < |r| ensures IndexOf(s, r[i]) < IndexOf(s, r[j]) {
          if j == |d| {
            assert r[i] == d[i];
          }
        }
      }
    }
  }

  /* ---------------------------------------------------------------------- */
  /* getParentsOfSampleForSite                                               */
  /* ---------------------------------------------------------------------- */

  /**
   * The site-parent of every entry of `sample`, in order; a null entry or a
   * site-parent that cannot be resolved stops the list with a null pointer.
   */
  function MapSiteParents<T>(nodes: seq<Locus<T>>, sample: seq<Option<nat>>, site: int): Result<seq<Option<nat>>, Failure>
    requires Closed(nodes) && AllIn(nodes, sample)
    decreases |sample|
  {
    if sample == [] then Ok([])
    else
      var kid := sample[|sample| - 1];
      match MapSiteParents(nodes, sample[..|sample| - 1], site)
      case Err(e) => Err(e)
      case Ok(ps) =>
        if kid.None? then Err(NullPointer)
        else
          match SiteParent(nodes, kid.value, site)
          case Err(e) => Err(e)
          case Ok(p) => Ok(ps + [p])
  }

  /** A successful mapping holds the site-parent of each entry at the entry's position; a failure is a null pointer. */
  lemma {:induction false} MapSiteParentsPointwise<T>(nodes: seq<Locus<T>>, sample: seq<Option<nat>>, site: int)
    requires Closed(nodes) && AllIn(nodes, sample)
    ensures var r := MapSiteParents(nodes, sample, site);
      && (r.Ok? ==>
            && |r.value| == |sample|
            && forall i :: 0 <= i < |sample| ==>
                 sample[i].Some? && SiteParent(nodes, sample[i].value, site) == Ok(r.value[i]))
      && (r.Err? ==> r.error == NullPointer)
    decreases |sample|
  {
    if sample != [] {
      var init := sample[..|sample| - 1];
      MapSiteParentsPointwise(nodes, init, site);
      var r := MapSiteParents(nodes, sample, site);
      if r.Ok? {
        var ps := MapSiteParents(nodes, init, site).value;
        forall i | 0 <= i < |sample|
          ensures sample[i].Some? && SiteParent(nodes, sample[i].value, site) == Ok(r.value[i])
        {
          if i < |init| {
            assert sample[i] == init[i] && r.value[i] == ps[i];
          }
        }
      }
    }
  }

  /** The mapping fails exactly when some entry is null or has no resolvable site-parent. */
  lemma {:induction false} MapSiteParentsFails<T>(nodes: seq<Locus<T>>, sample: seq<Option<nat>>, site: int)
    requires Closed(nodes) && AllIn(nodes, sample)
    ensures MapSiteParents(nodes, sample, site).Err? <==>
      exists i :: 0 <= i < |sample| && (sample[i].None? || SiteParent(nodes, sample[i].value, site).Err?)
    decreases |sample|
  {
    MapSiteParentsPointwise(nodes, sample, site);
    if sample != [] {
      var init := sample[..|sample| - 1];
      MapSiteParentsFails(nodes, init, site);
      if MapSiteParents(nodes, init, site).Err? {
        var i :| 0 <= i < |init| && (init[i].None? || SiteParent(nodes, init[i].value, site).Err?);
        assert sample[i] == init[i];
      }
    }
  }

  /** getParentsOfSampleForSite: the site-parents of `sample` without repeats. */
  function ParentsOfSample<T>(nodes: seq<Locus<T>>, sample: seq<Option<nat>>, site: int): (r: Result<seq<Option<nat>>, Failure>)
    requires Closed(nodes) && AllIn(nodes, sample)
    ensures r.Err? ==> r.error == NullPointer
  {
    MapSiteParentsPointwise(nodes, sample, site);
    match MapSiteParents(nodes, sample, site)
    case Err(e) => Err(e)
    case Ok(ps) => Ok(Dedup(ps))
  }

  /**
   * getParentsOfSampleForSite fails, with a null pointer, exactly when a
   * member of the sample is null or stands in a breakpoint interval without
   * a partner.
   */
  lemma ParentsOfSampleFails<T>(nodes: seq<Locus<T>>, sample: seq<Option<nat>>, site: int)
    requires Closed(nodes) && AllIn(nodes, sample)
    ensures ParentsOfSample(nodes, sample, site).Err? <==>
      exists i :: 0 <= i < |sample| && (sample[i].None? || SiteParent(nodes, sample[i].value, site).Err?)
    ensures ParentsOfSample(nodes, sample, site).Err? ==> ParentsOfSample(nodes, sample, site).error == NullPointer
  {
    MapSiteParentsFails(nodes, sample, site);
  }

  /**
   * The parents of a sample hold every member's site-parent exactly once and
   * nothing else, and are never more than the members.
   */
  lemma ParentsOfSampleCovers<T>(nodes: seq<Locus<T>>, sample: seq<Option<nat>>, site: int)
    requires Closed(nodes) && AllIn(nodes, sample) && ParentsOfSample(nodes, sample, site).Ok?
    ensures var next := ParentsOfSample(nodes, sample, site).value;
      && Distinct(next)
      && |next| <= |sample|
      && (forall i :: 0 <= i < |sample| ==>
            sample[i].Some? && SiteParent(nodes, sample[i].value, site).Ok? &&
            SiteParent(nodes, sample[i].value, site).value in next)
      && (forall k :: 0 <= k < |next| ==>
            exists i :: 0 <= i < |sample| && sample[i].Some? && SiteParent(nodes, sample[i].value, site) == Ok(next[k]))
  {
    MapSiteParentsPointwise(nodes, sample, site);
    var ps := MapSiteParents(nodes, sample, site).value;
    var next := Dedup(ps);
    DedupSpec(ps);
    forall i | 0 <= i < |sample|
      ensures sample[i].Some? && SiteParent(nodes, sample[i].value, site).Ok? &&
              SiteParent(nodes, sample[i].value, site).value in next
    {
      assert ps[i] in ps;
    }
    forall k | 0 <= k < |next|
      ensures exists i :: 0 <= i < |sample| && sample[i].Some? && SiteParent(nodes, sample[i].value, site) == Ok(next[k])
    {
      assert next[k] in next;
      var i :| 0 <= i < |ps| && ps[i] == next[k];
    }
  }

  /** The parents come in the order in which the members of the sample first reach them. */
  lemma ParentsOfSampleOrder<T>(nodes: seq<Locus<T>>, sample: seq<Option<nat>>, site: int)
    requires Closed(nodes) && AllIn(nodes, sample) && ParentsOfSample(nodes, sample, site).Ok?
    ensures var ps := MapSiteParents(nodes, sample, site).value;
      var next := ParentsOfSample(nodes, sample, site).value;
      forall i, j :: 0 <= i < j < |next| ==> IndexOf(ps, next[i]) < IndexOf(ps, next[j])
  {
    DedupKeepsFirstOccurrenceOrder(MapSiteParents(nodes, sample, site).value);
  }

  /** The parents of a sample are loci of the arena, or null. */
  lemma ParentsInArena<T>(nodes: seq<Locus<T>>, sample: seq<Option<nat>>, site: int)
    requires Closed(nodes) && AllIn(nodes, sample) && ParentsOfSample(nodes, sample, site).Ok?
    ensures AllIn(nodes, ParentsOfSample(nodes, sample, site).value)
  {
    var next := ParentsOfSample(nodes, sample, site).value;
    ParentsOfSampleCovers(nodes, sample, site);
    forall k | 0 <= k < |next| ensures HandleIn(|nodes|, next[k]) {
      var i :| 0 <= i < |sample| && sample[i].Some? && SiteParent(nodes, sample[i].value, site) == Ok(next[k]);
      var kid := sample[i].value;
      assert LinksIn(|nodes|, nodes[kid]);
      if InBreak(nodes[kid], site) {
        assert LinksIn(|nodes|, nodes[nodes[kid].partner.value]);
      }
    }
  }

  /* ---------------------------------------------------------------------- */
  /* getTMRCAForSite                                                         */
  /* ---------------------------------------------------------------------- */

  /** One more than the generation of an entry; 0 for null. */
  ghost function Weight(gen: seq<nat>, o: Option<nat>): nat
    requires HandleIn(|gen|, o)
  {
    match o
    case None => 0
    case Some(x) => gen[x] + 1
  }

  /** The largest weight in `s`: a measure that every contraction lowers. */
  ghost function Rank(gen: seq<nat>, s: seq<Option<nat>>): nat
    requires forall i :: 0 <= i < |s| ==> HandleIn(|gen|, s[i])
    decreases |s|
  {
    if s == [] then 0
    else
      var rest := Rank(gen, s[..|s| - 1]);
      var last := Weight(gen, s[|s| - 1]);
      if rest < last then last else rest
  }

  /** The rank bounds every weight in `s`, and is 0 or the weight of some entry. */
  lemma {:induction false} RankIsMaximum(gen: seq<nat>, s: seq<Option<nat>>)
    requires forall i :: 0 <= i < |s| ==> HandleIn(|gen|, s[i])
    ensures forall i :: 0 <= i < |s| ==> Weight(gen, s[i]) <= Rank(gen, s)
    ensures s == [] ==> Rank(gen, s) == 0
    ensures s != [] ==> exists i :: 0 <= i < |s| && Weight(gen, s[i]) == Rank(gen, s)
    decreases |s|
  {
    if s != [] {
      var init, last := s[..|s| - 1], |s| - 1;
      RankIsMaximum(gen, init);
      var rest, w := Rank(gen, init), Weight(gen, s[last]);
      assert Rank(gen, s) == if rest < w then w else rest;
      forall i | 0 <= i < |s| ensures Weight(gen, s[i]) <= Rank(gen, s) {
        if i < last {
          assert s[i] == init[i];
        }
      }
      if rest < w || init == [] {
        assert Weight(gen, s[last]) == Rank(gen, s);
      } else {
        var j :| 0 <= j < |init| && Weight(gen, init[j]) == rest;
        assert s[j] == init[j];
      }
    }
  }

  lemma {:induction false} RankBelow(gen: seq<nat>, s: seq<Option<nat>>, bound: nat)
    requires forall i :: 0 <= i < |s| ==> HandleIn(|gen|, s[i])
    requires bound > 0 && forall i :: 0 <= i < |s| ==> Weight(gen, s[i]) < bound
    ensures Rank(gen, s) < bound
  {
    RankIsMaximum(gen, s);
  }

  /** One contraction of a non-empty sample lowers its rank. */
  lemma ContractionStep<T>(nodes: seq<Locus<T>>, gen: seq<nat>, sample: seq<Option<nat>>, site: int)
    requires Ranked(nodes, gen) && AllIn(nodes, sample) && ParentsOfSample(nodes, sample, site).Ok?
    requires |sample| > 0
    ensures AllIn(nodes, ParentsOfSample(nodes, sample, site).value)
    ensures Rank(gen, ParentsOfSample(nodes, sample, site).value) < Rank(gen, sample)
  {
    ParentsInArena(nodes, sample, site);
    ParentsOfSampleCovers(nodes, sample, site);
    var next := ParentsOfSample(nodes, sample, site).value;
    var bound := Rank(gen, sample);
    RankIsMaximum(gen, sample);
    assert sample[0].Some? && Weight(gen, sample[0]) <= bound;
    forall k | 0 <= k < |next| ensures Weight(gen, next[k]) < bound {
      var i :| 0 <= i < |sample| && sample[i].Some? && SiteParent(nodes, sample[i].value, site) == Ok(next[k]);
      SiteParentEarlier(nodes, gen, sample[i].value, site);
      assert Weight(gen, sample[i]) <= bound;
    }
    RankBelow(gen, next, bound);
  }

  /**
   * getTMRCAForSite: the number of contractions of the tips into their
   * parents at `site` until at most one ancestor remains.
   */
  ghost function Tmrca<T>(nodes: seq<Locus<T>>, gen: seq<nat>, ancestors: seq<Option<nat>>, site: int): (r: Result<nat, Failure>)
    requires Ranked(nodes, gen) && AllIn(nodes, ancestors)
    ensures r.Err? ==> r.error == NullPointer
    decreases Rank(gen, ancestors)
  {
    if |ancestors| <= 1 then Ok(0)
    else
      match ParentsOfSample(nodes, ancestors, site)
      case Err(e) => Err(e)
      case Ok(next) =>
        ContractionStep(nodes, gen, ancestors, site);
        Shift(Tmrca(nodes, gen, next, site), 1)
  }

  /** The ancestor list after `k` contractions at `site`. */
  function Contracted<T>(nodes: seq<Locus<T>>, sample: seq<Option<nat>>, site: int, k: nat): (r: Result<seq<Option<nat>>, Failure>)
    requires Closed(nodes) && AllIn(nodes, sample)
    ensures r.Ok? ==> AllIn(nodes, r.value)
    decreases k
  {
    if k == 0 then Ok(sample)
    else
      match ParentsOfSample(nodes, sample, site)
      case Err(e) => Err(e)
      case Ok(next) =>
        ParentsInArena(nodes, sample, site);
        Contracted(nodes, next, site, k - 1)
  }

  /** A first contraction that succeeds leads to the later ones; one that fails stops them all. */
  lemma ContractedUnfold<T>(nodes: seq<Locus<T>>, sample: seq<Option<nat>>, site: int, k: nat)
    requires Closed(nodes) && AllIn(nodes, sample) && k > 0
    ensures var p := ParentsOfSample(nodes, sample, site);
      && (p.Err? ==> Contracted(nodes, sample, site, k).Err?)
      && (p.Ok? ==> AllIn(nodes, p.value) && Contracted(nodes, sample, site, k) == Contracted(nodes, p.value, site, k - 1))
  {
    if ParentsOfSample(nodes, sample, site).Ok? {
      ParentsInArena(nodes, sample, site);
    }
  }

  /** After as many contractions as the TMRCA counts, at most one ancestor is left. */
  lemma {:induction false} TmrcaReachesOne<T>(nodes: seq<Locus<T>>, gen: seq<nat>, sample: seq<Option<nat>>, site: int)
    requires Ranked(nodes, gen) && AllIn(nodes, sample) && Tmrca(nodes, gen, sample, site).Ok?
    ensures Contracted(nodes, sample, site, Tmrca(nodes, gen, sample, site).value).Ok?
    ensures |Contracted(nodes, sample, site, Tmrca(nodes, gen, sample, site).value).value| <= 1
    decreases Rank(gen, sample)
  {
    TmrcaUnfold(nodes, gen, sample, site);
    if |sample| > 1 {
      var next := ParentsOfSample(nodes, sample, site).value;
      TmrcaReachesOne(nodes, gen, next, site);
      ContractedUnfold(nodes, sample, site, Tmrca(nodes, gen, next, site).value + 1);
    } else {
      assert Contracted(nodes, sample, site, 0) == Ok(sample);
    }
  }

  /** Fewer contractions than the TMRCA counts leave more than one ancestor. */
  lemma {:induction false} TmrcaNotEarlier<T>(nodes: seq<Locus<T>>, gen: seq<nat>, sample: seq<Option<nat>>, site: int, k: nat)
    requires Ranked(nodes, gen) && AllIn(nodes, sample) && Tmrca(nodes, gen, sample, site).Ok?
    requires k < Tmrca(nodes, gen, sample, site).value
    ensures Contracted(nodes, sample, site, k).Ok? && |Contracted(nodes, sample, site, k).value| > 1
    decreases k
  {
    TmrcaUnfold(nodes, gen, sample, site);
    assert |sample| > 1;
    var p := ParentsOfSample(nodes, sample, site);
    assert p.Ok?;
    if k == 0 {
      assert Contracted(nodes, sample, site, k) == Ok(sample);
    } else {
      assert Tmrca(nodes, gen, p.value, site).value == Tmrca(nodes, gen, sample, site).value - 1;
      ContractedUnfold(nodes, sample, site, k);
      TmrcaNotEarlier(nodes, gen, p.value, site, k - 1);
      assert Contracted(nodes, sample, site, k) == Contracted(nodes, p.value, site, k - 1);
    }
  }

  /** The TMRCA is the least number of contractions that leaves at most one ancestor. */
  lemma TmrcaCountsContractions<T>(nodes: seq<Locus<T>>, gen: seq<nat>, sample: seq<Option<nat>>, site: int)
    requires Ranked(nodes, gen) && AllIn(nodes, sample) && Tmrca(nodes, gen, sample, site).Ok?
    ensures var t := Tmrca(nodes, gen, sample, site).value;
      && Contracted(nodes, sample, site, t).Ok?
      && |Contracted(nodes, sample, site, t).value| <= 1
      && forall k :: 0 <= k < t ==>
           Contracted(nodes, sample, site, k).Ok? && |Contracted(nodes, sample, site, k).value| > 1
  {
    TmrcaReachesOne(nodes, gen, sample, site);
    forall k | 0 <= k < Tmrca(nodes, gen, sample, site).value
      ensures Contracted(nodes, sample, site, k).Ok? && |Contracted(nodes, sample, site, k).value| > 1
    {
      TmrcaNotEarlier(nodes, gen, sample, site, k);
    }
  }

  /** When the TMRCA fails, no number of contractions reaches a single ancestor. */
  lemma TmrcaFailureNeverCoalesces<T>(nodes: seq<Locus<T>>, gen: seq<nat>, sample: seq<Option<nat>>, site: int, k: nat)
    requires Ranked(nodes, gen) && AllIn(nodes, sample) && Tmrca(nodes, gen, sample, site).Err?
    ensures Contracted(nodes, sample, site, k).Ok? ==> |Contracted(nodes, sample, site, k).value| > 1
    decreases Rank(gen, sample)
  {
    if k == 0 {
      assert |sample| > 1;
      assert Contracted(nodes, sample, site, 0) == Ok(sample);
      assert Contracted(nodes, sample, site, k).Ok? ==> |Contracted(nodes, sample, site, k).value| > 1;
    } else {
      ContractedUnfold(nodes, sample, site, k);
      var p := ParentsOfSample(nodes, sample, site);
      if p.Ok? {
        ContractionStep(nodes, gen, sample, site);
        assert Tmrca(nodes, gen, p.value, site).Err?;
        var later := Contracted(nodes, p.value, site, k - 1);
        TmrcaFailureNeverCoalesces(nodes, gen, p.value, site, k - 1);
        assert later.Ok? ==> |later.value| > 1;
      } else {
        assert Contracted(nodes, sample, site, k).Err?;
      }
    }
  }

  lemma {:induction false} MapSiteParentsSiteFree<T>(nodes: seq<Locus<T>>, sample: seq<Option<nat>>, s1: int, s2: int)
    requires Closed(nodes) && AllIn(nodes, sample)
    requires forall i :: 0 <= i < |nodes| ==> nodes[i].bpMax <= nodes[i].bpMin
    ensures MapSiteParents(nodes, sample, s1) == MapSiteParents(nodes, sample, s2)
    decreases |sample|
  {
    if sample != [] {
      MapSiteParentsSiteFree(nodes, sample[..|sample| - 1], s1, s2);
      var kid := sample[|sample| - 1];
      if kid.Some? {
        SiteParentRule(nodes, kid.value);
      }
    }
  }

  /**
   * Without recombination every site has the same genealogy, so the TMRCA
   * does not depend on the site.
   */
  lemma {:induction false} TmrcaSiteIndependent<T>(nodes: seq<Locus<T>>, gen: seq<nat>, sample: seq<Option<nat>>, s1: int, s2: int)
    requires Ranked(nodes, gen) && AllIn(nodes, sample)
    requires forall i :: 0 <= i < |nodes| ==> nodes[i].bpMax <= nodes[i].bpMin
    ensures Tmrca(nodes, gen, sample, s1) == Tmrca(nodes, gen, sample, s2)
    decreases Rank(gen, sample)
  {
    if |sample| > 1 {
      MapSiteParentsSiteFree(nodes, sample, s1, s2);
      var p := ParentsOfSample(nodes, sample, s1);
      if p.Ok? {
        ContractionStep(nodes, gen, sample, s1);
        TmrcaSiteIndependent(nodes, gen, p.value, s1, s2);
      }
    }
  }

  /* ---------------------------------------------------------------------- */
  /* The traversals as loops                                                 */
  /* ---------------------------------------------------------------------- */

  /** getParentsOfSampleForSite: builds the list member by member, skipping a parent already in it. */
  method ParentsOfSampleForSite<T>(g: Genealogy<T>, sample: seq<Option<nat>>, site: int) returns (r: Result<seq<Option<nat>>, Failure>)
    requires g.Valid() && AllIn(g.nodes, sample)
    ensures r == ParentsOfSample(g.nodes, sample, site)
  {
    var parents: seq<Option<nat>> := [];
    for i := 0 to |sample|
      invariant AllIn(g.nodes, sample[..i])
      invariant MapSiteParents(g.nodes, sample[..i], site).Ok?
      invariant parents == Dedup(MapSiteParents(g.nodes, sample[..i], site).value)
    {
      assert sample[..i + 1][..i] == sample[..i];
      var kid := sample[i];
      if kid.None? {
        MapSiteParentsFails(g.nodes, sample, site);
        return Err(NullPointer);
      }
      var parent := SiteParent(g.nodes, kid.value, site);
      if parent.Err? {
        MapSiteParentsFails(g.nodes, sample, site);
        return Err(parent.error);
      }
      ghost var ps := MapSiteParents(g.nodes, sample[..i], site).value;
      assert MapSiteParents(g.nodes, sample[..i + 1], site) == Ok(ps + [parent.value]);
      DedupSnoc(ps, parent.value);
      if parent.value !in parents {
        parents := parents + [parent.value];
      }
    }
    assert sample[..|sample|] == sample;
    return Ok(parents);
  }

  /** One step of the TMRCA: none for a sample of at most one, else one contraction more. */
  lemma TmrcaUnfold<T>(nodes: seq<Locus<T>>, gen: seq<nat>, sample: seq<Option<nat>>, site: int)
    requires Ranked(nodes, gen) && AllIn(nodes, sample)
    ensures |sample| <= 1 ==> Tmrca(nodes, gen, sample, site) == Ok(0)
    ensures |sample| > 1 && ParentsOfSample(nodes, sample, site).Err? ==>
      Tmrca(nodes, gen, sample, site) == Err(ParentsOfSample(nodes, sample, site).error)
    ensures |sample| > 1 && ParentsOfSample(nodes, sample, site).Ok? ==>
      && AllIn(nodes, ParentsOfSample(nodes, sample, site).value)
      && Rank(gen, ParentsOfSample(nodes, sample, site).value) < Rank(gen, sample)
      && Tmrca(nodes, gen, sample, site) == Shift(Tmrca(nodes, gen, ParentsOfSample(nodes, sample, site).value, site), 1)
  {
    if |sample| > 1 && ParentsOfSample(nodes, sample, site).Ok? {
      ContractionStep(nodes, gen, sample, site);
    }
  }

  /** getTMRCAForSite: contracts the tips until at most one ancestor is left, counting the steps. */
  method TmrcaForSite<T>(tree: GenTree<T>, site: int) returns (r: Result<nat, Failure>)
    requires ValidTree(tree)
    ensures r == Tmrca(tree.arena.nodes, tree.arena.Gen, Lift(tree.tips), site)
  {
    var g := tree.arena;
    var tmrca: nat := 0;
    var ancestors := Lift(tree.tips);
    while |ancestors| > 1
      invariant AllIn(g.nodes, ancestors)
      invariant Tmrca(g.nodes, g.Gen, Lift(tree.tips), site) == Shift(Tmrca(g.nodes, g.Gen, ancestors, site), tmrca)
      decreases Rank(g.Gen, ancestors)
    {
      var next := ParentsOfSampleForSite(g, ancestors, site);
      TmrcaUnfold(g.nodes, g.Gen, ancestors, site);
      if next.Err? {
        return Err(next.error);
      }
      ShiftTwice(Tmrca(g.nodes, g.Gen, next.value, site), tmrca);
      ancestors := next.value;
      tmrca := tmrca + 1;
    }
    TmrcaUnfold(g.nodes, g.Gen, ancestors, site);
    return Ok(tmrca);
  }

  /* ---------------------------------------------------------------------- */
  /* Histograms                                                              */
  /* ---------------------------------------------------------------------- */

  lemma CeilingDivision(len: nat, w: int)
    requires w > 0
    ensures ((len + w - 1) / w) * w >= len && ((len + w - 1) / w - 1) * w < len
  {
    var c, m := (len + w - 1) / w, (len + w - 1) % w;
    assert len + w - 1 == c * w + m;
    assert (c - 1) * w == c * w - w;
  }

  /**
   * The number of histograms for a sequence of `len` sites and bin width
   * `w`: the ceiling of len / w as a Java int, or the error raised when an
   * array of that size is allocated. A zero width gives an infinite
   * quotient (the largest int: too large to allocate) unless the length is
   * 0 too (NaN, cast to 0); a negative width gives a negative size unless
   * the quotient lies in (-1, 0], which the ceiling takes to 0.
   */
  function HistoCount(len: nat, w: int): (r: Result<nat, Failure>)
    ensures w > 0 ==> r.Ok? && r.value * w >= len && (r.value - 1) * w < len
    ensures w == 0 ==> (r.Ok? <==> len == 0) && (r.Ok? ==> r.value == 0) && (r.Err? ==> r.error == OutOfMemory)
    ensures w < 0 ==> (r.Ok? <==> len < -w) && (r.Ok? ==> r.value == 0) && (r.Err? ==> r.error == NegativeArraySize)
  {
    if w > 0 then
      CeilingDivision(len, w);
      Ok((len + w - 1) / w)
    else if w == 0 then
      if len == 0 then Ok(0) else Err(OutOfMemory)
    else
      if len < -w then Ok(0) else Err(NegativeArraySize)
  }

  lemma MultiplyMonotone(a: int, b: int, w: nat)
    requires a <= b
    ensures a * w <= b * w
  {
    assert b * w - a * w == (b - a) * w;
  }

  /** With a positive width, the site of histogram `j` lies inside the sequence exactly when `j` is a histogram index. */
  lemma SiteInsideSequence(len: nat, w: int, j: nat)
    requires w > 0
    ensures j * w < len <==> j < HistoCount(len, w).value
  {
    var c := HistoCount(len, w).value;
    if j < c {
      MultiplyMonotone(j, c - 1, w);
    } else {
      MultiplyMonotone(c, j, w);
    }
  }

  /** The values one collect pass records and how the pass ends. */
  datatype Swept = Swept(values: seq<int>, outcome: Outcome<Failure>)

  /** The TMRCA of `tips` as a function of the site. */
  ghost function TmrcaAt<T>(nodes: seq<Locus<T>>, gen: seq<nat>, tips: seq<Option<nat>>): (at: int -> Result<nat, Failure>)
    requires Ranked(nodes, gen) && AllIn(nodes, tips)
    ensures forall site :: at(site) == Tmrca(nodes, gen, tips, site)
  {
    site => Tmrca(nodes, gen, tips, site)
  }

  /**
   * The collect loop from histogram `k` and site `site` on, over `cap`
   * histograms, with `at` giving the TMRCA of a site: while the site lies
   * inside the sequence, its TMRCA goes into histogram k and the next site
   * is `w` further on; a failed TMRCA stops the pass, and so does a site
   * past the last histogram.
   */
  ghost function Sweep(at: int -> Result<nat, Failure>, len: nat, w: int, cap: nat, k: nat, site: int): (s: Swept)
    requires k <= cap
    ensures |s.values| <= cap - k
    decreases cap - k
  {
    if site >= len then Swept([], Pass)
    else
      match at(site)
      case Err(e) => Swept([], Fail(e))
      case Ok(t) =>
        if k == cap then Swept([], Fail(IndexOutOfBounds))
        else
          var rest := Sweep(at, len, w, cap, k + 1, site + w);
          Swept([t] + rest.values, rest.outcome)
  }

  /** The three ways a pass goes on at a site inside the sequence, and its end past it. */
  lemma SweepStep(at: int -> Result<nat, Failure>, len: nat, w: int, cap: nat, k: nat, site: int)
    requires k <= cap
    ensures site >= len ==> Sweep(at, len, w, cap, k, site) == Swept([], Pass)
    ensures site < len && at(site).Err? ==> Sweep(at, len, w, cap, k, site) == Swept([], Fail(at(site).error))
    ensures site < len && at(site).Ok? && k == cap ==> Sweep(at, len, w, cap, k, site) == Swept([], Fail(IndexOutOfBounds))
    ensures site < len && at(site).Ok? && k < cap ==>
      var rest := Sweep(at, len, w, cap, k + 1, site + w);
      Sweep(at, len, w, cap, k, site) == Swept([at(site).value] + rest.values, rest.outcome)
  {
  }

  lemma NextSite(k: nat, w: int)
    ensures k * w + w == (k + 1) * w
  {
  }

  /**
   * With a positive width and no TMRCA failure, a pass from the start
   * visits every site k * w below the sequence length and succeeds when
   * there are histograms for all of them; with fewer histograms (the width
   * was changed after they were allocated) it fills them all and then fails
   * with an index out of bounds.
   */
  lemma {:induction false} SweepReachesEverySite(at: int -> Result<nat, Failure>, len: nat, w: int, cap: nat, k: nat)
    requires k <= cap && w > 0
    requires forall j :: k <= j <= cap && j < HistoCount(len, w).value ==> at(j * w).Ok?
    ensures var s := Sweep(at, len, w, cap, k, k * w);
      var c := HistoCount(len, w).value;
      && |s.values| == (if c <= k then 0 else Min(c, cap) - k)
      && s.outcome == (if c <= cap then Pass else Fail(IndexOutOfBounds))
    decreases cap - k
  {
    var c := HistoCount(len, w).value;
    SiteInsideSequence(len, w, k);
    if k < c && k < cap {
      NextSite(k, w);
      SweepReachesEverySite(at, len, w, cap, k + 1);
    }
  }

  lemma LaterSite(site: int, i: nat, w: int)
    requires i > 0
    ensures site + w + (i - 1) * w == site + i * w
  {
  }

  /** A pass puts the TMRCA of its i-th site into the i-th histogram it reaches. */
  lemma {:induction false} SweepRecordsTmrca(at: int -> Result<nat, Failure>, len: nat, w: int, cap: nat, k: nat, site: int, i: nat)
    requires k <= cap
    requires i < |Sweep(at, len, w, cap, k, site).values|
    ensures at(site + i * w).Ok?
    ensures Sweep(at, len, w, cap, k, site).values[i] == at(site + i * w).value
    decreases cap - k
  {
    if i > 0 {
      SweepRecordsTmrca(at, len, w, cap, k + 1, site + w, i - 1);
      LaterSite(site, i, w);
    }
  }

  /**
   * A pass that fails stops at a site inside the sequence: the site whose
   * TMRCA fails, with that failure, or the first site with no histogram
   * left, with an index out of bounds.
   */
  lemma {:induction false} SweepStopsAtFailure(at: int -> Result<nat, Failure>, len: nat, w: int, cap: nat, k: nat, site: int)
    requires k <= cap
    requires Sweep(at, len, w, cap, k, site).outcome.Fail?
    ensures var s := Sweep(at, len, w, cap, k, site);
      var last := site + |s.values| * w;
      && last < len
      && (if at(last).Err? then s.outcome.error == at(last).error
          else s.outcome == Fail(IndexOutOfBounds) && k + |s.values| == cap)
    decreases cap - k
  {
    var s := Sweep(at, len, w, cap, k, site);
    if site < len && at(site).Ok? && k < cap {
      SweepStopsAtFailure(at, len, w, cap, k + 1, site + w);
      var n := |Sweep(at, len, w, cap, k + 1, site + w).values|;
      assert |s.values| == n + 1;
      LaterSite(site, n + 1, w);
    }
  }

  /** All histogram lists extended by the values of one pass, histogram by histogram. */
  function Appended(before: seq<seq<int>>, values: seq<int>): (r: seq<seq<int>>)
    requires |values| <= |before|
    ensures |r| == |before|
    ensures forall k :: 0 <= k < |r| ==> r[k] == before[k] + (if k < |values| then [values[k]] else [])
  {
    seq(|before|, k requires 0 <= k < |before| => before[k] + (if k < |values| then [values[k]] else []))
  }

  /** What one collect of a tree leaves: its outcome, the sequence length and the histograms. */
  datatype Collected = Collected(outcome: Outcome<Failure>, seqLength: Option<nat>, histos: Option<seq<seq<int>>>)

  /**
   * collect for a tree with tips `tips`: the first tip must carry DNA; the
   * sequence length is taken from it the first time and kept after that;
   * the histograms are allocated the first time they are missing; then one
   * pass adds a TMRCA to each of them.
   */
  ghost function Collection<T>(nodes: seq<Locus<T>>, gen: seq<nat>, tips: seq<nat>, w: int,
                               seqLength: Option<nat>, histos: Option<seq<seq<int>>>): Collected
    requires Ranked(nodes, gen) && forall i :: 0 <= i < |tips| ==> tips[i] < |nodes|
  {
    if |tips| == 0 then Collected(Fail(IndexOutOfBounds), seqLength, histos)
    else if !nodes[tips[0]].payload.isDna then Collected(Fail(IllegalArgument), seqLength, histos)
    else
      var len := if seqLength.Some? then seqLength.value else |nodes[tips[0]].payload.data|;
      if histos.None? && HistoCount(len, w).Err? then Collected(Fail(HistoCount(len, w).error), Some(len), None)
      else
        var before := if histos.Some? then histos.value else seq(HistoCount(len, w).value, _ => []);
        var s := Sweep(TmrcaAt(nodes, gen, Lift(tips)), len, w, |before|, 0, 0);
        Collected(s.outcome, Some(len), Some(Appended(before, s.values)))
  }

  /** A pass from the start over freshly allocated histograms fills each with the TMRCA of its site. */
  lemma SweepFromStart(at: int -> Result<nat, Failure>, len: nat, w: int)
    requires w > 0
    requires forall j :: 0 <= j < HistoCount(len, w).value ==> at(j * w).Ok?
    ensures var c := HistoCount(len, w).value;
      var s := Sweep(at, len, w, c, 0, 0);
      && s.outcome == Pass && |s.values| == c
      && forall k :: 0 <= k < c ==> s.values[k] == at(k * w).value
  {
    var c := HistoCount(len, w).value;
    SweepReachesEverySite(at, len, w, c, 0);
    var s := Sweep(at, len, w, c, 0, 0);
    forall k | 0 <= k < c ensures s.values[k] == at(k * w).value {
      SweepRecordsTmrca(at, len, w, c, 0, 0, k);
    }
  }

  /**
   * The first collect with a positive width allocates one histogram per bin
   * of the first tip's sequence and, unless a TMRCA fails, puts into
   * histogram k exactly the TMRCA at site k * w.
   */
  lemma FirstCollection<T>(nodes: seq<Locus<T>>, gen: seq<nat>, tips: seq<nat>, w: int)
    requires Ranked(nodes, gen) && forall i :: 0 <= i < |tips| ==> tips[i] < |nodes|
    requires |tips| > 0 && nodes[tips[0]].payload.isDna && w > 0
    requires var c := HistoCount(|nodes[tips[0]].payload.data|, w).value;
      forall j :: 0 <= j < c ==> Tmrca(nodes, gen, Lift(tips), j * w).Ok?
    ensures var len := |nodes[tips[0]].payload.data|;
      var c := HistoCount(len, w).value;
      var r := Collection(nodes, gen, tips, w, None, None);
      && r.outcome == Pass
      && r.seqLength == Some(len)
      && r.histos.Some? && |r.histos.value| == c
      && (c - 1) * w < len <= c * w
      && forall k :: 0 <= k < c ==> r.histos.value[k] == [Tmrca(nodes, gen, Lift(tips), k * w).value]
  {
    var len := |nodes[tips[0]].payload.data|;
    var at := TmrcaAt(nodes, gen, Lift(tips));
    SweepFromStart(at, len, w);
  }

  /**
   * Once allocated, the histograms keep their number and the sequence
   * length is kept; a collect adds at most one value to each histogram and
   * changes nothing before it. A tree without tips or whose first tip has
   * no DNA changes nothing at all.
   */
  lemma LaterCollection<T>(nodes: seq<Locus<T>>, gen: seq<nat>, tips: seq<nat>, w: int,
                           seqLength: Option<nat>, histos: Option<seq<seq<int>>>)
    requires Ranked(nodes, gen) && forall i :: 0 <= i < |tips| ==> tips[i] < |nodes|
    requires histos.Some? ==> seqLength.Some?
    ensures var r := Collection(nodes, gen, tips, w, seqLength, histos);
      && (r.histos.Some? ==> r.seqLength.Some?)
      && (seqLength.Some? ==> r.seqLength == seqLength)
      && (histos.Some? ==>
            && r.histos.Some? && |r.histos.value| == |histos.value|
            && forall k :: 0 <= k < |histos.value| ==>
                 && histos.value[k] <= r.histos.value[k]
                 && |r.histos.value[k]| <= |histos.value[k]| + 1)
      && (|tips| == 0 || !nodes[tips[0]].payload.isDna ==>
            r == Collected(if |tips| == 0 then Fail(IndexOutOfBounds) else Fail(IllegalArgument), seqLength, histos))
  {
  }

  /**
   * A later collect with the width the histograms were allocated for adds,
   * unless a TMRCA fails, exactly the TMRCA at site k * w to histogram k.
   */
  lemma LaterCollectionAppendsTmrca<T>(nodes: seq<Locus<T>>, gen: seq<nat>, tips: seq<nat>, w: int,
                                       len: nat, h: seq<seq<int>>)
    requires Ranked(nodes, gen) && forall i :: 0 <= i < |tips| ==> tips[i] < |nodes|
    requires |tips| > 0 && nodes[tips[0]].payload.isDna && w > 0
    requires |h| == HistoCount(len, w).value
    requires forall j :: 0 <= j < |h| ==> Tmrca(nodes, gen, Lift(tips), j * w).Ok?
    ensures var r := Collection(nodes, gen, tips, w, Some(len), Some(h));
      && r.outcome == Pass
      && r.seqLength == Some(len)
      && r.histos.Some? && |r.histos.value| == |h|
      && forall k :: 0 <= k < |h| ==> r.histos.value[k] == h[k] + [Tmrca(nodes, gen, Lift(tips), k * w).value]
  {
    SweepFromStart(TmrcaAt(nodes, gen, Lift(tips)), len, w);
  }

  /* ---------------------------------------------------------------------- */
  /* The statistic                                                           */
  /* ---------------------------------------------------------------------- */

  class TmrcaDensity {
    /** The spacing of the sampled sites, and the width of the sequence segment one histogram covers. */
    var histoBinWidth: int
    /** One list of recorded TMRCA values per segment; null until the first collect. */
    var histos: array?<seq<int>>
    /** The sequence length, read from the first tip of the first collected tree. */
    var seqLength: Option<nat>

    ghost predicate Valid()
      reads this
    {
      histos != null ==> seqLength.Some?
    }

    /** The recorded values, or None when no histograms exist. */
    ghost function Recorded(): Option<seq<seq<int>>>
      reads this, histos
    {
      if histos == null then None else Some(histos[..])
    }

    constructor ()
      ensures Valid() && histoBinWidth == 50 && histos == null && seqLength == None
    {
      histoBinWidth := 50;
      histos := null;
      seqLength := None;
    }

    /** clear: forgets the sequence length and the histograms, keeping the width. */
    method Clear()
      modifies this
      ensures Valid() && seqLength == None && histos == null && histoBinWidth == old(histoBinWidth)
    {
      seqLength := None;
      histos := null;
    }

    /** setUserHistoBinWidth: sets the width and nothing else; existing histograms keep their number. */
    method SetUserHistoBinWidth(width: int)
      modifies this
      ensures histoBinWidth == width && histos == old(histos) && seqLength == old(seqLength)
    {
      histoBinWidth := width;
    }

    /** collect: records the TMRCA of `tree` at every sampled site; a null tree is ignored. */
    method Collect<T>(tree: Option<GenTree<T>>) returns (r: Outcome<Failure>)
      requires Valid() && (tree.Some? ==> ValidTree(tree.value))
      modifies this, histos
      ensures Valid() && histoBinWidth == old(histoBinWidth)
      ensures old(histos) != null ==> histos == old(histos)
      ensures old(histos) == null && histos != null ==> fresh(histos)
      ensures tree.None? ==> r == Pass && seqLength == old(seqLength) && Recorded() == old(Recorded())
      ensures tree.Some? ==>
        Collected(r, seqLength, Recorded()) ==
        Collection(tree.value.arena.nodes, tree.value.arena.Gen, tree.value.tips, histoBinWidth, old(seqLength), old(Recorded()))
    {
      if tree.None? {
        return Pass;
      }
      var t := tree.value;
      if |t.tips| == 0 {
        return Fail(IndexOutOfBounds);
      }
      var fitnessData := t.arena.nodes[t.tips[0]].payload;
      if !fitnessData.isDna {
        return Fail(IllegalArgument);
      }
      if seqLength.None? {
        seqLength := Some(|fitnessData.data|);
      }
      var len := seqLength.value;
      if histos == null {
        var count := HistoCount(len, histoBinWidth);
        if count.Err? {
          return Fail(count.error);
        }
        var created := new seq<int>[count.value](_ => []);
        assert created[..] == seq(count.value, _ => []);
        histos := created;
      }
      r := AddTmrcas(t, histos, len, histoBinWidth, TmrcaAt(t.arena.nodes, t.arena.Gen, Lift(t.tips)));
    }
  }

  /**
   * getTMRCAForSite seen through `at`: the collect loop reasons about the
   * pass `Sweep(at, ...)`, so each call restates the method's result in
   * terms of `at`, keeping the quantified link between `at` and `Tmrca`
   * out of the loop's own proof obligations.
   */
  method TmrcaOfSite<T>(t: GenTree<T>, site: int, ghost at: int -> Result<nat, Failure>) returns (r: Result<nat, Failure>)
    requires ValidTree(t)
    requires forall site {:trigger Tmrca(t.arena.nodes, t.arena.Gen, Lift(t.tips), site)} ::
      at(site) == Tmrca(t.arena.nodes, t.arena.Gen, Lift(t.tips), site)
    ensures r == at(site)
  {
    r := TmrcaForSite(t, site);
  }

  /** The loop of collect: the TMRCA of each site j * w below `len` goes into h[j]. */
  method AddTmrcas<T>(t: GenTree<T>, h: array<seq<int>>, len: nat, w: int, ghost at: int -> Result<nat, Failure>) returns (r: Outcome<Failure>)
    requires ValidTree(t)
    requires forall site {:trigger Tmrca(t.arena.nodes, t.arena.Gen, Lift(t.tips), site)} ::
      at(site) == Tmrca(t.arena.nodes, t.arena.Gen, Lift(t.tips), site)
    modifies h
    ensures var s := Sweep(at, len, w, h.Length, 0, 0);
      r == s.outcome && h[..] == Appended(old(h[..]), s.values)
  {
    ghost var before := h[..];
    ghost var done: seq<int> := [];
    var histoIndex: nat := 0;
    var site := 0;
    while site < len
      invariant histoIndex <= h.Length == |before|
      invariant |done| == histoIndex
      invariant forall j :: 0 <= j < h.Length ==> h[j] == before[j] + (if j < histoIndex then [done[j]] else [])
      invariant Sweep(at, len, w, h.Length, 0, 0) ==
        Swept(done + Sweep(at, len, w, h.Length, histoIndex, site).values, Sweep(at, len, w, h.Length, histoIndex, site).outcome)
      decreases h.Length - histoIndex
    {
      var tmrca := TmrcaOfSite(t, site, at);
      SweepStep(at, len, w, h.Length, histoIndex, site);
      if tmrca.Err? {
        assert h[..] == Appended(before, done);
        return Fail(tmrca.error);
      }
      if histoIndex == h.Length {
        assert h[..] == Appended(before, done);
        return Fail(IndexOutOfBounds);
      }
      ghost var rest := Sweep(at, len, w, h.Length, histoIndex + 1, site + w);
      assert done + ([tmrca.value] + rest.values) == (done + [tmrca.value]) + rest.values;
      h[histoIndex] := h[histoIndex] + [tmrca.value];
      done := done + [tmrca.value];
      histoIndex := histoIndex + 1;
      site := site + w;
    }
    SweepStep(at, len, w, h.Length, histoIndex, site);
    assert h[..] == Appended(before, done);
    return Pass;
  }
}
