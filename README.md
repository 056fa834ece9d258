# TreesimJ genealogy core in Dafny

This project models the genealogy core of TreesimJ, a forward-time population simulator:

- **Loci.** A `Locus` has one parent link, an ordered offspring list, a preserve flag and an optional recombination partner. The locus also has a half-open breakpoint interval `[breakPointMin, breakPointMax)`; the sites inside it were inherited from the partner's parent, all others from the own parent.
- A genealogy operation takes the parent of a locus at a site, recombines two loci, prunes a dead lineage, counts links to the root, edits offspring lists, clears references or copies a locus.
- **Statistics.** Two statistics read the genealogy:
  - the TMRCA density map, which records, at sites spaced one bin width apart, the number of generations back to the most recent common ancestor of the tips;
  - Sackin's index, the tip depths summed over the number of tips.

Loci live in an arena, the `Population.Genealogy` class. Handles are indexes into its `nodes` sequence. The parent and partner references become `Option<nat>` handles, the offspring list a sequence of handles, and the fitness data a `Payload` value.

**Generation numbers.** A ghost sequence `Gen` numbers the generations. A parent belongs to an earlier generation than its child, and recombination partners belong to the same generation. The invariant `Ranked` ties these together, and it is the termination measure of every upward walk.

**Failures and outcomes.** Java exceptions become the `Failure` datatype: null dereference, illegal argument, index out of bounds, negative or oversized array, a region outside a payload, and `Diverges` for the site redraw loop that cannot end. Operations that may throw return a `Result` or an `Outcome`.

**Two layers.** The operations that change state or loop are stated twice:
- a pure specification function (`SiteParent`, `Removal`, `Recombination`, `Tmrca`, `Collection`, `SumDepths`);
- the imperative method that performs it in place (`Genealogy.RemoveFromPop`, `Genealogy.Recombine`, `Statistics.TmrcaForSite`, `TmrcaDensity.Collect`, `SackinsIndex.Collect`).

Each method is proved equal to its function. The lemmas then prove what the source promises about the functions.

**Statistics inputs.** The statistics take a tree snapshot `Tree.GenTree`: an arena plus its tip list. The depth of a tip (`getNodesToRoot`) is the model's `Depth`, the number of parent links to the root.

**Randomness.** The two `Math.random` draws of `recombine` are the parameters `u` (the site) and `coin` (the side), both reals in [0, 1).

**Behaviour of the code that the model keeps:**
- `getTMRCAForSite` loops while more than one ancestor remains. An empty tip list therefore gives 0, and the loop does not stop only at exactly one ancestor.
- `recombine` does not check that the payloads have equal length. With unequal lengths the region may not fit the shorter payload. The model then fails with `RegionOutOfRange`, after the partner links have already been installed.
- The site drawn for two payloads of length 10 ranges over 1..9. Site 9 is possible: it exchanges the one-site region [9, 10).
- A site inside the breakpoint interval of a locus without partner dereferences null (`NullPointer`); it does not fall back to the parent.
- `removeFromPop`'s walk reports a locus without parent but keeps going. The next loop test dereferences null, and the model returns `NullPointer` with no change.

## Model

| member | source | states |
|---|---|---|
| Population.SiteParent | src/population/Locus.java:354-364 | the site-parent is the partner's parent inside the half-open interval, the own parent outside it; it fails, with a null pointer, exactly when the site is inside the interval and there is no partner |
| Population.SiteParentRule | src/population/Locus.java:354-364 | with the constructor's empty interval every site takes the own parent; with a partner, `bpMin` resolves to the partner's parent and `bpMax` to the own parent |
| Population.SiteParentEarlier | src/population/Locus.java:354-364 | in a well-formed arena the site-parent of a locus is a locus of an earlier generation |
| Population.IndexOf | src/population/Locus.java:106 | `indexOf`: -1 exactly when absent, otherwise an index holding the element with no earlier occurrence |
| Population.OffspringIndex | src/population/Locus.java:105-112 | null exactly when `kid` is not an offspring, otherwise the index of its first occurrence |
| Population.IsTip | src/population/Locus.java:150-152 | a locus is a tip exactly when no handle has an offspring index in it |
| Population.RemoveFirstMultiset | src/population/Locus.java:175-177 | removing from the offspring list takes away exactly one occurrence when there is one, and nothing else |
| Population.RemoveFirstSubset | src/population/Locus.java:175-177 | removal only drops elements |
| Population.Genealogy.RemoveOffspring | src/population/Locus.java:175-177 | reports whether `kid` was present and leaves the list without its first occurrence, every other locus unchanged, the arena well formed |
| Population.Genealogy.AddOffspring | src/population/Locus.java:234-236 | appends `kid` at the end of the offspring list and changes nothing else |
| Population.Genealogy.SetParent | src/population/Locus.java:230-232 | replaces the parent link of one locus only |
| Population.Genealogy.SetOriginPopulation | src/population/Locus.java:57-59 | replaces the origin population of one locus only |
| Population.Genealogy.SetPreserve | src/population/Locus.java:82-84 | replaces the preserve flag of one locus only |
| Population.Genealogy.NewLocus | src/population/Locus.java:46-55 | appends a locus with no parent, no offspring, no partner and the empty interval (0, 0), keeping the arena well formed |
| Population.CopyOfData | src/population/Locus.java:292-295 | a data copy has the source's payload and origin population and no links |
| Population.Genealogy.CopyDataFrom | src/population/Locus.java:292-295 | copies origin population and payload of `src` into `n` and changes nothing else |
| Population.Genealogy.GetDataCopy | src/population/Locus.java:273-277 | appends a new locus with `n`'s data and no links, in `n`'s generation |
| Population.Genealogy.GetCompleteCopy | src/population/Locus.java:259-267 | appends a new locus with `n`'s data, the same parent and the same offspring in the same order; no other locus changes |
| Population.Genealogy.ClearReferences | src/population/Locus.java:385-388 | nulls the parent and partner links of one locus and changes nothing else |
| Population.Genealogy.DistToRoot | src/population/Locus.java:213-221 | the loop's count equals the depth of `n` |
| Population.DepthReachesRoot | src/population/Locus.java:213-221 | `Depth(n)` parent links lead through existing loci to a locus without parent, and one more leads nowhere |
| Population.DepthParentsOnly | src/population/Locus.java:213-221 | depth depends on the parent links only |
| Population.PruneSteps | src/population/Locus.java:194-201 | the walk fails only with a null pointer; a walk of k steps ends at an existing ancestor that still has a parent |
| Population.PruneStepsWalk | src/population/Locus.java:194-201 | every locus climbed through is single-child and unpreserved, and the last one's parent stops the walk; a failed walk meets no stopping ancestor |
| Population.Genealogy.PruneTop | src/population/Locus.java:194-201 | the loop ends at the root exactly when the walk fails, otherwise at the ancestor the walk designates |
| Population.DetachChanges | src/population/Locus.java:204-205 | detaching changes the locus's parent link and its parent's offspring list, and no other locus |
| Population.DetachKeepsRanked | src/population/Locus.java:204-205 | detaching keeps the arena well formed |
| Population.RemovalDetachesOne | src/population/Locus.java:187-206 | a preserved start changes nothing; a failed walk changes nothing; otherwise exactly one unpreserved ancestor-or-self `t` loses its parent, its parent (which stops the walk) loses one occurrence of `t`, and every other locus is unchanged |
| Population.RemovalSparesPreserved | src/population/Locus.java:187-190 | a preserved locus keeps its parent link through every removal |
| Population.RemovalKeepsRanked | src/population/Locus.java:187-206 | removal keeps the arena well formed |
| Population.Genealogy.RemoveFromPop | src/population/Locus.java:187-206 | the method's outcome and new arena are those of `Removal` |
| Population.DrawSite | src/population/Locus.java:397-401 | with a shorter payload of m + 1 >= 2 sites the site lies in 1..m, with one site it is 1; 0, which makes the code draw again, comes only from an empty payload, there for every draw but 0.0 |
| Population.ReplaceRegion | src/population/Locus.java:417-418 | set-region replaces exactly [lo, hi) and keeps the length and every other site |
| Population.Recombination | src/population/Locus.java:391-436 | recombination keeps the number of loci; its outcomes are stated by the four lemmas below |
| Population.Crossover | src/population/Locus.java:407-436 | linking and exchanging keeps the number of loci |
| Population.RecombinationRefusals | src/population/Locus.java:391-394 | a locus that already has a partner makes recombination fail with an illegal argument and no change; every failure but a region outside a payload changes nothing |
| Population.RecombinationExchanges | src/population/Locus.java:407-435 | after success the two loci are partners of each other with the same interval, [site, len(one)) or [0, site); their payloads hold each other's region and keep everything outside it; no other field or locus changes |
| Population.RecombinationSucceeds | src/population/Locus.java:397-401 | non-empty recombineable payloads without partners always recombine, or fail only on the region, exactly when the upper side is chosen and `two` is shorter; equal lengths >= 2 give a site strictly inside the payload |
| Population.RecombinedAncestry | src/population/Locus.java:407-427 | after recombination each locus takes the region's sites from the other's parent and all other sites from its own parent |
| Population.RecombinationKeepsRanked | src/population/Locus.java:407-427 | recombining two loci of one generation keeps the arena well formed |
| Population.Genealogy.SetRecombinationPartner | src/population/Locus.java:40-43 | sets the interval and partner of one locus only |
| Population.Genealogy.SetRegion | src/population/Locus.java:417-418 | replaces the payload region of one locus only |
| Population.Genealogy.Recombine | src/population/Locus.java:391-436 | the method's outcome and new arena are those of `Recombination` |
| Statistics.DedupSpec | src/statistics/TMRCADensity.java:136-144 | the list built with a `contains` check has no repeats, exactly the elements of the input, and no more entries |
| Statistics.DedupSnoc | src/statistics/TMRCADensity.java:140-142 | one more element is appended exactly when it is not yet in the list |
| Statistics.DedupKeepsFirstOccurrenceOrder | src/statistics/TMRCADensity.java:138-143 | the elements come in the order of their first occurrence |
| Statistics.MapSiteParentsPointwise | src/statistics/TMRCADensity.java:138-139 | a successful mapping holds each member's site-parent at its position; a failure is a null pointer |
| Statistics.MapSiteParentsFails | src/statistics/TMRCADensity.java:138-139 | the mapping fails exactly when some member is null or has no resolvable site-parent |
| Statistics.ParentsOfSample | src/statistics/TMRCADensity.java:135-145 | a failure is a null pointer |
| Statistics.ParentsOfSampleFails | src/statistics/TMRCADensity.java:135-145 | the parents fail exactly when a member is null or sits in a breakpoint interval without partner |
| Statistics.ParentsOfSampleCovers | src/statistics/TMRCADensity.java:135-145 | no duplicates, at most as many as the sample, every member's site-parent is in the list and every entry is some member's site-parent |
| Statistics.ParentsOfSampleOrder | src/statistics/TMRCADensity.java:138-143 | the parents are ordered by the first member that reaches them |
| Statistics.ParentsInArena | src/statistics/TMRCADensity.java:139 | every parent is a locus of the arena or null |
| Statistics.ParentsOfSampleForSite | src/statistics/TMRCADensity.java:135-145 | the loop returns exactly the specification's parents, or its failure |
| Statistics.ContractionStep | src/statistics/TMRCADensity.java:121-124 | one contraction of a non-empty sample lowers its largest generation |
| Statistics.Tmrca | src/statistics/TMRCADensity.java:117-127 | a failure is a null pointer |
| Statistics.TmrcaReachesOne | src/statistics/TMRCADensity.java:117-127 | after the counted number of contractions at most one ancestor remains |
| Statistics.TmrcaNotEarlier | src/statistics/TMRCADensity.java:121-124 | fewer contractions than counted leave more than one ancestor |
| Statistics.TmrcaCountsContractions | src/statistics/TMRCADensity.java:117-127 | the TMRCA is the least number of contractions leaving at most one ancestor |
| Statistics.TmrcaFailureNeverCoalesces | src/statistics/TMRCADensity.java:121-124 | when the TMRCA fails, no number of contractions reaches a single ancestor |
| Statistics.MapSiteParentsSiteFree | src/statistics/TMRCADensity.java:138-139 | without breakpoint intervals the site-parents of a sample do not depend on the site |
| Statistics.TmrcaSiteIndependent | src/statistics/TMRCADensity.java:117-127 | without recombination the TMRCA is the same at every site |
| Statistics.TmrcaForSite | src/statistics/TMRCADensity.java:117-127 | the loop returns exactly the specification's TMRCA, or its failure |
| Statistics.HistoCount | src/statistics/TMRCADensity.java:93-94 | the number of histograms is the ceiling of len / w for a positive width; a zero width fails when the length is positive, a negative one unless the length is below its magnitude |
| Statistics.SiteInsideSequence | src/statistics/TMRCADensity.java:93-103 | with a positive width, site j * w is inside the sequence exactly when j is a histogram index |
| Statistics.Sweep | src/statistics/TMRCADensity.java:102-107 | a pass records at most one value per remaining histogram |
| Statistics.SweepReachesEverySite | src/statistics/TMRCADensity.java:102-107 | without TMRCA failures a pass visits every site k * w below the length; it succeeds when there are histograms for all of them, and otherwise fills them all and fails out of bounds |
| Statistics.SweepRecordsTmrca | src/statistics/TMRCADensity.java:103-106 | the i-th recorded value is the TMRCA of the i-th visited site |
| Statistics.SweepStopsAtFailure | src/statistics/TMRCADensity.java:103-106 | a failed pass stops at a site inside the sequence: the TMRCA's failure there, or out of bounds after filling every histogram |
| Statistics.SweepFromStart | src/statistics/TMRCADensity.java:102-107 | over ceil(len / w) empty histograms and without TMRCA failures, a pass succeeds and puts exactly the TMRCA at k * w into histogram k |
| Statistics.FirstCollection | src/statistics/TMRCADensity.java:80-109 | the first collect with a positive width sets the length, allocates ceil(len / w) histograms and puts exactly the TMRCA at site k * w into histogram k |
| Statistics.LaterCollection | src/statistics/TMRCADensity.java:89-98 | once set, the length and the number of histograms never change; a collect adds at most one value per histogram, keeps what was there; a tree without tips fails out of bounds and one whose first tip has no DNA fails with an illegal argument, both changing nothing |
| Statistics.LaterCollectionAppendsTmrca | src/statistics/TMRCADensity.java:102-107 | a later collect with the allocation's width and no TMRCA failure passes, keeps the length and appends exactly the TMRCA at k * w to histogram k |
| Statistics.AddTmrcas | src/statistics/TMRCADensity.java:102-107 | the loop's outcome and the histograms it leaves are those of one pass |
| Statistics.TmrcaDensity.constructor | src/statistics/TMRCADensity.java:35-41 | width 50, no length and no histograms |
| Statistics.TmrcaDensity.Clear | src/statistics/TMRCADensity.java:62-65 | forgets the length and the histograms, keeping the width |
| Statistics.TmrcaDensity.SetUserHistoBinWidth | src/statistics/TMRCADensity.java:162-165 | sets the width and nothing else |
| Statistics.TmrcaDensity.Collect | src/statistics/TMRCADensity.java:80-109 | a null tree changes nothing; otherwise outcome, length and histograms are those of `Collection`, and allocated histograms are never replaced |
| TreeShape.SumDepthsParentsOnly | src/statistics/treeShape/SackinsIndex.java:36-38 | the index reads parent links only: partners, intervals, offspring and payloads do not affect it |
| TreeShape.SumDepthsAtLeastTips | src/statistics/treeShape/SackinsIndex.java:35-39 | tips that are not roots contribute at least one link each |
| TreeShape.SackinsIndex.constructor | src/statistics/treeShape/SackinsIndex.java:21 | starts with no values |
| TreeShape.SackinsIndex.Collect | src/statistics/treeShape/SackinsIndex.java:28-40 | a null tree leaves the values unchanged; otherwise exactly one entry is appended: the sum of the tip depths over the number of tips |

## Left out

- Fitness and mutation (`getFitness`, `mutate`, `relativeFitness`, `getPrimaryDNA`): they are floating point or delegate to fitness classes that are not part of this model. The payload is reduced to a DNA flag, a region-exchange flag and its sites.
- `inheritFrom`: the shared fitness provider is a reference the model does not track. Payloads are values, so a copy and its source never share state.
- The random identity (`rng.nextLong`) and `getReadableID`: the identity is a parameter of `NewLocus`.
- The label, depth annotation, `getOriginPop` and `pop` string: plain field accessors. `originPop` is kept with its setter, as the copies carry it.
- Population.Genealogy.NewLocus: combines `new Locus(rng)` with `setFitnessProvider`, so a locus always has a payload. The code leaves `fitnessData` null until it is set. The null dereference in `copyDataFrom` (`getFitnessData().getCopy()`), and so in `getDataCopy` and `getCompleteCopy`, of a locus without fitness data is not modelled.
- Population.Crossover: the payload type is not part of this model. `getRegion` outside the payload is assumed to throw before any `setRegion`, which the model writes as `RegionOutOfRange` after the partner links have been installed.
- Population.Genealogy.SetParent, Population.Genealogy.SetRecombinationPartner, Population.Genealogy.Recombine: require the generation order of the arena, which the code never checks: a parent from an earlier generation, a partner from the same one. The inputs excluded this way are parent links that form a cycle and partners from different generations. On them `distToRoot` does not end. The `removeFromPop` walk and the `getTMRCAForSite` loop may not end: a cycle of single-child unpreserved loci, or lineages that never merge. A partner from another generation can make the site-parent chain return to a locus it already visited, so `getTMRCAForSite` may not end even with acyclic parents. The model does not capture this non-termination.
- Population.RecombinationExchanges: `getRegion` is assumed to return a copy of the region, so the exchange reads both regions before writing either. If it returned a live view of the payload, the second `setRegion` would write back the data the first one had just stored, and the swap would not hold.
- The `System.out.println` warnings in `getParentForSite`, `removeFromPop` and `recombine`: they are output only.
- `summarize`, `getBinWidth` and the `Histogram` class (its 50 bins of size 100, mean and standard deviation): output and floating point. A histogram is modelled as the list of values added to it.
- `getConfigurationTool`, `configureSettings`, the XML attribute written by `setUserHistoBinWidth`, `getNew`, `getIdentifier`, `getDescription` and `showOnScreenLog`: GUI, configuration and metadata.
- `getOffspringForSite` and `getBreakPoint`: commented out in the source.
- `DiscreteGenTree` is not part of this model. Tips are an input list; the root, which Sackin's collect reads but never uses, is not modelled. `getNodesToRoot` is taken to be the number of parent links to the root, as `distToRoot` counts them.
- `one.getLength()` and `setRecombinationPartner` are not defined in the modelled file. They are taken as the payload length of `one` and as the assignment of the interval and partner fields.
- Population.DrawSite: the redraw loop of `recombine`. A draw of 0 happens only for an empty payload, where every further draw but an exact 0.0 gives 0 again. The model returns `Diverges` and changes nothing, instead of looping.
- Population.DrawSite: `Math.random` and the double arithmetic of the site draw are modelled as exact reals.
- Statistics.HistoCount: the double division and `Math.ceil` are taken as exact. A zero width is taken as an array request too large to allocate (`OutOfMemory`).
- Statistics.Sweep: does not model the 32-bit wrap-around of `site += histoBinWidth`. Sites are unbounded integers, so a site past 2^31 - 1 ends the pass, where the code would wrap to a negative site and keep recording until it runs out of histograms.
- TreeShape.SackinsIndex.Collect: does not model the floating-point division `sum / tips.size()`. The value is kept as a numerator and denominator, so an empty tip list records 0 over 0 rather than NaN.
- `setUserHistoBinWidth(null)`: the boxed `Integer` parameter is modelled as an `int`, so the unboxing null pointer is not modelled.
- Partner symmetry is proved for each recombination (`RecombinationExchanges`) but is not an arena invariant. `clearReferences` nulls one side only, as the source does.
