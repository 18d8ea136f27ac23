/**
 Cross-batch highly-variable-gene selection (`hvg_batch` in surgeon/utils.py).

 The input is the gene table as annotated by the external per-batch statistics
 routine. Genes flagged in all `nBatches` batches come first, highest dispersion
 first; when there are not enough of them, the agreement level is lowered one
 batch at a time, whole levels are appended while they fall short of the deficit,
 and the first level that can cover the deficit is sorted and cut to exactly the
 missing count.

 `Hvg` is the reference definition (with `Fill` for the fallback loop);
 `HvgBatchSelect` is the loop itself, proved to compute it.
 */
module HvgBatch {
  import opened Genes
  import opened Lists

  /** The genes variable in every batch: `nbatches > nBatches - 1`. */
  function Intersect(genes: seq<Gene>, nBatches: nat): seq<Gene> {
    Filter(genes, Above(nBatches - 1))
  }

  /** What the fallback loop appends when it reaches agreement level `level` still
      missing `deficit` genes. A pool smaller than the deficit is taken whole, in
      table order, and the loop moves one level down; otherwise the pool is sorted
      and exactly `deficit` genes are taken. The genes still available at or below
      `level` must cover the deficit, or the loop would run on forever over empty
      pools at negative levels. */
  function Fill(genes: seq<Gene>, level: int, deficit: nat): (r: seq<Gene>)
    requires deficit <= |Filter(genes, AtMost(level))|
    ensures |r| == deficit
    decreases level + 1
  {
    var pool := Filter(genes, Exactly(level));
    NegativeLevelsEmpty(genes, level);
    AtMostSizes(genes, level);
    if |pool| < deficit then
      pool + Fill(genes, level - 1, deficit - |pool|)
    else
      SortDesc(pool)[..deficit]
  }

  /** The agreement level at which the fallback loop stops: the first level, going
      down from `level`, whose pool covers what is still missing once every level
      above it has been taken whole. */
  function StopLevel(genes: seq<Gene>, level: int, deficit: nat): (s: int)
    requires deficit <= |Filter(genes, AtMost(level))|
    ensures s <= level
    ensures s >= 0 || deficit == 0
    ensures |Filter(genes, AtMost(level))| - |Filter(genes, AtMost(s))| <= deficit
    ensures |Filter(genes, Exactly(s))| >= deficit - (|Filter(genes, AtMost(level))| - |Filter(genes, AtMost(s))|)
    decreases level + 1
  {
    var pool := Filter(genes, Exactly(level));
    NegativeLevelsEmpty(genes, level);
    AtMostSizes(genes, level);
    if |pool| < deficit then
      StopLevel(genes, level - 1, deficit - |pool|)
    else
      level
  }

  /** The stop level is the first one that can cover the deficit: every level above it,
      down from `level`, had a pool smaller than what was still missing on reaching it. */
  lemma {:induction false} StopLevelFirst(genes: seq<Gene>, level: int, deficit: nat)
    requires deficit <= |Filter(genes, AtMost(level))|
    ensures forall k :: StopLevel(genes, level, deficit) < k <= level ==>
              |Filter(genes, Exactly(k))| < deficit - (|Filter(genes, AtMost(level))| - |Filter(genes, AtMost(k))|)
    decreases level + 1
  {
    var pool := Filter(genes, Exactly(level));
    NegativeLevelsEmpty(genes, level);
    AtMostSizes(genes, level);
    if |pool| < deficit {
      var rest := deficit - |pool|;
      StopLevelFirst(genes, level - 1, rest);
      assert StopLevel(genes, level, deficit) == StopLevel(genes, level - 1, rest);
    }
  }

  /** The levels `level`, `level - 1`, ..., `lo`, each in table order, one after the other. */
  function Levels(genes: seq<Gene>, level: int, lo: int): seq<Gene>
    decreases level - lo + 1
  {
    if level < lo then [] else Filter(genes, Exactly(level)) + Levels(genes, level - 1, lo)
  }

  /** The selection `hvg_batch` returns, as gene records (the source returns their names). */
  function Hvg(genes: seq<Gene>, nBatches: nat, targetGenes: nat): (r: seq<Gene>)
    requires targetGenes <= |genes|
    ensures |r| == targetGenes
  {
    var intersect := SortDesc(Intersect(genes, nBatches));
    AboveAtMostSizes(genes, nBatches - 1);
    if |intersect| > targetGenes then
      intersect[..targetGenes]
    else
      intersect + Fill(genes, nBatches - 1, targetGenes - |intersect|)
  }

  /** The agreement level every selected gene reaches: `nBatches` when the full
      intersection alone is large enough, else the level where the fallback stopped. */
  function HvgStopLevel(genes: seq<Gene>, nBatches: nat, targetGenes: nat): int
    requires targetGenes <= |genes|
  {
    var n := |Intersect(genes, nBatches)|;
    AboveAtMostSizes(genes, nBatches - 1);
    if n > targetGenes then nBatches else StopLevel(genes, nBatches - 1, targetGenes - n)
  }

  /** When the full intersection is not larger than the target, the selection is the
      sorted intersection followed by what the fallback loop appends. */
  lemma HvgFallback(genes: seq<Gene>, nBatches: nat, targetGenes: nat)
    requires targetGenes <= |genes|
    requires |Intersect(genes, nBatches)| <= targetGenes
    ensures targetGenes - |Intersect(genes, nBatches)| <= |Filter(genes, AtMost(nBatches - 1))|
    ensures Hvg(genes, nBatches, targetGenes)
         == SortDesc(Intersect(genes, nBatches)) + Fill(genes, nBatches - 1, targetGenes - |Intersect(genes, nBatches)|)
  {
    AboveAtMostSizes(genes, nBatches - 1);
  }

  /** The fallback loop's state: `hvg` collected so far, the loop now at `level`, and
      what is still missing is enough to be filled from `level` down, completing the
      selection `total`. */
  ghost predicate Completes(genes: seq<Gene>, level: int, hvg: seq<Gene>, targetGenes: nat, total: seq<Gene>) {
    && |hvg| <= targetGenes
    && targetGenes - |hvg| <= |Filter(genes, AtMost(level))|
    && hvg + Fill(genes, level, targetGenes - |hvg|) == total
  }

  /** One pass of the fallback loop keeps `Completes`: a short pool is taken whole (and
      the loop only gets there at a level that is not negative); otherwise the sorted
      pool is cut and the selection is complete. */
  lemma FillStep(genes: seq<Gene>, level: int, hvg: seq<Gene>, targetGenes: nat, total: seq<Gene>)
    requires Completes(genes, level, hvg, targetGenes, total)
    ensures var pool := Filter(genes, Exactly(level));
      if |pool| < targetGenes - |hvg| then
        level >= 0 && Completes(genes, level - 1, hvg + pool, targetGenes, total)
      else
        && targetGenes - |hvg| <= |SortDesc(pool)|
        && hvg + SortDesc(pool)[..targetGenes - |hvg|] == total
  {
    NegativeLevelsEmpty(genes, level);
    AtMostSizes(genes, level);
    var pool := Filter(genes, Exactly(level));
    if |pool| < targetGenes - |hvg| {
      assert hvg + Fill(genes, level, targetGenes - |hvg|)
          == (hvg + pool) + Fill(genes, level - 1, targetGenes - |hvg + pool|);
    }
  }

  /** The selection loop of `hvg_batch`. The source counts `not_n_batches` up from 1
      and looks at agreement level `n_batches - not_n_batches`; `level` is that
      difference, counted down from `nBatches - 1`. */
  method HvgBatchSelect(genes: seq<Gene>, nBatches: nat, targetGenes: nat) returns (hvg: seq<Gene>)
    requires targetGenes <= |genes|
    ensures hvg == Hvg(genes, nBatches, targetGenes)
    ensures |hvg| == targetGenes
    ensures multiset(hvg) <= multiset(genes)
  {
    var intersect := SortDesc(Intersect(genes, nBatches));
    if |intersect| > targetGenes {
      hvg := intersect[..targetGenes];
    } else {
      AboveAtMostSizes(genes, nBatches - 1);
      ghost var tail := Fill(genes, nBatches - 1, targetGenes - |intersect|);
      var enough := false;
      hvg := intersect;
      var level := nBatches - 1;
      while !enough
        invariant !enough ==> Completes(genes, level, hvg, targetGenes, intersect + tail)
        invariant enough ==> hvg == intersect + tail
        decreases !enough, level + 1
      {
        var targetGenesDiff := targetGenes - |hvg|;
        var tmp := Filter(genes, Exactly(level));
        FillStep(genes, level, hvg, targetGenes, intersect + tail);
        if |tmp| < targetGenesDiff {
          hvg := hvg + tmp;
          level := level - 1;
        } else {
          hvg := hvg + SortDesc(tmp)[..targetGenesDiff];
          enough := true;
        }
      }
      HvgFallback(genes, nBatches, targetGenes);
    }
    HvgSubMultiset(genes, nBatches, targetGenes);
  }

  /** What the fallback loop appends never holds a gene more often than the table
      holds it at or below the starting level. */
  lemma {:induction false} FillSubMultiset(genes: seq<Gene>, level: int, deficit: nat)
    requires deficit <= |Filter(genes, AtMost(level))|
    ensures multiset(Fill(genes, level, deficit)) <= multiset(Filter(genes, AtMost(level)))
    decreases level + 1
  {
    var pool := Filter(genes, Exactly(level));
    NegativeLevelsEmpty(genes, level);
    AtMostSizes(genes, level);
    AtMostStep(genes, level);
    if |pool| < deficit {
      FillSubMultiset(genes, level - 1, deficit - |pool|);
    } else {
      SortDescSpec(pool);
      PrefixSub(SortDesc(pool), deficit);
    }
  }

  /** Every gene the fallback loop appends lies between the stop level and the
      starting level. */
  lemma {:induction false} FillLevelRange(genes: seq<Gene>, level: int, deficit: nat)
    requires deficit <= |Filter(genes, AtMost(level))|
    ensures forall g :: g in Fill(genes, level, deficit) ==>
              StopLevel(genes, level, deficit) <= g.nbatches <= level
    decreases level + 1
  {
    var pool := Filter(genes, Exactly(level));
    NegativeLevelsEmpty(genes, level);
    AtMostSizes(genes, level);
    FilterMembers(genes, Exactly(level));
    var stop := StopLevel(genes, level, deficit);
    if |pool| < deficit {
      var rest := deficit - |pool|;
      FillLevelRange(genes, level - 1, rest);
      assert stop == StopLevel(genes, level - 1, rest);
      assert Fill(genes, level, deficit) == pool + Fill(genes, level - 1, rest);
    } else {
      var sorted := SortDesc(pool);
      SortDescSpec(pool);
      PrefixSub(sorted, deficit);
      assert stop == level;
      assert Fill(genes, level, deficit) == sorted[..deficit];
      forall g | g in sorted ensures g in pool {
        assert g in multiset(sorted);
      }
    }
  }

  /** The length of the whole levels `level` down to `lo`: the genes at or below `level`
      less those below `lo`. */
  lemma {:induction false} LevelsSize(genes: seq<Gene>, level: int, lo: int)
    requires lo <= level + 1
    ensures |Levels(genes, level, lo)| == |Filter(genes, AtMost(level))| - |Filter(genes, AtMost(lo - 1))|
    decreases level - lo + 1
  {
    if lo <= level {
      AtMostSizes(genes, level);
      LevelsSize(genes, level - 1, lo);
    }
  }

  /** The fallback order: from `level` down to just above the stop level every pool is
      appended whole, in table order; the stop level's pool is sorted by dispersion,
      descending, and cut to exactly the genes still missing. */
  lemma {:induction false} FillOrder(genes: seq<Gene>, level: int, deficit: nat)
    requires deficit <= |Filter(genes, AtMost(level))|
    ensures var s := StopLevel(genes, level, deficit);
      var whole := Levels(genes, level, s + 1);
      && |whole| <= deficit
      && deficit - |whole| <= |Filter(genes, Exactly(s))|
      && Fill(genes, level, deficit) == whole + SortDesc(Filter(genes, Exactly(s)))[..deficit - |whole|]
    decreases level + 1
  {
    var pool := Filter(genes, Exactly(level));
    NegativeLevelsEmpty(genes, level);
    AtMostSizes(genes, level);
    if |pool| < deficit {
      FillOrder(genes, level - 1, deficit - |pool|);
      FillOrderStep(genes, level, deficit);
    } else {
      assert Levels(genes, level, level + 1) == [];
    }
  }

  /** The inductive step of `FillOrder`: prepending a short pool to the order from the
      next level down gives the order from this level. */
  lemma FillOrderStep(genes: seq<Gene>, level: int, deficit: nat)
    requires deficit <= |Filter(genes, AtMost(level))|
    requires |Filter(genes, Exactly(level))| < deficit
    requires level >= 0
    requires deficit - |Filter(genes, Exactly(level))| <= |Filter(genes, AtMost(level - 1))|
    requires var rest := deficit - |Filter(genes, Exactly(level))|;
      var s := StopLevel(genes, level - 1, rest);
      var whole := Levels(genes, level - 1, s + 1);
      && |whole| <= rest
      && rest - |whole| <= |Filter(genes, Exactly(s))|
      && Fill(genes, level - 1, rest) == whole + SortDesc(Filter(genes, Exactly(s)))[..rest - |whole|]
    ensures var s := StopLevel(genes, level, deficit);
      var whole := Levels(genes, level, s + 1);
      && |whole| <= deficit
      && deficit - |whole| <= |Filter(genes, Exactly(s))|
      && Fill(genes, level, deficit) == whole + SortDesc(Filter(genes, Exactly(s)))[..deficit - |whole|]
  {
    var pool := Filter(genes, Exactly(level));
    var rest := deficit - |pool|;
    var s := StopLevel(genes, level - 1, rest);
    var whole' := Levels(genes, level - 1, s + 1);
    var last := SortDesc(Filter(genes, Exactly(s)));
    assert StopLevel(genes, level, deficit) == s;
    assert Fill(genes, level, deficit) == pool + Fill(genes, level - 1, rest);
    assert Levels(genes, level, s + 1) == pool + whole';
    assert |pool + whole'| == |pool| + |whole'|;
    assert deficit - |pool + whole'| == rest - |whole'|;
    var cut := last[..rest - |whole'|];
    AppendAssoc(pool, whole', cut);
  }

  /** The selection never holds a gene more often than the table does: levels are
      disjoint, so no gene is taken twice. */
  lemma HvgSubMultiset(genes: seq<Gene>, nBatches: nat, targetGenes: nat)
    requires targetGenes <= |genes|
    ensures multiset(Hvg(genes, nBatches, targetGenes)) <= multiset(genes)
  {
    var intersect := SortDesc(Intersect(genes, nBatches));
    AboveAtMostPartition(genes, nBatches - 1);
    AboveAtMostSizes(genes, nBatches - 1);
    SortDescSpec(Intersect(genes, nBatches));
    if |intersect| > targetGenes {
      PrefixSub(intersect, targetGenes);
    } else {
      FillSubMultiset(genes, nBatches - 1, targetGenes - |intersect|);
    }
  }

  /** On a table without repeated genes, the selection has no repeated gene. */
  lemma HvgDistinct(genes: seq<Gene>, nBatches: nat, targetGenes: nat)
    requires targetGenes <= |genes|
    requires Distinct(genes)
    ensures Distinct(Hvg(genes, nBatches, targetGenes))
  {
    HvgSubMultiset(genes, nBatches, targetGenes);
    DistinctCounts(genes);
    DistinctCounts(Hvg(genes, nBatches, targetGenes));
  }

  /** With more than `targetGenes` genes variable in every batch, the selection is
      made of those genes only, in non-increasing dispersion order, and it is their
      top `targetGenes`: a gene of the intersection left out has a dispersion no higher
      than any gene taken. */
  lemma HvgLargeIntersect(genes: seq<Gene>, nBatches: nat, targetGenes: nat)
    requires targetGenes <= |genes|
    requires |Intersect(genes, nBatches)| > targetGenes
    ensures var r := Hvg(genes, nBatches, targetGenes);
      && NonIncreasing(r)
      && multiset(r) <= multiset(Intersect(genes, nBatches))
      && (forall g :: g in r ==> g.nbatches >= nBatches)
      && (forall g, h :: g in r && h in genes && h.nbatches >= nBatches && multiset(r)[h] < multiset(genes)[h]
            ==> g.dispersion >= h.dispersion)
  {
    var r := Hvg(genes, nBatches, targetGenes);
    var sorted := SortDesc(Intersect(genes, nBatches));
    SortDescSpec(Intersect(genes, nBatches));
    TopKSplit(sorted, targetGenes);
    FilterCount(genes, Above(nBatches - 1));
    assert r == sorted[..targetGenes];
    forall i, j | 0 <= i < j < |r| ensures r[i].dispersion >= r[j].dispersion {
      assert r[i] == sorted[i] && r[j] == sorted[j];
    }
    forall g | g in r ensures g.nbatches >= nBatches {
      assert g in multiset(Intersect(genes, nBatches));
      var i :| 0 <= i < |Intersect(genes, nBatches)| && Intersect(genes, nBatches)[i] == g;
    }
    forall g, h | g in r && h in genes && h.nbatches >= nBatches && multiset(r)[h] < multiset(genes)[h]
      ensures g.dispersion >= h.dispersion
    {
      assert InBand(h, Above(nBatches - 1));
      assert multiset(sorted)[h] == multiset(genes)[h];
      assert h in sorted[targetGenes..];
    }
  }

  /** When the intersection is not larger than the target, the selection starts with
      every gene of the intersection, sorted by dispersion, then visits the levels
      `nBatches - 1`, `nBatches - 2`, ... appending whole pools in table order, and
      ends with the sorted, cut pool of the level where it stopped. */
  lemma HvgFallbackOrder(genes: seq<Gene>, nBatches: nat, targetGenes: nat)
    requires targetGenes <= |genes|
    requires |Intersect(genes, nBatches)| <= targetGenes
    ensures var r := Hvg(genes, nBatches, targetGenes);
      var intersect := Intersect(genes, nBatches);
      var s := HvgStopLevel(genes, nBatches, targetGenes);
      var whole := Levels(genes, nBatches - 1, s + 1);
      && s <= nBatches - 1
      && |whole| == |Filter(genes, AtMost(nBatches - 1))| - |Filter(genes, AtMost(s))|
      && |intersect| + |whole| <= targetGenes <= |intersect| + |whole| + |Filter(genes, Exactly(s))|
      && r == SortDesc(intersect) + whole
                + SortDesc(Filter(genes, Exactly(s)))[..targetGenes - |intersect| - |whole|]
  {
    var d := targetGenes - |Intersect(genes, nBatches)|;
    HvgFallback(genes, nBatches, targetGenes);
    FillOrder(genes, nBatches - 1, d);
    var s := StopLevel(genes, nBatches - 1, d);
    assert HvgStopLevel(genes, nBatches, targetGenes) == s;
    LevelsSize(genes, nBatches - 1, s + 1);
  }

  /** Every selected gene is variable in at least as many batches as the level at
      which selection stopped. */
  lemma HvgAboveStop(genes: seq<Gene>, nBatches: nat, targetGenes: nat)
    requires targetGenes <= |genes|
    ensures forall g :: g in Hvg(genes, nBatches, targetGenes) ==>
              g.nbatches >= HvgStopLevel(genes, nBatches, targetGenes)
  {
    var intersect := Intersect(genes, nBatches);
    if |intersect| > targetGenes {
      HvgLargeIntersect(genes, nBatches, targetGenes);
    } else {
      HvgFallback(genes, nBatches, targetGenes);
      var d := targetGenes - |intersect|;
      FillLevelRange(genes, nBatches - 1, d);
      var s := StopLevel(genes, nBatches - 1, d);
      assert HvgStopLevel(genes, nBatches, targetGenes) == s;
      SortDescSpec(intersect);
      FilterMembers(genes, Above(nBatches - 1));
      forall g | g in SortDesc(intersect) ensures g in intersect {
        assert g in multiset(SortDesc(intersect));
      }
    }
  }

  /** When the levels `floor` .. `level` together hold at least the deficit, the loop
      stops at or above `floor` (unless nothing is missing at all). */
  lemma {:induction false} StopLevelFloor(genes: seq<Gene>, level: int, deficit: nat, floor: int)
    requires deficit <= |Filter(genes, AtMost(level))|
    requires floor <= level + 1
    requires deficit <= |Filter(genes, AtMost(level))| - |Filter(genes, AtMost(floor - 1))|
    ensures deficit > 0 ==> StopLevel(genes, level, deficit) >= floor
    decreases level + 1
  {
    var pool := Filter(genes, Exactly(level));
    NegativeLevelsEmpty(genes, level);
    AtMostSizes(genes, level);
    if |pool| < deficit {
      var rest := deficit - |pool|;
      StopLevelFloor(genes, level - 1, rest, floor);
      assert StopLevel(genes, level, deficit) == StopLevel(genes, level - 1, rest);
    }
  }

  /** What the fallback loop appends is flagged in at least one batch when the levels
      1 .. `level` hold the whole deficit. */
  lemma FillFlagged(genes: seq<Gene>, level: int, deficit: nat)
    requires 0 <= level
    requires deficit <= |Filter(genes, AtMost(level))| - |Filter(genes, AtMost(0))|
    ensures forall g :: g in Fill(genes, level, deficit) ==> g.nbatches >= 1
  {
    FillLevelRange(genes, level, deficit);
    StopLevelFloor(genes, level, deficit, 1);
  }

  /** The fallback case of `HvgFlaggedSomewhere`: the sorted intersection and what the
      loop appends are all flagged in at least one batch. */
  lemma HvgFallbackFlagged(genes: seq<Gene>, nBatches: nat, targetGenes: nat)
    requires targetGenes <= |genes|
    requires 1 <= nBatches
    requires |Intersect(genes, nBatches)| <= targetGenes <= |Filter(genes, Above(0))|
    ensures forall g :: g in Hvg(genes, nBatches, targetGenes) ==> g.nbatches >= 1
  {
    var intersect := Intersect(genes, nBatches);
    var d := targetGenes - |intersect|;
    HvgFallback(genes, nBatches, targetGenes);
    AboveAtMostSizes(genes, nBatches - 1);
    AboveAtMostSizes(genes, 0);
    var head, tail := SortDesc(intersect), Fill(genes, nBatches - 1, d);
    FillFlagged(genes, nBatches - 1, d);
    SortDescSpec(intersect);
    FilterMembers(genes, Above(nBatches - 1));
    forall g | g in head ensures g.nbatches >= 1 {
      assert g in multiset(head);
      assert g in intersect;
      assert InBand(g, Above(nBatches - 1));
    }
    assert Hvg(genes, nBatches, targetGenes) == head + tail;
  }

  /** The selection reaches down only as far as genes flagged in a single batch
      whenever the genes flagged in at least one batch are enough to fill it: then no
      selected gene is one that no batch flagged. */
  lemma HvgFlaggedSomewhere(genes: seq<Gene>, nBatches: nat, targetGenes: nat)
    requires targetGenes <= |genes|
    ensures 1 <= nBatches && targetGenes <= |Filter(genes, Above(0))| ==>
              forall g :: g in Hvg(genes, nBatches, targetGenes) ==> g.nbatches >= 1
  {
    if 1 <= nBatches && targetGenes <= |Filter(genes, Above(0))| {
      if |Intersect(genes, nBatches)| > targetGenes {
        HvgLargeIntersect(genes, nBatches, targetGenes);
      } else {
        HvgFallbackFlagged(genes, nBatches, targetGenes);
      }
    }
  }

  /** The loop goes on past genes flagged in a single batch: a table whose only gene
      no batch flagged still yields that gene. */
  lemma HvgTakesUnflagged()
    ensures Hvg([Gene("a", 0, 1.0)], 1, 1) == [Gene("a", 0, 1.0)]
  {
  }

  /** The other direction of `HvgFlaggedSomewhere`: when fewer genes than the target
      are flagged in any batch, the selection must take a gene no batch flagged. */
  lemma HvgReachesUnflagged(genes: seq<Gene>, nBatches: nat, targetGenes: nat)
    requires targetGenes <= |genes|
    ensures |Filter(genes, Above(0))| < targetGenes ==>
              exists g :: g in Hvg(genes, nBatches, targetGenes) && g.nbatches == 0
  {
    var r := Hvg(genes, nBatches, targetGenes);
    var flagged := Filter(genes, Above(0));
    if |flagged| < targetGenes {
      HvgSubMultiset(genes, nBatches, targetGenes);
      FilterCount(genes, Above(0));
      var b := multiset(flagged);
      var c := multiset(r) - b;
      assert multiset(r) <= b + c;
      assert |multiset(r)| <= |b| + |c|;
      var g :| g in c;
      assert multiset(r)[g] > b[g];
      assert b[g] == if InBand(g, Above(0)) then multiset(genes)[g] else 0;
    }
  }

  /** The two-level case as a concatenation: the sorted intersection followed by the
      cut, sorted pool of the genes variable in all but one batch. */
  lemma HvgTwoLevelsShape(genes: seq<Gene>, nBatches: nat, targetGenes: nat)
    requires targetGenes <= |genes|
    requires |Intersect(genes, nBatches)| <= targetGenes
    requires targetGenes - |Intersect(genes, nBatches)| <= |Filter(genes, Exactly(nBatches - 1))|
    ensures Hvg(genes, nBatches, targetGenes)
         == SortDesc(Intersect(genes, nBatches))
              + SortDesc(Filter(genes, Exactly(nBatches - 1)))[..targetGenes - |Intersect(genes, nBatches)|]
  {
    HvgFallback(genes, nBatches, targetGenes);
  }

  /** The two-level case: with the intersection short of the target and the genes
      variable in all but one batch enough to cover the rest, the selection is all of
      the intersection, highest dispersion first, followed by the top `d` of that next
      level (d the genes still missing), highest first: no gene of that level left out
      disperses more than a gene taken. */
  lemma HvgTwoLevels(genes: seq<Gene>, nBatches: nat, targetGenes: nat)
    requires targetGenes <= |genes|
    requires |Intersect(genes, nBatches)| <= targetGenes
    requires targetGenes - |Intersect(genes, nBatches)| <= |Filter(genes, Exactly(nBatches - 1))|
    ensures var r := Hvg(genes, nBatches, targetGenes);
      var n := |Intersect(genes, nBatches)|;
      var pool := Filter(genes, Exactly(nBatches - 1));
      && NonIncreasing(r[..n])
      && multiset(r[..n]) == multiset(Intersect(genes, nBatches))
      && |r[n..]| == targetGenes - n
      && NonIncreasing(r[n..])
      && multiset(r[n..]) <= multiset(pool)
      && (forall g, h :: g in r[n..] && h in pool && multiset(r[n..])[h] < multiset(pool)[h]
            ==> g.dispersion >= h.dispersion)
  {
    var r := Hvg(genes, nBatches, targetGenes);
    var n := |Intersect(genes, nBatches)|;
    var d := targetGenes - n;
    var pool := Filter(genes, Exactly(nBatches - 1));
    var sorted := SortDesc(pool);
    var top := sorted[..d];
    HvgTwoLevelsShape(genes, nBatches, targetGenes);
    SortDescSpec(Intersect(genes, nBatches));
    SortDescSpec(pool);
    TopKSplit(sorted, d);
    assert r[..n] == SortDesc(Intersect(genes, nBatches));
    assert r[n..] == top;
    forall i, j | 0 <= i < j < |top| ensures top[i].dispersion >= top[j].dispersion {
      assert top[i] == sorted[i] && top[j] == sorted[j];
    }
    forall g, h | g in top && h in pool && multiset(top)[h] < multiset(pool)[h]
      ensures g.dispersion >= h.dispersion
    {
      assert h in sorted[d..];
    }
  }

  /** Why the loop needs at least `targetGenes` genes: on a smaller table, at every
      level, the genes above it together with its own pool still fall short, so no
      pool ever covers the deficit and the loop runs on through empty negative levels. */
  lemma ShortTableNeverEnough(genes: seq<Gene>, targetGenes: nat, level: int)
    requires |genes| < targetGenes
    ensures |Filter(genes, Exactly(level))| < targetGenes - |Filter(genes, Above(level))|
  {
    AboveStep(genes, level);
    assert |multiset(Filter(genes, Above(level - 1)))|
        == |multiset(Filter(genes, Above(level))) + multiset(Filter(genes, Exactly(level)))|;
  }

  /** The gene-subset step of `normalize`: selection runs only when a positive
      `nTopGenes` is smaller than the number of genes, which is exactly what the
      selection needs to terminate, and the subset kept is the cross-batch selection;
      otherwise the table is kept as it is, in its order. */
  function NormalizeGenes(genes: seq<Gene>, nBatches: nat, nTopGenes: int): (r: seq<Gene>)
    ensures |r| == if 0 < nTopGenes < |genes| then nTopGenes else |genes|
    ensures multiset(r) <= multiset(genes)
    ensures 0 < nTopGenes < |genes| ==> r == Hvg(genes, nBatches, nTopGenes)
    ensures !(0 < nTopGenes < |genes|) ==> r == genes
  {
    if nTopGenes > 0 && |genes| > nTopGenes then
      HvgSubMultiset(genes, nBatches, nTopGenes);
      Hvg(genes, nBatches, nTopGenes)
    else
      genes
  }
}
