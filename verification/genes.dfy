/**
 Gene records as the cross-batch highly-variable-gene selection sees them, once the
 external per-batch statistics routine has annotated every gene: its name, the number
 of batches in which it was flagged highly variable, and its normalised dispersion.

 The module provides the two primitives the selection is built from: an
 order-preserving filter of the gene table by agreement level, and a sort by
 dispersion, descending.
 */
module Genes {
  /** One row of the gene table. `nbatches` counts batches, so it is never negative;
      the dispersion is only ever compared, so any ordered type would do. */
  datatype Gene = Gene(name: string, nbatches: nat, dispersion: real)

  /** A condition on `nbatches` that selects part of the gene table. */
  datatype Band =
    | Exactly(level: int)   // nbatches == level: one agreement level
    | Above(level: int)     // nbatches > level: e.g. "variable in all batches"
    | AtMost(level: int)    // nbatches <= level: the levels still to be visited

  predicate InBand(g: Gene, b: Band) {
    match b
    case Exactly(l) => g.nbatches == l
    case Above(l) => g.nbatches > l
    case AtMost(l) => g.nbatches <= l
  }

  /** The genes of `genes` in band `b`, in table order (a boolean-mask lookup). */
  function Filter(genes: seq<Gene>, b: Band): (r: seq<Gene>)
    ensures |r| <= |genes|
  {
    if genes == [] then []
    else
      var rest := Filter(genes[1..], b);
      if InBand(genes[0], b) then [genes[0]] + rest else rest
  }

  /** Each gene occurs in a filtered table exactly as often as in the table if it is
      in the band, and not at all otherwise. */
  lemma {:induction false} FilterCount(genes: seq<Gene>, b: Band)
    ensures forall g :: multiset(Filter(genes, b))[g] == if InBand(g, b) then multiset(genes)[g] else 0
  {
    if genes != [] {
      FilterCount(genes[1..], b);
      assert genes == [genes[0]] + genes[1..];
    }
  }

  /** A gene of a filtered table is a gene of the table, in the band. */
  lemma FilterMembers(genes: seq<Gene>, b: Band)
    ensures forall g :: g in Filter(genes, b) ==> g in genes && InBand(g, b)
  {
    FilterCount(genes, b);
    forall g | g in Filter(genes, b) ensures g in genes && InBand(g, b) {
      assert g in multiset(Filter(genes, b));
    }
  }

  /** `s` is ordered by dispersion, highest first (ties in any order). */
  predicate NonIncreasing(s: seq<Gene>) {
    forall i, j :: 0 <= i < j < |s| ==> s[i].dispersion >= s[j].dispersion
  }

  /** Prepending a gene whose dispersion bounds every gene of a descending list keeps
      the list descending. */
  lemma ConsNonIncreasing(x: Gene, t: seq<Gene>)
    requires NonIncreasing(t)
    requires forall y :: y in t ==> x.dispersion >= y.dispersion
    ensures NonIncreasing([x] + t)
  {
    var r := [x] + t;
    forall i, j | 0 <= i < j < |r| ensures r[i].dispersion >= r[j].dispersion {
      if i == 0 {
        assert r[j] == t[j - 1];
      } else {
        assert r[i] == t[i - 1] && r[j] == t[j - 1];
      }
    }
  }

  /** Inserts `g` into a list ordered by descending dispersion, before the first gene
      whose dispersion it is at least. */
  function Insert(g: Gene, s: seq<Gene>): (r: seq<Gene>)
    ensures |r| == |s| + 1
  {
    if s == [] then [g]
    else if g.dispersion >= s[0].dispersion then [g] + s
    else [s[0]] + Insert(g, s[1..])
  }

  /** Insertion keeps a descending list descending and adds exactly the one gene. */
  lemma {:induction false} InsertSpec(g: Gene, s: seq<Gene>)
    requires NonIncreasing(s)
    ensures NonIncreasing(Insert(g, s))
    ensures multiset(Insert(g, s)) == multiset(s) + multiset{g}
  {
    if s == [] {
    } else if g.dispersion >= s[0].dispersion {
      ConsNonIncreasing(g, s);
    } else {
      assert NonIncreasing(s[1..]) by {
        forall i, j | 0 <= i < j < |s[1..]| ensures s[1..][i].dispersion >= s[1..][j].dispersion {
          assert s[1..][i] == s[i + 1] && s[1..][j] == s[j + 1];
        }
      }
      InsertSpec(g, s[1..]);
      InsertBelowHead(g, s, Insert(g, s[1..]));
    }
  }

  /** The step of `Insert` that keeps the head: the head bounds the gene inserted and
      every gene after it. */
  lemma InsertBelowHead(g: Gene, s: seq<Gene>, rest: seq<Gene>)
    requires NonIncreasing(s) && s != []
    requires g.dispersion < s[0].dispersion
    requires NonIncreasing(rest)
    requires multiset(rest) == multiset(s[1..]) + multiset{g}
    ensures NonIncreasing([s[0]] + rest)
    ensures multiset([s[0]] + rest) == multiset(s) + multiset{g}
  {
    assert s == [s[0]] + s[1..];
    forall y | y in rest ensures s[0].dispersion >= y.dispersion {
      assert y in multiset(rest);
      if y != g {
        assert y in multiset(s[1..]);
        var j :| 0 <= j < |s[1..]| && s[1..][j] == y;
        assert s[j + 1] == y;
      }
    }
    ConsNonIncreasing(s[0], rest);
  }

  /** Sort by dispersion, descending, by repeated insertion. */
  function SortDesc(s: seq<Gene>): (r: seq<Gene>)
    ensures |r| == |s|
  {
    if s == [] then [] else Insert(s[0], SortDesc(s[1..]))
  }

  /** `SortDesc` returns a permutation of its input in non-increasing dispersion
      order. Which of several equal-dispersion genes comes first is not part of the
      contract. */
  lemma {:induction false} SortDescSpec(s: seq<Gene>)
    ensures NonIncreasing(SortDesc(s))
    ensures multiset(SortDesc(s)) == multiset(s)
  {
    if s != [] {
      SortDescSpec(s[1..]);
      InsertSpec(s[0], SortDesc(s[1..]));
      assert s == [s[0]] + s[1..];
    }
  }

  /** Taking the first `k` of a descending list takes the `k` highest: every gene kept
      has a dispersion at least that of every gene left behind, and kept and left
      behind together are the whole list. */
  lemma {:induction false} TopKSplit(s: seq<Gene>, k: nat)
    requires NonIncreasing(s)
    requires k <= |s|
    ensures multiset(s[..k]) + multiset(s[k..]) == multiset(s)
    ensures forall g, h :: g in s[..k] && h in s[k..] ==> g.dispersion >= h.dispersion
  {
    assert s == s[..k] + s[k..];
    forall g, h | g in s[..k] && h in s[k..]
      ensures g.dispersion >= h.dispersion
    {
      var i :| 0 <= i < k && s[i] == g;
      var j :| k <= j < |s| && s[j] == h;
    }
  }

  /** The bands `Above(l)` and `AtMost(l)` partition the table. */
  lemma {:induction false} AboveAtMostPartition(genes: seq<Gene>, l: int)
    ensures multiset(Filter(genes, Above(l))) + multiset(Filter(genes, AtMost(l))) == multiset(genes)
  {
    FilterCount(genes, Above(l));
    FilterCount(genes, AtMost(l));
    var a, m := Filter(genes, Above(l)), Filter(genes, AtMost(l));
    forall g ensures (multiset(a) + multiset(m))[g] == multiset(genes)[g] {
      assert InBand(g, Above(l)) <==> !InBand(g, AtMost(l));
    }
  }

  /** Counting form of `AboveAtMostPartition`. */
  lemma AboveAtMostSizes(genes: seq<Gene>, l: int)
    ensures |Filter(genes, Above(l))| + |Filter(genes, AtMost(l))| == |genes|
  {
    AboveAtMostPartition(genes, l);
    assert |multiset(Filter(genes, Above(l))) + multiset(Filter(genes, AtMost(l)))| == |multiset(genes)|;
  }

  /** Lowering the `Above` threshold by one adds exactly the genes of that level. */
  lemma {:induction false} AboveStep(genes: seq<Gene>, l: int)
    ensures multiset(Filter(genes, Above(l - 1)))
         == multiset(Filter(genes, Above(l))) + multiset(Filter(genes, Exactly(l)))
  {
    FilterCount(genes, Above(l - 1));
    FilterCount(genes, Above(l));
    FilterCount(genes, Exactly(l));
    var a, a', e := Filter(genes, Above(l - 1)), Filter(genes, Above(l)), Filter(genes, Exactly(l));
    forall g ensures multiset(a)[g] == (multiset(a') + multiset(e))[g] {
      assert InBand(g, Above(l - 1)) <==> InBand(g, Above(l)) || InBand(g, Exactly(l));
    }
  }

  /** Raising the `AtMost` threshold by one adds exactly the genes of the new level. */
  lemma {:induction false} AtMostStep(genes: seq<Gene>, l: int)
    ensures multiset(Filter(genes, AtMost(l)))
         == multiset(Filter(genes, AtMost(l - 1))) + multiset(Filter(genes, Exactly(l)))
  {
    FilterCount(genes, AtMost(l));
    FilterCount(genes, AtMost(l - 1));
    FilterCount(genes, Exactly(l));
    var m, m', e := Filter(genes, AtMost(l)), Filter(genes, AtMost(l - 1)), Filter(genes, Exactly(l));
    forall g ensures multiset(m)[g] == (multiset(m') + multiset(e))[g] {
      assert InBand(g, AtMost(l)) <==> InBand(g, AtMost(l - 1)) || InBand(g, Exactly(l));
    }
  }

  /** Counting form of `AtMostStep`. */
  lemma AtMostSizes(genes: seq<Gene>, l: int)
    ensures |Filter(genes, AtMost(l))| == |Filter(genes, AtMost(l - 1))| + |Filter(genes, Exactly(l))|
  {
    AtMostStep(genes, l);
    assert |multiset(Filter(genes, AtMost(l)))|
        == |multiset(Filter(genes, AtMost(l - 1))) + multiset(Filter(genes, Exactly(l)))|;
  }

  /** Below agreement level 0 there are no genes: counts are never negative. */
  lemma NegativeLevelsEmpty(genes: seq<Gene>, l: int)
    ensures l < 0 ==> Filter(genes, Exactly(l)) == [] && Filter(genes, AtMost(l)) == []
  {
    FilterMembers(genes, Exactly(l));
    FilterMembers(genes, AtMost(l));
  }
}
