/**
 The train/validation split of a cell table. The random shuffle of the row indices
 is an input here: a permutation of 0 .. n-1, standing for whatever the random
 generator produced. The split cuts it after the first `int(n * trainFrac)` indices,
 with Python's truncation toward zero and its clamping of slice bounds.

 A row is identified by its index, so statements about index lists are statements
 about which rows go where.
 */
module Split {
  import opened Lists

  /** Python's `int` on a float: the fractional part is dropped, rounding toward zero
      (floor for non-negative values, ceiling for negative ones). */
  function TruncToInt(x: real): (r: int)
    ensures 0.0 <= x ==> r as real <= x < r as real + 1.0
    ensures x < 0.0 ==> x <= r as real < x + 1.0
  {
    if x >= 0.0 then x.Floor else -((-x).Floor)
  }

  /** Where Python's `a[:k]` cuts a list of length `n`: a negative `k` counts from
      the end, and a bound outside the list is clamped to it. */
  function SliceBound(k: int, n: nat): (r: nat)
    ensures r <= n
    ensures 0 <= k <= n ==> r == k
  {
    if k < 0 then (if n + k < 0 then 0 else n + k)
    else if k > n then n
    else k
  }

  /** The two parts of a split. */
  datatype Parts = Parts(train: seq<nat>, test: seq<nat>)

  /** Splits the shuffled indices: the first `int(n * trainFrac)` go to training and
      the rest to validation. For a fraction in [0, 1] the training part has
      floor(n * trainFrac) indices; for a fraction of 1 or more everything is
      training. */
  function TrainTestSplit(indices: seq<nat>, trainFrac: real): (r: Parts)
    ensures r.train + r.test == indices
    ensures 0.0 <= trainFrac <= 1.0 ==>
              |r.train| as real <= |indices| as real * trainFrac < |r.train| as real + 1.0
    ensures 1.0 <= trainFrac ==> r.test == []
  {
    var n := |indices|;
    var k := SliceBound(TruncToInt(n as real * trainFrac), n);
    assert indices == indices[..k] + indices[k..];
    Parts(indices[..k], indices[k..])
  }

  /** `p` is a shuffle of the row indices 0 .. |p|-1: each index once. */
  ghost predicate IsPermutation(p: seq<nat>) {
    (forall i :: 0 <= i < |p| ==> p[i] < |p|) && Distinct(p)
  }

  /** The indices 0 .. n-1, as a set of n elements. */
  function Below(n: nat): (r: set<nat>)
    ensures forall i :: i in r <==> 0 <= i < n
    ensures |r| == n
  {
    if n == 0 then {} else Below(n - 1) + {n - 1}
  }

  /** A subset as large as its superset is the superset. */
  lemma SubsetEqualCard<T>(a: set<T>, b: set<T>)
    requires a <= b && |a| == |b|
    ensures a == b
  {
    assert b == (b - a) + a;
    assert |b - a| == 0;
  }

  /** Pigeonhole: a list of n distinct indices below n contains every index below n. */
  lemma PermutationCovers(p: seq<nat>)
    requires IsPermutation(p)
    ensures forall i: nat :: i < |p| <==> i in p
  {
    var s := set x | x in p;
    var range := Below(|p|);
    DistinctCard(p);
    assert s <= range by {
      forall x | x in s ensures x in range {
        var j :| 0 <= j < |p| && p[j] == x;
      }
    }
    SubsetEqualCard(s, range);
    forall i: nat | i < |p| ensures i in p {
      assert i in range;
    }
  }

  /** Cutting a list without repeats leaves no element on both sides, and no repeats
      on either side. */
  lemma CutDisjoint(p: seq<nat>, k: nat)
    requires Distinct(p)
    requires k <= |p|
    ensures forall i :: i in p[..k] ==> i !in p[k..]
    ensures Distinct(p[..k]) && Distinct(p[k..])
  {
    var train, test := p[..k], p[k..];
    forall i | i in train ensures i !in test {
      var a :| 0 <= a < k && train[a] == i;
      forall b | 0 <= b < |test| ensures test[b] != i {
        assert test[b] == p[k + b];
      }
    }
    forall i, j | 0 <= i < j < |train| ensures train[i] != train[j] {
      assert train[i] == p[i] && train[j] == p[j];
    }
    forall i, j | 0 <= i < j < |test| ensures test[i] != test[j] {
      assert test[i] == p[k + i] && test[j] == p[k + j];
    }
  }

  /** Cutting a permutation of 0 .. n-1 anywhere puts every index below n on one side
      or the other, and nothing else. */
  lemma CutCovers(p: seq<nat>, k: nat)
    requires IsPermutation(p)
    requires k <= |p|
    ensures forall i: nat :: i < |p| <==> i in p[..k] || i in p[k..]
  {
    var train, test := p[..k], p[k..];
    PermutationCovers(p);
    forall i: nat | i < |p| ensures i in train || i in test {
      assert i in p;
      var j :| 0 <= j < |p| && p[j] == i;
      if j < k {
        assert train[j] == i;
      } else {
        assert test[j - k] == i;
      }
    }
    PrefixSub(p, k);
    forall i | i in test ensures i in p {
      var j :| 0 <= j < |test| && test[j] == i;
      assert p[k + j] == i;
    }
  }

  /** The split of a permutation of 0 .. n-1 puts every row in exactly one part: no
      index is in both, every index is in one, neither part repeats an index, and the
      part sizes add up to n. */
  lemma SplitPartition(p: seq<nat>, trainFrac: real)
    requires IsPermutation(p)
    ensures var r := TrainTestSplit(p, trainFrac);
            && (forall i :: i in r.train ==> i !in r.test)
            && (forall i: nat :: i < |p| <==> i in r.train || i in r.test)
            && Distinct(r.train) && Distinct(r.test)
            && |r.train| + |r.test| == |p|
  {
    var r := TrainTestSplit(p, trainFrac);
    var k := |r.train|;
    assert r.train == p[..k] && r.test == p[k..];
    CutDisjoint(p, k);
    CutCovers(p, k);
  }

  /** 100 rows at fraction 0.8 split 80 / 20. */
  lemma SplitEightyTwenty(p: seq<nat>)
    requires IsPermutation(p) && |p| == 100
    ensures |TrainTestSplit(p, 0.8).train| == 80
    ensures |TrainTestSplit(p, 0.8).test| == 20
  {
  }
}
