/**
 Condition labels: numbering the conditions a model is trained on, with the
 target (held-out) conditions dropped, and encoding each cell's condition with such
 a numbering.

 A condition is a string. The numbering is a map from condition to code; a cell
 whose condition the map does not know gets the default code 0.
 */
module Conditions {
  import opened Lists

  /** The target conditions as a caller may pass them: a list, or one bare value
      that is wrapped into a one-element list. */
  datatype Targets = TargetList(items: seq<string>) | Single(item: string)

  /** The targets as a list: a bare value becomes the only element. */
  function AsList(t: Targets): (r: seq<string>)
    ensures forall c :: c in r <==> (if t.Single? then c == t.item else c in t.items)
  {
    match t
    case TargetList(items) => items
    case Single(item) => [item]
  }

  /** The conditions that are not targets, in input order, repeats kept. */
  function Kept(conditions: seq<string>, targets: seq<string>): (r: seq<string>)
    ensures |r| <= |conditions|
    ensures forall c :: c in r <==> c in conditions && c !in targets
  {
    if conditions == [] then []
    else
      var rest := Kept(conditions[1..], targets);
      assert conditions == [conditions[0]] + conditions[1..];
      if conditions[0] in targets then rest else [conditions[0]] + rest
  }

  /** Keeping drops the targets and nothing else: each condition occurs in the kept
      list as often as in the input, unless it is a target. */
  lemma {:induction false} KeptCount(conditions: seq<string>, targets: seq<string>)
    ensures forall c :: multiset(Kept(conditions, targets))[c]
                     == if c in targets then 0 else multiset(conditions)[c]
  {
    if conditions != [] {
      KeptCount(conditions[1..], targets);
      assert conditions == [conditions[0]] + conditions[1..];
    }
  }

  /** Keeping preserves the absence of repeats. */
  lemma KeptDistinct(conditions: seq<string>, targets: seq<string>)
    requires Distinct(conditions)
    ensures Distinct(Kept(conditions, targets))
  {
    KeptCount(conditions, targets);
    DistinctCounts(conditions);
    DistinctCounts(Kept(conditions, targets));
  }

  /** Numbers a list by position, writing `d[s[i]] := i` for i = 0, 1, ... in turn, so
      that a repeated element ends with the position of its last occurrence. */
  function Enumerate(s: seq<string>): (d: map<string, nat>)
    ensures d.Keys == set c | c in s
    ensures forall c :: c in d ==> d[c] < |s| && s[d[c]] == c
    ensures forall c, i :: c in d && d[c] < i < |s| ==> s[i] != c
  {
    if s == [] then map[]
    else
      var n := |s| - 1;
      assert s == s[..n] + [s[n]];
      Enumerate(s[..n])[s[n] := n]
  }

  /** The dictionary of the conditions to train on: the targets are dropped and each
      remaining condition is numbered by its position among the remaining ones; a
      condition kept more than once gets the position of its last occurrence. No
      target is ever a key, so a target condition encodes to the default code. */
  function CreateDictionary(conditions: seq<string>, targetConditions: Targets): (d: map<string, nat>)
    ensures forall c :: c in d <==> c in conditions && c !in AsList(targetConditions)
    ensures var kept := Kept(conditions, AsList(targetConditions));
            && (forall c :: c in d ==> d[c] < |kept| && kept[d[c]] == c)
            && (forall c, i :: c in d && d[c] < i < |kept| ==> kept[i] != c)
  {
    Enumerate(Kept(conditions, AsList(targetConditions)))
  }

  /** A repeated condition takes the code of its last occurrence, so with repeats the
      codes are not 0 .. k-1. */
  lemma CreateDictionaryRepeat()
    ensures CreateDictionary(["a", "b", "a"], TargetList([])) == map["a" := 2, "b" := 1]
  {
  }

  /** When no kept condition repeats (for instance, when no input condition repeats:
      see `KeptDistinct`), the codes are exactly 0 .. k-1, k the number of conditions
      kept, handed out in input order. */
  lemma CreateDictionaryDistinct(conditions: seq<string>, targetConditions: Targets)
    requires Distinct(Kept(conditions, AsList(targetConditions)))
    ensures var kept := Kept(conditions, AsList(targetConditions));
            var d := CreateDictionary(conditions, targetConditions);
            (forall i :: 0 <= i < |kept| ==> kept[i] in d && d[kept[i]] == i)
            && (forall v :: v in d.Values <==> 0 <= v < |kept|)
  {
    var kept := Kept(conditions, AsList(targetConditions));
    var d := CreateDictionary(conditions, targetConditions);
    forall i | 0 <= i < |kept| ensures kept[i] in d && d[kept[i]] == i {
      assert kept[i] in kept;
      var j := d[kept[i]];
      assert kept[j] == kept[i];
    }
    forall v | v in d.Values ensures 0 <= v < |kept| {
      var c :| c in d && d[c] == v;
    }
    forall i | 0 <= i < |kept| ensures i in d.Values {
      assert d[kept[i]] == i;
    }
  }

  /** The code of a condition under a mapping: its entry, or 0 when it has none. */
  function Code(mapping: map<string, int>, c: string): int {
    if c in mapping then mapping[c] else 0
  }

  /** `labels` with every row whose condition is `c` set to `v`. */
  function Assign(labels: seq<int>, obs: seq<string>, c: string, v: int): (r: seq<int>)
    requires |labels| == |obs|
    ensures |r| == |labels|
    ensures forall i :: 0 <= i < |r| ==> r[i] == if obs[i] == c then v else labels[i]
  {
    seq(|labels|, i requires 0 <= i < |labels| => if obs[i] == c then v else labels[i])
  }

  /** The mapping branch of the label encoder: starting from all zeros, for each
      (condition, code) entry of the mapping, every row of that condition gets the
      code. The mapping is handed back as the encoder. Entries are visited in an
      arbitrary order; as their conditions differ, the order does not matter. */
  method LabelEncoderDict(obs: seq<string>, mapping: map<string, int>)
    returns (labels: seq<int>, encoder: map<string, int>)
    ensures |labels| == |obs|
    ensures forall i :: 0 <= i < |obs| ==> labels[i] == Code(mapping, obs[i])
    ensures encoder == mapping
  {
    labels := seq(|obs|, i => 0);
    var pending := mapping.Keys;
    while pending != {}
      invariant |labels| == |obs|
      invariant pending <= mapping.Keys
      invariant forall i :: 0 <= i < |obs| ==>
                  labels[i] == if obs[i] in mapping && obs[i] !in pending then mapping[obs[i]] else 0
      decreases |pending|
    {
      var c :| c in pending;
      labels := Assign(labels, obs, c, mapping[c]);
      pending := pending - {c};
    }
    encoder := mapping;
  }
}
