/** The least-used-colour tie-break of colorMenosUsado. */
module LeastUsed {
  import opened Palette
  import opened Graphs

  /** How many nodes hold colour c; an uncoloured node counts for no colour. */
  function Usage(ns: seq<Node>, c: int): nat {
    if ns == [] then 0
    else (if ns[0].colour != Uncoloured && ns[0].colour == c then 1 else 0) + Usage(ns[1..], c)
  }

  /** The declarative choice: `options[k]` has the smallest usage among the
      options, and no earlier option reaches that usage. */
  ghost predicate IsEarliestLeast(ns: seq<Node>, options: seq<int>, k: int) {
    && 0 <= k < |options|
    && (forall j :: 0 <= j < |options| ==> Usage(ns, options[k]) <= Usage(ns, options[j]))
    && (forall j :: 0 <= j < k ==> Usage(ns, options[k]) < Usage(ns, options[j]))
  }

  /** c is the option colorMenosUsado must pick. */
  ghost predicate IsLeastUsedOption(ns: seq<Node>, options: seq<int>, c: int) {
    exists k :: IsEarliestLeast(ns, options, k) && options[k] == c
  }

  /** The scan at lines 150-156 from position i on, with `best` the position of
      the current choice: a later option replaces it only when strictly less used. */
  function Scan(ns: seq<Node>, options: seq<int>, i: int, best: int): (k: int)
    requires 0 <= best < |options| && best <= i <= |options|
    requires forall j :: 0 <= j < i ==> Usage(ns, options[best]) <= Usage(ns, options[j])
    requires forall j :: 0 <= j < best ==> Usage(ns, options[best]) < Usage(ns, options[j])
    ensures IsEarliestLeast(ns, options, k)
    decreases |options| - i
  {
    if i == |options| then best
    else if Usage(ns, options[i]) < Usage(ns, options[best]) then Scan(ns, options, i + 1, i)
    else Scan(ns, options, i + 1, best)
  }

  /** colorMenosUsado: the first option of minimal usage, counted over every
      node of the graph. */
  function LeastUsedColour(ns: seq<Node>, options: seq<int>): (c: int)
    requires |options| > 0
    ensures c in options
    ensures IsLeastUsedOption(ns, options, c)
  {
    options[Scan(ns, options, 0, 0)]
  }

  /** Only one position is the earliest least-used one, so the choice is fully
      determined by the declarative description. */
  lemma EarliestLeastUnique(ns: seq<Node>, options: seq<int>, k1: int, k2: int)
    requires IsEarliestLeast(ns, options, k1) && IsEarliestLeast(ns, options, k2)
    ensures k1 == k2
  {
    assert Usage(ns, options[k1]) == Usage(ns, options[k2]);
  }

  /** Any option that is the earliest least-used one is what colorMenosUsado returns. */
  lemma LeastUsedColourCharacterised(ns: seq<Node>, options: seq<int>, k: int)
    requires IsEarliestLeast(ns, options, k)
    ensures LeastUsedColour(ns, options) == options[k]
  {
    EarliestLeastUnique(ns, options, k, Scan(ns, options, 0, 0));
  }
}
