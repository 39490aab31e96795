/** The availability query: which palette colours no neighbour of a node holds. */
module Availability {
  import opened Palette
  import opened Graphs

  /** Some neighbour of n holds colour c. */
  ghost predicate NeighbourHolds(ns: seq<Node>, n: int, c: int)
    requires 0 <= n < |ns|
  {
    exists v :: v in ns[n].neighbours && 0 <= v < |ns| && ns[v].colour == c
  }

  /** Every identity in `vs` names a node of `ns`. */
  predicate AllIn(ns: seq<Node>, vs: seq<int>) {
    forall v :: v in vs ==> 0 <= v < |ns|
  }

  /** The scan of esColorValido over the list `vs`: false as soon as one
      listed node holds c, true when the list is exhausted. */
  function NoneHolds(ns: seq<Node>, vs: seq<int>, c: int): (r: bool)
    requires AllIn(ns, vs)
    ensures r <==> forall v :: v in vs ==> ns[v].colour != c
  {
    if vs == [] then true
    else
      assert vs[0] in vs;
      if ns[vs[0]].colour == c then false
      else
        assert forall v :: v in vs[1..] ==> v in vs;
        NoneHolds(ns, vs[1..], c)
  }

  /** esColorValido: colour c is free at node n. */
  function IsColourValid(ns: seq<Node>, n: int, c: int): (r: bool)
    requires WellLinked(ns) && 0 <= n < |ns|
    ensures r <==> !NeighbourHolds(ns, n, c)
  {
    assert forall v :: v in ns[n].neighbours ==> v in Links(ns)[n];
    NoneHolds(ns, ns[n].neighbours, c)
  }

  predicate StrictlyIncreasing(s: seq<int>) {
    forall i, j :: 0 <= i < j < |s| ==> s[i] < s[j]
  }

  /** The loop of coloresDisponibles from colour c onwards. */
  function AvailableFrom(ns: seq<Node>, n: int, c: int): (r: seq<int>)
    requires WellLinked(ns) && 0 <= n < |ns| && 0 <= c <= MaxColors
    ensures forall d :: d in r <==> c <= d < MaxColors && !NeighbourHolds(ns, n, d)
    ensures forall k :: 0 <= k < |r| ==> c <= r[k]
    ensures StrictlyIncreasing(r)
    ensures |r| <= MaxColors - c
    decreases MaxColors - c
  {
    if c == MaxColors then []
    else if IsColourValid(ns, n, c) then [c] + AvailableFrom(ns, n, c + 1)
    else AvailableFrom(ns, n, c + 1)
  }

  /** coloresDisponibles: the palette colours no neighbour of n holds, in
      palette order, each once. */
  function AvailableColors(ns: seq<Node>, n: int): (r: seq<int>)
    requires WellLinked(ns) && 0 <= n < |ns|
    ensures forall d :: d in r <==> IsColour(d) && !NeighbourHolds(ns, n, d)
    ensures StrictlyIncreasing(r)
    ensures |r| <= MaxColors
  {
    AvailableFrom(ns, n, 0)
  }

  /** A strictly increasing list is determined by its elements. */
  lemma {:induction false} IncreasingByElements(a: seq<int>, b: seq<int>)
    requires StrictlyIncreasing(a) && StrictlyIncreasing(b)
    requires forall x :: x in a <==> x in b
    ensures a == b
    decreases |a|
  {
    forall k | 0 <= k < |a|
      ensures a[k] in b
    {
      assert a[k] in a;
    }
    forall k | 0 <= k < |b|
      ensures b[k] in a
    {
      assert b[k] in b;
    }
    assert a != [] ==> a[0] in b;
    assert b != [] ==> b[0] in a;
    if a != [] && b != [] {
      assert a[0] == b[0];
      forall x
        ensures x in a[1..] <==> x in b[1..]
      {
        if x in a[1..] {
          assert x in b && x != b[0];
        }
        if x in b[1..] {
          assert x in a && x != a[0];
        }
      }
      IncreasingByElements(a[1..], b[1..]);
    }
  }

  /** The availability list is the only strictly increasing list of the free
      palette colours. */
  lemma AvailableColorsUnique(ns: seq<Node>, n: int, s: seq<int>)
    requires WellLinked(ns) && 0 <= n < |ns|
    requires StrictlyIncreasing(s)
    requires forall d :: d in s <==> IsColour(d) && !NeighbourHolds(ns, n, d)
    ensures s == AvailableColors(ns, n)
  {
    IncreasingByElements(s, AvailableColors(ns, n));
  }

  /** The query reads only n's neighbour list and its neighbours' colours: two
      states that agree on those (for instance the same state queried twice)
      give the same list. */
  lemma AvailableColorsLocal(ns: seq<Node>, ms: seq<Node>, n: int)
    requires WellLinked(ns) && WellLinked(ms) && 0 <= n < |ns| && 0 <= n < |ms|
    requires ns[n].neighbours == ms[n].neighbours
    requires forall v :: v in ns[n].neighbours && 0 <= v < |ns| && 0 <= v < |ms| ==> ns[v].colour == ms[v].colour
    ensures AvailableColors(ns, n) == AvailableColors(ms, n)
  {
    forall d
      ensures NeighbourHolds(ns, n, d) <==> NeighbourHolds(ms, n, d)
    {
      if NeighbourHolds(ns, n, d) {
        var v :| v in ns[n].neighbours && 0 <= v < |ns| && ns[v].colour == d;
        NeighbourIsNode(ms, n, v);
        assert v in ms[n].neighbours && ms[v].colour == d;
      }
      if NeighbourHolds(ms, n, d) {
        var v :| v in ms[n].neighbours && 0 <= v < |ms| && ms[v].colour == d;
        NeighbourIsNode(ns, n, v);
        assert v in ns[n].neighbours && ns[v].colour == d;
      }
    }
    AvailableColorsUnique(ms, n, AvailableColors(ns, n));
  }

  /** Availability only shrinks when neighbours are added and colours are only
      ever set, never changed: every colour free in the later state was free
      in the earlier one. */
  lemma AvailabilityShrinks(ns: seq<Node>, ms: seq<Node>, n: int)
    requires WellLinked(ns) && WellLinked(ms) && 0 <= n < |ns| && 0 <= n < |ms|
    requires forall v :: v in ns[n].neighbours ==> v in ms[n].neighbours
    requires forall v :: v in ns[n].neighbours && 0 <= v < |ns| && 0 <= v < |ms| && ns[v].colour != Uncoloured ==>
      ms[v].colour == ns[v].colour
    ensures forall d :: d in AvailableColors(ms, n) ==> d in AvailableColors(ns, n)
    ensures AvailableColors(ms, n) != [] ==> AvailableColors(ns, n) != []
  {
    forall d | IsColour(d) && NeighbourHolds(ns, n, d)
      ensures NeighbourHolds(ms, n, d)
    {
      var v :| v in ns[n].neighbours && 0 <= v < |ns| && ns[v].colour == d;
      NeighbourIsNode(ms, n, v);
      assert v in ms[n].neighbours && ms[v].colour == d;
    }
    var later := AvailableColors(ms, n);
    if later != [] {
      assert later[0] in later;
    }
  }

  /** A node without neighbours has the whole palette available. */
  lemma LonelyAvailable(ns: seq<Node>, n: int)
    requires WellLinked(ns) && 0 <= n < |ns| && ns[n].neighbours == []
    ensures AvailableColors(ns, n) == seq(MaxColors, i => i)
  {
    var all := seq(MaxColors, i => i);
    forall d
      ensures d in all <==> IsColour(d) && !NeighbourHolds(ns, n, d)
    {
      if IsColour(d) {
        assert all[d] == d;
      }
    }
    AvailableColorsUnique(ns, n, all);
  }
}
