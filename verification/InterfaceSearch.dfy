/**
 The exhaustive search for the best assignment of local to peer interfaces:
 evaluate_assignment, visit, and the use of their result in mca_btl_tcp2_proc_insert
 (contrib/build-mca-comps-outside-of-tree/btl_tcp2_proc.c).
 */
module Permutations {
  import opened Common


  /** Every number from 1 to n occurs exactly once. */
  predicate Permutation(p: seq<int>, n: nat) {
    && |p| == n && (forall i :: 0 <= i < n ==> 1 <= p[i] <= n)
    && (forall i, j :: 0 <= i < j < n ==> p[i] != p[j])
    && (forall v :: 1 <= v <= n ==> v in p)
  }

  function Zeros(a: seq<int>): nat {
    if a == [] then 0 else Zeros(a[..|a| - 1]) + if a[|a| - 1] == 0 then 1 else 0
  }

  /** The numbers 1 to level are placed, once each; the other places are 0. */
  ghost predicate Placed(a: seq<int>, level: nat, n: nat) {
    && |a| == n && level <= n && Zeros(a) == n - level
    && (forall i :: 0 <= i < n ==> 0 <= a[i] <= level)
    && (forall i, j :: 0 <= i < j < n && a[i] != 0 ==> a[i] != a[j])
    && (forall v :: 1 <= v <= level ==> v in a)
  }

  /** p puts higher numbers where a has 0, and agrees with a elsewhere. */
  predicate Extends(p: seq<int>, a: seq<int>, level: nat) {
    |p| == |a| && forall i :: 0 <= i < |a| ==> if a[i] == 0 then p[i] > level else p[i] == a[i]
  }

  /** What visit passes to evaluate_assignment, in order, once `level` numbers are placed. */
  function Leaves(a: seq<int>, level: nat, n: nat): seq<seq<int>>
    requires |a| == n
    decreases n - level, n + 1
  {
    if level >= n then [a] else Branches(a, level, n, n)
  }

  /** The part of the loop of visit over the first i places. */
  function Branches(a: seq<int>, level: nat, n: nat, i: nat): seq<seq<int>>
    requires |a| == n && level < n && i <= n
    decreases n - level, i
  {
    if i == 0 then []
    else Branches(a, level, n, i - 1) + if a[i - 1] == 0 then Leaves(a[i - 1 := level + 1], level + 1, n) else []
  }

  lemma {:induction false} ZerosUpdate(a: seq<int>, i: nat, v: int)
    requires i < |a| && a[i] == 0 && v != 0
    ensures Zeros(a[i := v]) == Zeros(a) - 1
  {
    var n := |a| - 1;
    if i < n {
      ZerosUpdate(a[..n], i, v);
      assert a[i := v][..n] == a[..n][i := v];
    } else {
      assert a[i := v][..n] == a[..n];
    }
  }

  lemma {:induction false} NoZeros(a: seq<int>, i: nat)
    requires Zeros(a) == 0 && i < |a|
    ensures a[i] != 0
  {
    if i < |a| - 1 {
      NoZeros(a[..|a| - 1], i);
    }
  }

  lemma {:induction false} AllZeros(n: nat)
    ensures Zeros(seq(n, _ => 0)) == n
  {
    if n > 0 {
      AllZeros(n - 1);
      assert seq(n, _ => 0)[..n - 1] == seq(n - 1, _ => 0);
    }
  }

  lemma PlaceNext(a: seq<int>, level: nat, n: nat, i: nat)
    requires Placed(a, level, n) && level < n && i < n && a[i] == 0
    ensures Placed(a[i := level + 1], level + 1, n)
  {
    hide Zeros;
    ZerosUpdate(a, i, level + 1);
    var b := a[i := level + 1];
    forall v | 1 <= v <= level + 1 ensures v in b {
      if v <= level {
        assert v in a;
        var j :| 0 <= j < |a| && a[j] == v;
        assert b[j] == v;
      } else {
        assert b[i] == v;
      }
    }
  }

  lemma FullIsPermutation(a: seq<int>, n: nat)
    requires Placed(a, n, n)
    ensures Permutation(a, n)
  {
    hide Zeros;
    forall i | 0 <= i < n ensures a[i] != 0 {
      NoZeros(a, i);
    }
  }

  /** Everything visited is a permutation that extends what is placed. */
  lemma {:induction false} LeafExtends(a: seq<int>, level: nat, n: nat, p: seq<int>)
    requires Placed(a, level, n) && p in Leaves(a, level, n)
    ensures Permutation(p, n) && Extends(p, a, level)
    decreases n - level, n + 1
  {
    hide Zeros;
    if level == n {
      FullIsPermutation(a, n);
    } else {
      var i := BranchExtends(a, level, n, n, p);
    }
  }

  lemma {:induction false} BranchExtends(a: seq<int>, level: nat, n: nat, i: nat, p: seq<int>) returns (j: nat)
    requires Placed(a, level, n) && level < n && i <= n && p in Branches(a, level, n, i)
    ensures j < i && a[j] == 0 && Permutation(p, n) && Extends(p, a, level) && p[j] == level + 1
    decreases n - level, i
  {
    hide Zeros;
    if p in Branches(a, level, n, i - 1) {
      j := BranchExtends(a, level, n, i - 1, p);
    } else {
      j := i - 1;
      PlaceNext(a, level, n, j);
      LeafExtends(a[j := level + 1], level + 1, n, p);
      assert a[j := level + 1][j] == level + 1;
    }
  }

  /** Every permutation that extends what is placed is visited. */
  lemma {:induction false} ExtensionVisited(a: seq<int>, level: nat, n: nat, p: seq<int>)
    requires Placed(a, level, n) && Permutation(p, n) && Extends(p, a, level)
    ensures p in Leaves(a, level, n)
    decreases n - level
  {
    hide Zeros;
    if level == n {
      assert p == a;
    } else {
      assert level + 1 in p;
      var i :| 0 <= i < |p| && p[i] == level + 1;
      PlaceNext(a, level, n, i);
      ExtensionVisited(a[i := level + 1], level + 1, n, p);
      InBranches(a, level, n, n, i, p);
    }
  }

  lemma {:induction false} InBranches(a: seq<int>, level: nat, n: nat, i: nat, j: nat, p: seq<int>)
    requires |a| == n && level < n && j < i <= n && a[j] == 0 && p in Leaves(a[j := level + 1], level + 1, n)
    ensures p in Branches(a, level, n, i)
    decreases i
  {
    if j < i - 1 {
      InBranches(a, level, n, i - 1, j, p);
    }
  }

  /** Nothing is visited twice. */
  lemma {:induction false} LeavesDistinct(a: seq<int>, level: nat, n: nat)
    requires Placed(a, level, n)
    ensures Distinct(Leaves(a, level, n))
    decreases n - level, n + 1
  {
    hide Zeros;
    if level < n {
      BranchesDistinct(a, level, n, n);
    }
  }

  lemma {:induction false} BranchesDistinct(a: seq<int>, level: nat, n: nat, i: nat)
    requires Placed(a, level, n) && level < n && i <= n
    ensures Distinct(Branches(a, level, n, i))
    decreases n - level, i
  {
    hide Zeros;
    if i > 0 {
      BranchesDistinct(a, level, n, i - 1);
      if a[i - 1] == 0 {
        PlaceNext(a, level, n, i - 1);
        LeavesDistinct(a[i - 1 := level + 1], level + 1, n);
        var before, here := Branches(a, level, n, i - 1), Leaves(a[i - 1 := level + 1], level + 1, n);
        forall p, q | p in before && q in here ensures p != q {
          var j := BranchExtends(a, level, n, i - 1, p);
          LeafExtends(a[i - 1 := level + 1], level + 1, n, q);
          assert q[i - 1] == level + 1 && p[j] == level + 1;
        }
        DistinctConcat(before, here);
      }
    }
  }

  /** From an empty assignment, visit goes through all permutations, each exactly once. */
  lemma AllVisitedOnce(n: nat)
    ensures Distinct(Leaves(seq(n, _ => 0), 0, n))
    ensures forall p :: p in Leaves(seq(n, _ => 0), 0, n) <==> Permutation(p, n)
  {
    hide Zeros;
    var a := seq(n, _ => 0);
    AllZeros(n);
    assert Placed(a, 0, n);
    LeavesDistinct(a, 0, n);
    forall p ensures p in Leaves(a, 0, n) <==> Permutation(p, n) {
      if p in Leaves(a, 0, n) {
        LeafExtends(a, 0, n, p);
      }
      if Permutation(p, n) {
        ExtensionVisited(a, 0, n, p);
      }
    }
  }
}

module InterfaceSearch {
  import opened Permutations

  /** Number of usable links and their total weight, over the first n local interfaces. */
  datatype Score = Score(cardinality: int, weight: int)

  function ScoreOf(weights: seq<seq<int>>, a: seq<int>, n: nat): Score
    requires n <= |a| && n <= |weights| && forall i :: 0 <= i < n ==> 1 <= a[i] <= |weights[i]|
  {
    if n == 0 then Score(0, 0)
    else
      var s := ScoreOf(weights, a, n - 1);
      var w := weights[n - 1][a[n - 1] - 1];
      if 0 < w then Score(s.cardinality + 1, s.weight + w) else s
  }

  /** Lexicographic order: more links first, then more weight. */
  predicate Beats(s: Score, t: Score) {
    s.cardinality > t.cardinality || (s.cardinality == t.cardinality && s.weight > t.weight)
  }

  predicate Square(weights: seq<seq<int>>, n: nat) {
    |weights| == n && forall i :: 0 <= i < n ==> |weights[i]| == n
  }

  function Total(weights: seq<seq<int>>, p: seq<int>): Score
    requires Square(weights, |p|) && Permutation(p, |p|)
  {
    ScoreOf(weights, p, |p|)
  }

  lemma {:induction false} ScoreNatural(weights: seq<seq<int>>, a: seq<int>, n: nat)
    requires n <= |a| && n <= |weights| && forall i :: 0 <= i < n ==> 1 <= a[i] <= |weights[i]|
    ensures ScoreOf(weights, a, n).cardinality >= 0 && ScoreOf(weights, a, n).weight >= 0
  {
    if n > 0 {
      ScoreNatural(weights, a, n - 1);
    }
  }

  ghost predicate AllPermutations(seen: seq<seq<int>>, n: nat) {
    forall p :: p in seen ==> Permutation(p, n)
  }

  /** p, one less in every place. */
  predicate Shifted(best: seq<int>, p: seq<int>) {
    |best| == |p| && forall i :: 0 <= i < |p| ==> best[i] == p[i] - 1
  }

  ghost function ScoreAt(weights: seq<seq<int>>, n: nat, seen: seq<seq<int>>, i: nat): Score
    requires Square(weights, n) && AllPermutations(seen, n) && i < |seen|
  {
    assert seen[i] in seen;
    Total(weights, seen[i])
  }

  /** Assignment i is the first one of those seen that none of them beats. */
  ghost predicate FirstBest(weights: seq<seq<int>>, n: nat, seen: seq<seq<int>>, i: nat)
    requires Square(weights, n) && AllPermutations(seen, n) && i < |seen|
  {
    && (forall j :: 0 <= j < |seen| ==> !Beats(ScoreAt(weights, n, seen, j), ScoreAt(weights, n, seen, i)))
    && (forall j :: 0 <= j < i ==> Beats(ScoreAt(weights, n, seen, i), ScoreAt(weights, n, seen, j)))
  }

  /** best, one less in every place, is the first of the assignments seen that none of them beats. */
  ghost predicate Champion(weights: seq<seq<int>>, n: nat, seen: seq<seq<int>>, best: seq<int>, score: Score) {
    && Square(weights, n) && |best| == n && AllPermutations(seen, n)
    && (seen == [] ==> score == Score(-1, -1))
    && (seen != [] ==>
          exists i :: 0 <= i < |seen| && FirstBest(weights, n, seen, i) && score == ScoreAt(weights, n, seen, i) && Shifted(best, seen[i]))
  }

  /** The static variables of btl_tcp2_proc.c and the array that visit works on. */
  class Search {
    const weights: seq<seq<int>>
    const size: nat
    const a: array<int>
    const best: array<int>
    var maxWeight: int
    var maxCardinality: int
    ghost var seen: seq<seq<int>>

    ghost predicate Valid()
      reads this, best
    {
      && a.Length == best.Length == size && a != best
      && Champion(weights, size, seen, best[..], Score(maxCardinality, maxWeight))
    }

    /** Lines 577-592: nothing placed, nothing seen. */
    constructor (weights: seq<seq<int>>, size: nat)
      requires Square(weights, size)
      ensures Valid() && seen == [] && a[..] == seq(size, _ => 0) && this.size == size && this.weights == weights
      ensures fresh(a) && fresh(best)
    {
      this.weights, this.size := weights, size;
      a, best := new int[size](_ => 0), new int[size](_ => 0);
      maxWeight, maxCardinality, seen := -1, -1, [];
    }

    /** evaluate_assignment: the assignment becomes the best one if it beats the best one so far. */
    method Evaluate()
      requires Valid() && Permutation(a[..], size)
      modifies this, best
      ensures Valid() && seen == old(seen) + [a[..]]
    {
      hide Champion;
      SquareWeights();
      ghost var before, score := best[..], Score(maxCardinality, maxWeight);
      var cardinality, weight := Rate();
      if cardinality > maxCardinality || (cardinality == maxCardinality && weight > maxWeight) {
        Keep();
        maxWeight, maxCardinality := weight, cardinality;
      }
      ChampionNext(weights, size, seen, before, score, a[..], best[..], Score(maxCardinality, maxWeight));
      seen := seen + [a[..]];
    }

    lemma SquareWeights()
      requires Valid()
      ensures Square(weights, size)
    {
    }

    /** The first loop: how many links the assignment uses, and their weight. */
    method Rate() returns (cardinality: int, weight: int)
      requires Square(weights, size) && a.Length == size && Permutation(a[..], size)
      ensures Score(cardinality, weight) == ScoreOf(weights, a[..], size) && cardinality >= 0 && weight >= 0
    {
      cardinality, weight := 0, 0;
      for i := 0 to size
        invariant Score(cardinality, weight) == ScoreOf(weights, a[..], i)
      {
        if 0 < weights[i][a[i] - 1] {
          cardinality := cardinality + 1;
          weight := weight + weights[i][a[i] - 1];
        }
      }
      ScoreNatural(weights, a[..], size);
    }

    /** The second loop: the assignment, one less in every place. */
    method Keep()
      requires a.Length == best.Length == size && a != best
      modifies best
      ensures forall k :: 0 <= k < size ==> best[k] == a[k] - 1
    {
      for i := 0 to size
        invariant forall k :: 0 <= k < i ==> best[k] == a[k] - 1
        modifies best
      {
        best[i] := a[i] - 1;
      }
    }

    /**
     visit: with `level` numbers placed, puts the next one at k, evaluates every way to place the
     rest, and takes it back. The first call, with level -1, puts 0 and so places nothing.
     */
    method Visit(k: nat, level: int)
      requires Valid() && k < size && a[k] == 0 && -1 <= level < size
      requires Placed(a[..], if level < 0 then 0 else level, size)
      modifies this, best, a
      ensures Valid() && a[..] == old(a[..])
      ensures seen == old(seen) + Leaves(old(a[..])[k := level + 1], level + 1, size)
      decreases size - level
    {
      hide Zeros, Champion, Placed, Leaves, Branches;
      ghost var before, s0 := a[..], seen;
      var next := level + 1;
      a[k] := next;
      ghost var here := a[..];
      assert here == before[k := next];
      PlacedHere(before, level, size, k);
      if next == size {
        FullIsPermutation(here, size);
        Evaluate();
        LeafOnly(here, size);
      } else {
        BranchesStart(here, next, size);
        assert s0 + [] == s0;
        for i := 0 to size
          invariant Valid() && a[..] == here && seen == s0 + Branches(here, next, size, i)
        {
          BranchesNext(here, next, size, i);
          ghost var s1 := seen;
          if a[i] == 0 {
            Visit(i, next);
          }
          Regroup(s0, Branches(here, next, size, i), here, next, size, i, s1, seen);
        }
      }
      a[k] := 0;
      assert a[..] == before;
    }
  }

  lemma PlacedHere(a: seq<int>, level: int, n: nat, k: nat)
    requires -1 <= level < n && k < n && |a| == n && a[k] == 0 && Placed(a, if level < 0 then 0 else level, n)
    ensures Placed(a[k := level + 1], level + 1, n)
  {
    if level >= 0 {
      PlaceNext(a, level, n, k);
    } else {
      assert a[k := 0] == a;
    }
  }

  lemma LeafOnly(a: seq<int>, n: nat)
    requires |a| == n
    ensures Leaves(a, n, n) == [a]
  {
  }

  lemma BranchesStart(a: seq<int>, level: nat, n: nat)
    requires |a| == n && level < n
    ensures Branches(a, level, n, 0) == [] && Leaves(a, level, n) == Branches(a, level, n, n)
  {
  }

  lemma BranchesNext(a: seq<int>, level: nat, n: nat, i: nat)
    requires |a| == n && level < n && i < n
    ensures Branches(a, level, n, i + 1) ==
            Branches(a, level, n, i) + if a[i] == 0 then Leaves(a[i := level + 1], level + 1, n) else []
  {
  }

  lemma Regroup(s0: seq<seq<int>>, b: seq<seq<int>>, a: seq<int>, level: nat, n: nat, i: nat, s1: seq<seq<int>>, s2: seq<seq<int>>)
    requires |a| == n && level < n && i < n && s1 == s0 + b && b == Branches(a, level, n, i)
    requires s2 == s1 + if a[i] == 0 then Leaves(a[i := level + 1], level + 1, n) else []
    ensures s2 == s0 + Branches(a, level, n, i + 1)
  {
    hide Leaves;
    BranchesNext(a, level, n, i);
  }

  /** best stands for a permutation that no permutation beats. */
  ghost predicate Optimal(weights: seq<seq<int>>, n: nat, best: seq<int>)
    requires Square(weights, n)
  {
    exists p :: Permutation(p, n) && Shifted(best, p) &&
                forall q :: Permutation(q, n) ==> !Beats(Total(weights, q), Total(weights, p))
  }

  /** Of the assignments in that order, best stands for the first one that none of them beats. */
  ghost predicate FirstOf(weights: seq<seq<int>>, n: nat, best: seq<int>, seen: seq<seq<int>>)
    requires Square(weights, n)
  {
    AllPermutations(seen, n) && exists i :: 0 <= i < |seen| && Shifted(best, seen[i]) && FirstBest(weights, n, seen, i)
  }

  lemma ChampionOfAll(weights: seq<seq<int>>, n: nat, seen: seq<seq<int>>, best: seq<int>, score: Score)
    requires Champion(weights, n, seen, best, score) && seen == Leaves(seq(n, _ => 0), 0, n)
    ensures Optimal(weights, n, best) && FirstOf(weights, n, best, seen)
  {
    hide Leaves;
    AllVisitedOnce(n);
    Identity(n);
    var i :| 0 <= i < |seen| && FirstBest(weights, n, seen, i) && Shifted(best, seen[i]);
    assert seen[i] in seen;
    forall q | Permutation(q, n) ensures !Beats(Total(weights, q), Total(weights, seen[i])) {
      var j :| 0 <= j < |seen| && seen[j] == q;
      assert !Beats(ScoreAt(weights, n, seen, j), ScoreAt(weights, n, seen, i));
    }
  }

  /** There is a permutation at all. */
  lemma Identity(n: nat)
    ensures Permutation(seq(n, i => i + 1), n)
  {
    var p := seq(n, i => i + 1);
    forall v | 1 <= v <= n ensures v in p {
      assert p[v - 1] == v;
    }
  }

  /** Lines 577-593: the search ends with an assignment that maximises links, then weight, over all permutations. */
  method FindBest(weights: seq<seq<int>>, size: nat) returns (best: seq<int>)
    requires Square(weights, size) && size > 0
    ensures |best| == size && (forall i :: 0 <= i < size ==> 0 <= best[i] < size) && Optimal(weights, size, best)
    ensures FirstOf(weights, size, best, Leaves(seq(size, _ => 0), 0, size))
  {
    var s := new Search(weights, size);
    ghost var zeros := seq(size, _ => 0);
    AllZeros(size);
    assert Placed(zeros, 0, size);
    s.Visit(0, -1);
    assert zeros[0 := 0] == zeros;
    assert s.seen == [] + Leaves(zeros, 0, size) == Leaves(zeros, 0, size);
    best := s.best[..];
    ChampionOfAll(weights, size, s.seen, best, Score(s.maxCardinality, s.maxWeight));
  }

  datatype Choice = Unreachable | Link(local: nat, peer: nat)

  /** The link from local interface i to its assigned peer can be used. */
  predicate Usable(weights: seq<seq<int>>, inuse: seq<bool>, best: seq<int>, i: nat)
    requires i < |best| && i < |weights| && 0 <= best[i] < |weights[i]|
  {
    best[i] < |inuse| && weights[i][best[i]] != 0 && !inuse[best[i]]
  }

  /**
   Lines 595-608: the first usable link of the best assignment. The range test lets the index
   one past the peers through; the weight test catches it because padding has weight 0.
   */
  method Select(weights: seq<seq<int>>, inuse: seq<bool>, best: seq<int>) returns (r: Choice)
    requires Square(weights, |best|) && |inuse| <= |best| && forall i :: 0 <= i < |best| ==> 0 <= best[i] < |best|
    requires forall i, j :: 0 <= i < |best| && |inuse| <= j < |best| ==> weights[i][j] == 0
    ensures r.Unreachable? ==> forall i :: 0 <= i < |best| ==> !Usable(weights, inuse, best, i)
    ensures r.Link? ==> r.local < |best| && r.peer == best[r.local] && Usable(weights, inuse, best, r.local)
    ensures r.Link? ==> forall i :: 0 <= i < r.local ==> !Usable(weights, inuse, best, i)
  {
    r := Unreachable;
    for i := 0 to |best|
      invariant r.Unreachable? && forall k :: 0 <= k < i ==> !Usable(weights, inuse, best, k)
    {
      if best[i] > |inuse| || weights[i][best[i]] == 0 || inuse[best[i]] {
        continue;
      }
      return Link(i, best[i]);
    }
  }

  lemma ChampionNext(weights: seq<seq<int>>, n: nat, seen: seq<seq<int>>, best: seq<int>, score: Score,
                     p: seq<int>, best': seq<int>, score': Score)
    requires Champion(weights, n, seen, best, score) && Permutation(p, n) && |best'| == n
    requires if Beats(Total(weights, p), score) then score' == Total(weights, p) && (forall i :: 0 <= i < n ==> best'[i] == p[i] - 1)
             else best' == best && score' == score
    ensures Champion(weights, n, seen + [p], best', score')
  {
    ScoreNatural(weights, p, n);
    var longer := seen + [p];
    forall j | 0 <= j < |longer| ensures Permutation(longer[j], n) {
      assert j < |seen| ==> longer[j] == seen[j] && seen[j] in seen;
    }
    ScoresKept(weights, n, seen, p);
    hide ScoreAt, Total, Permutation;
    if seen == [] || Beats(ScoreAt(weights, n, longer, |seen|), score) {
      assert FirstBest(weights, n, longer, |seen|);
    } else {
      var i :| 0 <= i < |seen| && FirstBest(weights, n, seen, i) && score == ScoreAt(weights, n, seen, i) && Shifted(best, seen[i]);
      assert FirstBest(weights, n, longer, i);
    }
  }

  lemma ScoresKept(weights: seq<seq<int>>, n: nat, seen: seq<seq<int>>, p: seq<int>)
    requires Square(weights, n) && AllPermutations(seen, n) && Permutation(p, n) && AllPermutations(seen + [p], n)
    ensures forall j :: 0 <= j < |seen| ==> ScoreAt(weights, n, seen + [p], j) == ScoreAt(weights, n, seen, j)
    ensures ScoreAt(weights, n, seen + [p], |seen|) == Total(weights, p)
  {
  }
}
