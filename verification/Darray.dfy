/**
 ompi_datatype_create_darray (ompi/datatype/ompi_datatype_create_darray.c; section 4.1.4 of
 MPI-3.0): the part of a distributed array that one process holds.
 */
module Distribution {
  import opened Common
  import opened TypeMaps
  import opened TypeConstructors
  import opened TypeBlocks
  import opened ArrayOffsets

  datatype Kind = Block | Cyclic | None

  /** A distribution argument, or MPI_DISTRIBUTE_DFLT_DARG. */
  datatype Darg = Default | Given(size: nat)

  /** One dimension of the global array: size, distribution, argument, processes along it. */
  datatype Dim = Dim(gsize: nat, kind: Kind, darg: Darg, psize: nat)

  /** The width of a block. */
  function Width(d: Dim): nat
    requires d.psize > 0
  {
    if d.kind.Cyclic? then (if d.darg.Default? then 1 else d.darg.size)
    else if d.kind.None? || d.darg.Default? then (d.gsize + d.psize - 1) / d.psize
    else d.darg.size
  }

  /** What the standard asks of the caller: room for every index, one process where nothing is distributed. */
  predicate Sound(d: Dim) {
    && d.gsize > 0 && d.psize > 0 && Width(d) > 0
    && (d.kind.None? ==> d.psize == 1)
    && (d.kind.Block? ==> d.gsize <= Width(d) * d.psize)
  }

  /** Which process along the dimension owns index g. */
  function Owner(d: Dim, g: int): int
    requires Sound(d)
  {
    if d.kind.Cyclic? then g / Width(d) % d.psize else g / Width(d)
  }

  // ---------------------------------------------------------------------------------------
  // Block distribution

  function BlockCount(gsize: nat, width: nat, rank: nat): nat {
    var j := gsize - width * rank;
    var mine := if width < j then width else j;
    if mine < 0 then 0 else mine
  }

  lemma BlockOwns(gsize: nat, width: nat, rank: nat, g: int)
    requires width > 0
    ensures g in Move(Steps(BlockCount(gsize, width, rank), 0, 1), width * rank) <==> 0 <= g < gsize && g / width == rank
  {
    var n, st := BlockCount(gsize, width, rank), width * rank;
    RangeMember(n, st, g);
    if 0 <= g < gsize && g / width == rank {
      assert g == rank * width + g % width;
    }
    if st <= g < st + n {
      DivMod(rank, width, g - st);
      assert st >= 0;
    }
  }

  lemma DefaultCovers(gsize: nat, psize: nat)
    requires gsize > 0 && psize > 0
    ensures (gsize + psize - 1) / psize > 0 && gsize <= (gsize + psize - 1) / psize * psize
  {
    var x := gsize + psize - 1;
    var q := x / psize;
    assert x == q * psize + x % psize;
    MulBounds(q, psize);
  }

  // ---------------------------------------------------------------------------------------
  // Cyclic distribution

  /** Of t indices in cycles, those in the first width places of a cycle. */
  function Part(t: nat, cycle: nat, width: nat): nat
    requires cycle > 0
  {
    t / cycle * width + if t % cycle < width then t % cycle else width
  }

  /** Lines 93-102: how many indices a process owns. */
  function CyclicCount(gsize: nat, width: nat, psize: nat, rank: nat): nat
    requires width > 0 && psize > 0
  {
    MulBounds(psize, width);
    var st, end := rank * width, gsize - 1;
    if end < st then 0 else Part(end - st + 1, psize * width, width)
  }

  /** Whole blocks, a cycle apart, and the rest of a block behind them. */
  function CyclicList(local: nat, width: nat, psize: nat): seq<int>
    requires width > 0
  {
    BlockOffsets(local / width, width, psize * width, 1) + Steps(local % width, local / width * (psize * width), 1)
  }

  lemma CyclicListFrom(local: nat, width: nat, psize: nat, x: int) returns (c: nat, j: nat)
    requires width > 0 && x in CyclicList(local, width, psize)
    ensures c * width + j < local && j < width && x == c * (psize * width) + j
  {
    var count, rem, cycle := local / width, local % width, psize * width;
    var front, back := BlockOffsets(count, width, cycle, 1), Steps(rem, count * cycle, 1);
    if x in front {
      var outer, inner := Steps(count, 0, cycle), Steps(width, 0, 1);
      CrossMember(outer, inner, x);
      c, j :| 0 <= c < |outer| && 0 <= j < |inner| && x == outer[c] + inner[j];
    } else {
      c := count;
      j :| 0 <= j < |back| && x == back[j];
    }
    CountSplit(local, width, c, j);
  }

  lemma CyclicListHas(local: nat, width: nat, psize: nat, c: nat, j: nat)
    requires width > 0 && c * width + j < local && j < width
    ensures c * (psize * width) + j in CyclicList(local, width, psize)
  {
    var count, rem, cycle := local / width, local % width, psize * width;
    var x := c * cycle + j;
    var front, back := BlockOffsets(count, width, cycle, 1), Steps(rem, count * cycle, 1);
    CountSplit(local, width, c, j);
    if c < count {
      var outer, inner := Steps(count, 0, cycle), Steps(width, 0, 1);
      assert x == outer[c] + inner[j];
      CrossMember(outer, inner, x);
    } else {
      assert back[j] == x;
    }
  }

  /** Element c * width + j of a list of whole blocks and a rest. */
  lemma CountSplit(local: nat, width: nat, c: nat, j: nat)
    requires width > 0 && j < width
    ensures c * width + j < local <==> c < local / width || (c == local / width && j < local % width)
  {
    var q, r := local / width, local % width;
    assert local == q * width + r;
    MulBounds(c - q, width);
    Distribute(c, -q, width);
  }

  lemma PartSplit(t: nat, cycle: nat, width: nat, c: nat, j: nat)
    requires 0 < width <= cycle && j < width
    ensures c * width + j < Part(t, cycle, width) <==> c * cycle + j < t
  {
    var q, m := t / cycle, t % cycle;
    assert t == q * cycle + m;
    MulBounds(c - q, cycle);
    MulBounds(c - q, width);
    Distribute(c, -q, cycle);
    Distribute(c, -q, width);
    assert -q * cycle == -(q * cycle) && -q * width == -(q * width);
  }

  /** What CyclicCount counts: the indices c cycles and j places behind the first own one. */
  lemma CyclicCountSplit(gsize: nat, width: nat, psize: nat, rank: nat, c: nat, j: nat)
    requires width > 0 && psize > 0 && j < width
    ensures c * width + j < CyclicCount(gsize, width, psize, rank) <==> rank * width + c * (psize * width) + j < gsize
  {
    hide Part;
    MulBounds(psize, width);
    MulBounds(c, width);
    MulBounds(c, psize * width);
    if gsize > rank * width {
      PartSplit(gsize - rank * width, psize * width, width, c, j);
    }
  }

  /** What a process owns has a block number with its own remainder, */
  lemma CyclicOwned(gsize: nat, width: nat, psize: nat, rank: nat, g: int)
    requires width > 0 && rank < psize
    requires g in Move(CyclicList(CyclicCount(gsize, width, psize, rank), width, psize), rank * width)
    ensures 0 <= g < gsize && g / width % psize == rank
  {
    hide CyclicList, CyclicCount;
    var local, st := CyclicCount(gsize, width, psize, rank), rank * width;
    var list := CyclicList(local, width, psize);
    var i :| 0 <= i < |list| && Move(list, st)[i] == g;
    var c, j := CyclicListFrom(local, width, psize, list[i]);
    CyclicCountSplit(gsize, width, psize, rank, c, j);
    CyclicIndex(width, psize, rank, c, j, g);
  }

  /** and the other way round. */
  lemma CyclicOwns(gsize: nat, width: nat, psize: nat, rank: nat, g: int)
    requires width > 0 && rank < psize && 0 <= g < gsize && g / width % psize == rank
    ensures g in Move(CyclicList(CyclicCount(gsize, width, psize, rank), width, psize), rank * width)
  {
    hide CyclicList, CyclicCount;
    var b := g / width;
    CyclicOwnsAt(gsize, width, psize, rank, b / psize, g % width, g);
  }

  lemma CyclicOwnsAt(gsize: nat, width: nat, psize: nat, rank: nat, c: nat, j: nat, g: int)
    requires j < width && rank < psize && g < gsize && g == (c * psize + rank) * width + j
    ensures g in Move(CyclicList(CyclicCount(gsize, width, psize, rank), width, psize), rank * width)
  {
    hide CyclicList, CyclicCount;
    var local, st := CyclicCount(gsize, width, psize, rank), rank * width;
    var list := CyclicList(local, width, psize);
    CyclicRing(width, psize, rank, c);
    CyclicCountSplit(gsize, width, psize, rank, c, j);
    CyclicListHas(local, width, psize, c, j);
    MoveMember(list, st, c * (psize * width) + j);
  }

  lemma MoveMember(s: seq<int>, d: int, x: int)
    requires x in s
    ensures x + d in Move(s, d)
  {
    var i :| 0 <= i < |s| && s[i] == x;
    assert Move(s, d)[i] == x + d;
  }

  lemma CyclicIndex(width: nat, psize: nat, rank: nat, c: nat, j: nat, g: int)
    requires j < width && rank < psize && g == rank * width + c * (psize * width) + j
    ensures g >= 0 && g == (c * psize + rank) * width + j && g / width == c * psize + rank && g / width % psize == rank
  {
    var b := c * psize + rank;
    CyclicRing(width, psize, rank, c);
    MulBounds(c, psize);
    MulBounds(b, width);
    DivMod(b, width, j);
    DivMod(c, psize, rank);
  }

  lemma CyclicRing(width: nat, psize: nat, rank: nat, c: nat)
    ensures rank * width + c * (psize * width) == (c * psize + rank) * width
  {
    Associate(c, psize, width);
    Distribute(c * psize, rank, width);
  }

  lemma StepsDistinct(n: nat, d: int)
    ensures Distinct(Steps(n, d, 1))
  {
  }

  lemma CyclicListDistinct(local: nat, width: nat, psize: nat)
    requires width > 0 && psize > 0
    ensures Distinct(CyclicList(local, width, psize))
  {
    var count, rem, cycle := local / width, local % width, psize * width;
    MulBounds(psize, width);
    var numbers, inner := Steps(count, 0, 1), Steps(width, 0, 1);
    assert Steps(count, 0, cycle) == Scaled(numbers, cycle);
    StepsDistinct(count, 0);
    StepsDistinct(width, 0);
    CrossDistinct(numbers, cycle, inner);
    var front, back := Cross(Scaled(numbers, cycle), inner), Steps(rem, count * cycle, 1);
    forall x | x in back ensures x !in front {
      var j :| 0 <= j < rem && x == count * cycle + j;
      DivMod(count, cycle, j);
      if x in front {
        BlockOf(numbers, cycle, inner, x);
      }
    }
    StepsDistinct(rem, count * cycle);
    DistinctConcat(front, back);
  }

  lemma MoveDistinct(s: seq<int>, d: int)
    requires Distinct(s)
    ensures Distinct(Move(s, d))
  {
  }

  // ---------------------------------------------------------------------------------------
  // One dimension

  /** The indices that a process owns, counted from the first. */
  function Relative(d: Dim, rank: nat): seq<int>
    requires Sound(d)
  {
    if d.kind.Cyclic? then CyclicList(CyclicCount(d.gsize, Width(d), d.psize, rank), Width(d), d.psize)
    else Steps(BlockCount(d.gsize, Width(d), rank), 0, 1)
  }

  /** Where the first one is; st_offset of lines 69-71 and 151-153. */
  function FirstIndex(d: Dim, rank: nat): int
    requires Sound(d)
  {
    if Relative(d, rank) == [] then 0 else Width(d) * rank
  }

  function Owned(d: Dim, rank: nat): seq<int>
    requires Sound(d)
  {
    Move(Relative(d, rank), FirstIndex(d, rank))
  }

  /** A process owns each index of the dimension that is its own exactly once, and no other. */
  lemma OwnedExact(d: Dim, rank: nat)
    requires Sound(d) && rank < d.psize
    ensures Distinct(Owned(d, rank)) && Within(Owned(d, rank), d.gsize)
    ensures forall g :: g in Owned(d, rank) <==> 0 <= g < d.gsize && Owner(d, g) == rank
  {
    hide CyclicList, CyclicCount, BlockCount;
    var rel, w := Relative(d, rank), Width(d);
    assert Owned(d, rank) == Move(rel, w * rank);
    if d.kind.Cyclic? {
      CyclicListDistinct(CyclicCount(d.gsize, w, d.psize, rank), w, d.psize);
    } else {
      StepsDistinct(BlockCount(d.gsize, w, rank), 0);
    }
    MoveDistinct(rel, w * rank);
    forall g ensures g in Owned(d, rank) <==> 0 <= g < d.gsize && Owner(d, g) == rank {
      OwnedMember(d, rank, g);
    }
  }

  lemma OwnedMember(d: Dim, rank: nat, g: int)
    requires Sound(d) && rank < d.psize
    ensures g in Move(Relative(d, rank), Width(d) * rank) <==> 0 <= g < d.gsize && Owner(d, g) == rank
  {
    hide CyclicList, CyclicCount, BlockCount;
    var w := Width(d);
    if !d.kind.Cyclic? {
      BlockOwns(d.gsize, w, rank, g);
    } else {
      if g in Move(Relative(d, rank), w * rank) {
        CyclicOwned(d.gsize, w, d.psize, rank, g);
      }
      if 0 <= g < d.gsize && Owner(d, g) == rank {
        CyclicOwns(d.gsize, w, d.psize, rank, g);
      }
    }
  }

  /** Every index has an owner among the processes. */
  lemma OwnerExists(d: Dim, g: int)
    requires Sound(d) && 0 <= g < d.gsize
    ensures 0 <= Owner(d, g) < d.psize
  {
    var w := Width(d);
    if !d.kind.Cyclic? {
      if d.kind.None? {
        DefaultCovers(d.gsize, d.psize);
      }
      QuotientBelow(g / w, w, g % w, d.psize);
    }
  }
}

/** The process grid and the elements of one process. */
module DistributedArray {
  import opened Common
  import opened ArrayOffsets
  import opened Distribution

  /** The number of processes in a grid. */
  function GridSize(ps: seq<nat>): nat {
    if ps == [] then 1 else ps[0] * GridSize(ps[1..])
  }

  /** Row-major position of a rank in the grid. */
  function CoordsOf(rank: int, ps: seq<nat>): seq<int>
    requires Positive(ps)
    decreases |ps|
  {
    if ps == [] then []
    else
      assert Positive(ps[1..]);
      GridPositive(ps[1..]);
      [rank / GridSize(ps[1..])] + CoordsOf(rank % GridSize(ps[1..]), ps[1..])
  }

  function RankOf(cs: seq<int>, ps: seq<nat>): int
    requires |cs| == |ps|
  {
    if ps == [] then 0 else cs[0] * GridSize(ps[1..]) + RankOf(cs[1..], ps[1..])
  }

  predicate InGrid(cs: seq<int>, ps: seq<nat>) {
    |cs| == |ps| && forall i :: 0 <= i < |ps| ==> 0 <= cs[i] < ps[i]
  }

  lemma {:induction false} GridPositive(ps: seq<nat>)
    requires Positive(ps)
    ensures GridSize(ps) > 0
  {
    if ps != [] {
      assert Positive(ps[1..]);
      GridPositive(ps[1..]);
      MulBounds(ps[0], GridSize(ps[1..]));
    }
  }

  lemma {:induction false} CoordsInGrid(rank: int, ps: seq<nat>)
    requires Positive(ps) && 0 <= rank < GridSize(ps)
    ensures InGrid(CoordsOf(rank, ps), ps) && RankOf(CoordsOf(rank, ps), ps) == rank
    decreases |ps|
  {
    if ps != [] {
      var n := GridSize(ps[1..]);
      assert Positive(ps[1..]);
      GridPositive(ps[1..]);
      DivDef(rank, n);
      var q, r := rank / n, rank % n;
      CoordsInGrid(r, ps[1..]);
      NextCoord(rank, n, q, r, ps, CoordsOf(r, ps[1..]));
    }
  }

  lemma NextCoord(rank: int, n: nat, q: int, r: int, ps: seq<nat>, rest: seq<int>)
    requires ps != [] && n == GridSize(ps[1..]) > 0 && rank == q * n + r && 0 <= r < n && 0 <= rank < ps[0] * n
    requires InGrid(rest, ps[1..]) && RankOf(rest, ps[1..]) == r
    ensures InGrid([q] + rest, ps) && RankOf([q] + rest, ps) == rank
  {
    QuotientBelow(q, n, r, ps[0]);
    assert ([q] + rest)[1..] == rest;
  }

  lemma {:induction false} RankInGrid(cs: seq<int>, ps: seq<nat>)
    requires Positive(ps) && InGrid(cs, ps)
    ensures 0 <= RankOf(cs, ps) < GridSize(ps) && CoordsOf(RankOf(cs, ps), ps) == cs
  {
    if ps != [] {
      var n := GridSize(ps[1..]);
      assert Positive(ps[1..]);
      GridPositive(ps[1..]);
      RankInGrid(cs[1..], ps[1..]);
      DivMod(cs[0], n, RankOf(cs[1..], ps[1..]));
      InRange(cs[0], n, RankOf(cs[1..], ps[1..]), ps[0]);
      assert cs == [cs[0]] + cs[1..];
    }
  }

  // ---------------------------------------------------------------------------------------
  // The elements of one process

  predicate SoundDims(dims: seq<Dim>) {
    forall i :: 0 <= i < |dims| ==> Sound(dims[i])
  }

  function Sizes(dims: seq<Dim>): (r: seq<nat>)
    ensures |r| == |dims| && forall i :: 0 <= i < |r| ==> r[i] == dims[i].gsize
  {
    seq(|dims|, i requires 0 <= i < |dims| => dims[i].gsize)
  }

  function Procs(dims: seq<Dim>): (r: seq<nat>)
    ensures |r| == |dims| && forall i :: 0 <= i < |r| ==> r[i] == dims[i].psize
  {
    seq(|dims|, i requires 0 <= i < |dims| => dims[i].psize)
  }

  /** Index lists, the fastest dimension first. */
  function OwnedLists(order: Order, dims: seq<Dim>, cs: seq<int>): (r: seq<seq<int>>)
    requires SoundDims(dims) && InGrid(cs, Procs(dims))
    ensures |r| == |dims|
    ensures forall k :: 0 <= k < |r| ==> r[k] == Owned(dims[Nth(order, |dims|, k)], cs[Nth(order, |dims|, k)])
  {
    seq(|dims|, k requires 0 <= k < |dims| => Owned(dims[Nth(order, |dims|, k)], cs[Nth(order, |dims|, k)]))
  }

  function Shape(order: Order, dims: seq<Dim>): seq<nat> {
    Fastest(order, Sizes(dims))
  }

  /** The linear offsets of the elements that the process at cs holds. */
  function Elements(order: Order, dims: seq<Dim>, cs: seq<int>): seq<int>
    requires SoundDims(dims) && InGrid(cs, Procs(dims))
  {
    Lin(OwnedLists(order, dims, cs), Shape(order, dims), |dims|)
  }

  /** The grid position that owns the element at linear offset e, dimension by dimension. */
  function OwnerCoords(order: Order, dims: seq<Dim>, e: int): (r: seq<int>)
    requires SoundDims(dims)
    ensures |r| == |dims|
  {
    seq(|dims|, i requires 0 <= i < |dims| => Owner(dims[i], Digit(Shape(order, dims), Nth(order, |dims|, i), e)))
  }

  lemma ElementsExact(order: Order, dims: seq<Dim>, cs: seq<int>, e: int)
    requires SoundDims(dims) && InGrid(cs, Procs(dims))
    ensures Distinct(Elements(order, dims, cs)) && Within(Elements(order, dims, cs), Prod(Shape(order, dims)))
    ensures e in Elements(order, dims, cs) <==> 0 <= e < Prod(Shape(order, dims)) && OwnerCoords(order, dims, e) == cs
  {
    hide Lin, Owned, Owner, Digit, Prod, Distinct, Sound;
    var n, gs, lists := |dims|, Shape(order, dims), OwnedLists(order, dims, cs);
    assert Positive(gs) by { ShapePositive(order, dims); }
    assert Indices(lists, gs) by { ListsAreIndices(order, dims, cs); }
    assert gs[..n] == gs;
    LinDistinct(lists, gs, n);
    LinDigits(lists, gs, e);
    if 0 <= e < Prod(gs) {
      OwnersAgree(order, dims, cs, e);
    }
  }

  lemma ShapePositive(order: Order, dims: seq<Dim>)
    requires SoundDims(dims)
    ensures Positive(Shape(order, dims)) && Positive(Procs(dims))
  {
  }

  lemma ListsAreIndices(order: Order, dims: seq<Dim>, cs: seq<int>)
    requires SoundDims(dims) && InGrid(cs, Procs(dims))
    ensures Indices(OwnedLists(order, dims, cs), Shape(order, dims))
  {
    hide Owned;
    ShapePositive(order, dims);
    var lists, gs := OwnedLists(order, dims, cs), Shape(order, dims);
    forall k | 0 <= k < |gs| ensures Distinct(lists[k]) && Within(lists[k], gs[k]) {
      var i := Nth(order, |dims|, k);
      assert cs[i] < Procs(dims)[i];
      OwnedExact(dims[i], cs[i]);
    }
  }

  lemma OwnersAgree(order: Order, dims: seq<Dim>, cs: seq<int>, e: int)
    requires SoundDims(dims) && InGrid(cs, Procs(dims)) && 0 <= e < Prod(Shape(order, dims))
    ensures (forall k :: 0 <= k < |dims| ==> Digit(Shape(order, dims), k, e) in OwnedLists(order, dims, cs)[k]) <==>
            OwnerCoords(order, dims, e) == cs
  {
    hide Owned, Digit, Prod, Sound, OwnedLists, OwnerCoords;
    var n, os, lists := |dims|, OwnerCoords(order, dims, e), OwnedLists(order, dims, cs);
    ShapePositive(order, dims);
    forall k | 0 <= k < n ensures Nth(order, n, Nth(order, n, k)) == k && (Digit(Shape(order, dims), k, e) in lists[k] <==> os[Nth(order, n, k)] == cs[Nth(order, n, k)]) {
      OwnerAgrees(order, dims, cs, e, k);
    }
    if forall k :: 0 <= k < n ==> Digit(Shape(order, dims), k, e) in lists[k] {
      forall i | 0 <= i < n ensures os[i] == cs[i] {
        var k := Nth(order, n, i);
        assert Digit(Shape(order, dims), k, e) in lists[k];
      }
    }
  }

  /** One dimension of it. */
  lemma OwnerAgrees(order: Order, dims: seq<Dim>, cs: seq<int>, e: int, k: nat)
    requires SoundDims(dims) && InGrid(cs, Procs(dims)) && 0 <= e < Prod(Shape(order, dims)) && k < |dims|
    ensures |OwnerCoords(order, dims, e)| == |OwnedLists(order, dims, cs)| == |cs| == |dims| && Positive(Shape(order, dims))
    ensures var i := Nth(order, |dims|, k);
            Nth(order, |dims|, i) == k &&
            (Digit(Shape(order, dims), k, e) in OwnedLists(order, dims, cs)[k] <==> OwnerCoords(order, dims, e)[i] == cs[i])
  {
    hide Owned, Digit, Prod, Sound;
    var i := Nth(order, |dims|, k);
    ShapePositive(order, dims);
    assert Nth(order, |dims|, i) == k && cs[i] < Procs(dims)[i];
    OwnedExact(dims[i], cs[i]);
    DigitBelow(Shape(order, dims), k, e);
  }

  lemma DigitBelow(gs: seq<nat>, k: nat, e: int)
    requires k < |gs| && Positive(gs)
    ensures 0 <= Digit(gs, k, e) < gs[k]
  {
  }

  lemma OwnerInGrid(order: Order, dims: seq<Dim>, e: int)
    requires SoundDims(dims) && 0 <= e < Prod(Shape(order, dims))
    ensures InGrid(OwnerCoords(order, dims, e), Procs(dims))
  {
    hide Owner, Digit, Prod;
    var n, gs := |dims|, Shape(order, dims);
    ShapePositive(order, dims);
    forall i | 0 <= i < n ensures 0 <= OwnerCoords(order, dims, e)[i] < dims[i].psize {
      var k := Nth(order, n, i);
      assert Nth(order, n, k) == i;
      DigitBelow(gs, k, e);
      OwnerExists(dims[i], Digit(gs, k, e));
    }
  }

  /** The rank that holds the element at linear offset e. */
  function OwnerRank(order: Order, dims: seq<Dim>, e: int): int
    requires SoundDims(dims)
  {
    RankOf(OwnerCoords(order, dims, e), Procs(dims))
  }

  function ElementsOf(order: Order, dims: seq<Dim>, rank: int): seq<int>
    requires SoundDims(dims) && 0 <= rank < GridSize(Procs(dims))
  {
    ShapePositive(order, dims);
    CoordsInGrid(rank, Procs(dims));
    Elements(order, dims, CoordsOf(rank, Procs(dims)))
  }

  /**
   The parts of all ranks are a partition of the global array: no rank holds an element twice,
   and each element is held by exactly one rank.
   */
  lemma DarrayPartition(order: Order, dims: seq<Dim>, rank: int, e: int)
    requires SoundDims(dims) && 0 <= rank < GridSize(Procs(dims))
    ensures Distinct(ElementsOf(order, dims, rank)) && Within(ElementsOf(order, dims, rank), Prod(Shape(order, dims)))
    ensures 0 <= e < Prod(Shape(order, dims)) ==>
              0 <= OwnerRank(order, dims, e) < GridSize(Procs(dims)) &&
              (e in ElementsOf(order, dims, rank) <==> OwnerRank(order, dims, e) == rank)
  {
    hide Elements, OwnerCoords, Prod, Distinct;
    var ps := Procs(dims);
    ShapePositive(order, dims);
    CoordsInGrid(rank, ps);
    ElementsExact(order, dims, CoordsOf(rank, ps), e);
    if 0 <= e < Prod(Shape(order, dims)) {
      OwnerInGrid(order, dims, e);
      RankInGrid(OwnerCoords(order, dims, e), ps);
    }
  }

  /** By dimensions, in either order: a rank holds the elements whose index in each dimension belongs to its grid position. */
  lemma ElementsByDimension(order: Order, dims: seq<Dim>, rank: int, e: int)
    requires SoundDims(dims) && 0 <= rank < GridSize(Procs(dims))
    ensures Positive(Sizes(dims)) && |CoordsOf(rank, Procs(dims))| == |dims|
    ensures e in ElementsOf(order, dims, rank) <==>
            0 <= e < Prod(Sizes(dims)) && forall i :: 0 <= i < |dims| ==> Owner(dims[i], IndexIn(order, Sizes(dims), i, e)) == CoordsOf(rank, Procs(dims))[i]
  {
    hide Elements, Owner, Prod, Digit, IndexIn, Distinct, CoordsOf;
    var cs := CoordsOf(rank, Procs(dims));
    ShapePositive(order, dims);
    CoordsInGrid(rank, Procs(dims));
    ElementsExact(order, dims, cs, e);
    ProdFastest(order, Sizes(dims));
    assert Positive(Sizes(dims)) by {
      SizesPositive(dims);
    }
    forall i | 0 <= i < |dims| ensures OwnerCoords(order, dims, e)[i] == Owner(dims[i], IndexIn(order, Sizes(dims), i, e)) {
      DigitIsIndex(order, Sizes(dims), i, e);
    }
  }

  lemma SizesPositive(dims: seq<Dim>)
    requires SoundDims(dims)
    ensures Positive(Sizes(dims))
  {
  }
}
