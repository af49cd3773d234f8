/**
 When ompi_datatype_create_darray is right: what its loops place in each dimension, and exactly
 which ranks of which grids get the elements they hold.
 */
module DarrayExact {
  import opened TypeMaps
  import opened TypeConstructors
  import opened TypeBlocks
  import opened ArrayOffsets
  import opened Distribution
  import opened DistributedArray

  // ---------------------------------------------------------------------------------------
  // One cyclic dimension

  /** The offsets that cyclic produces when neighbours are `near` apart and copies inside a block `inner`. */
  function CyclicOffsets(local: nat, width: nat, psize: nat, near: int, inner: int): seq<int>
    requires width > 0
  {
    var stride := psize * width * near;
    BlockOffsets(local / width, width, stride, inner) + Steps(local % width, local / width * stride, inner)
  }

  /** They are the indices of the process if and only if the old type is as long as the distance, or no block has two copies. */
  lemma CyclicExact(local: nat, width: nat, psize: nat, near: int, inner: int)
    requires width > 0
    ensures CyclicOffsets(local, width, psize, near, inner) == Scaled(CyclicList(local, width, psize), near) <==>
            inner == near || local <= 1 || width == 1
  {
    CyclicScaled(local, width, psize, near);
    if width == 1 {
      OneStep(0, inner);
      OneStep(0, near);
      assert local % width == 0;
    } else if local <= 1 {
      ShortCyclic(local, width, psize, near, inner);
    } else {
      CyclicSecond(local, width, psize, near, inner);
      CyclicSecond(local, width, psize, near, near);
    }
  }

  lemma CyclicScaled(local: nat, width: nat, psize: nat, near: int)
    requires width > 0
    ensures Scaled(CyclicList(local, width, psize), near) == CyclicOffsets(local, width, psize, near, near)
  {
    var count, rem, cycle := local / width, local % width, psize * width;
    var outer, inner, back := Steps(count, 0, cycle), Steps(width, 0, 1), Steps(rem, count * cycle, 1);
    ScaledCross(outer, inner, near);
    forall c | 0 <= c < count ensures Scaled(outer, near)[c] == Steps(count, 0, cycle * near)[c] {
      Associate(c, cycle, near);
    }
    assert Scaled(outer, near) == Steps(count, 0, cycle * near);
    RunLists(width, near);
    forall j | 0 <= j < rem ensures Scaled(back, near)[j] == Steps(rem, count * (cycle * near), near)[j] {
      Distribute(count * cycle, j, near);
      Associate(count, cycle, near);
    }
    assert Scaled(back, near) == Steps(rem, count * (cycle * near), near);
    assert Scaled(Cross(outer, inner) + back, near) == Scaled(Cross(outer, inner), near) + Scaled(back, near);
  }

  lemma ShortCyclic(local: nat, width: nat, psize: nat, near: int, inner: int)
    requires width > 1 && local <= 1
    ensures CyclicOffsets(local, width, psize, near, inner) == CyclicOffsets(local, width, psize, near, near)
  {
    assert local / width == 0 && local % width == local;
  }

  lemma CyclicSecond(local: nat, width: nat, psize: nat, near: int, inner: int)
    requires width > 1 && local > 1
    ensures |CyclicOffsets(local, width, psize, near, inner)| == local && CyclicOffsets(local, width, psize, near, inner)[1] == inner
  {
    hide Cross;
    DivDef(local, width);
    SecondOf(local / width, local % width, width, psize * width * near, inner);
  }

  lemma SecondOf(count: nat, rem: nat, width: nat, stride: int, inner: int)
    requires width > 1 && (count > 0 || rem > 1)
    ensures var s := BlockOffsets(count, width, stride, inner) + Steps(rem, count * stride, inner);
            |s| == count * width + rem && |s| > 1 && s[1] == inner
  {
    var outer, steps := Steps(count, 0, stride), Steps(width, 0, inner);
    CrossLength(outer, steps);
    if count > 0 {
      assert Cross(outer, steps) == Move(steps, outer[0]) + Cross(outer[1..], steps);
      MulBounds(count, width);
    }
  }

  lemma ProdNone(gs: seq<nat>)
    ensures Prod(gs[..0]) == 1
  {
  }

  /** A cyclic dimension with blocks of several indices is the fastest, or lies directly outside a cyclic one. */
  predicate Nested(order: Order, dims: seq<Dim>)
    requires SoundDims(dims)
  {
    forall k :: 0 <= k < |dims| ==> NestedAt(order, dims, k)
  }

  predicate NestedAt(order: Order, dims: seq<Dim>, k: nat)
    requires SoundDims(dims) && k < |dims|
  {
    var d := dims[Nth(order, |dims|, k)];
    d.kind.Cyclic? && Width(d) > 1 ==> k == 0 || dims[Nth(order, |dims|, k - 1)].kind.Cyclic?
  }

  function RelativeLists(order: Order, dims: seq<Dim>, cs: seq<int>): (r: seq<seq<int>>)
    requires SoundDims(dims) && InGrid(cs, Procs(dims))
    ensures |r| == |dims|
    ensures forall k :: 0 <= k < |r| ==> r[k] == Relative(dims[Nth(order, |dims|, k)], cs[Nth(order, |dims|, k)])
  {
    seq(|dims|, k requires 0 <= k < |dims| => Relative(dims[Nth(order, |dims|, k)], cs[Nth(order, |dims|, k)]))
  }

  function FirstIndices(order: Order, dims: seq<Dim>, cs: seq<int>): (r: seq<int>)
    requires SoundDims(dims) && InGrid(cs, Procs(dims))
    ensures |r| == |dims|
    ensures forall k :: 0 <= k < |r| ==> r[k] == FirstIndex(dims[Nth(order, |dims|, k)], cs[Nth(order, |dims|, k)])
  {
    seq(|dims|, k requires 0 <= k < |dims| => FirstIndex(dims[Nth(order, |dims|, k)], cs[Nth(order, |dims|, k)]))
  }

  lemma OwnedFromFirst(order: Order, dims: seq<Dim>, cs: seq<int>)
    requires SoundDims(dims) && InGrid(cs, Procs(dims))
    ensures Moved(RelativeLists(order, dims, cs), FirstIndices(order, dims, cs)) == OwnedLists(order, dims, cs)
  {
  }

  // ---------------------------------------------------------------------------------------
  // All dimensions

  function DimAt(order: Order, dims: seq<Dim>, k: nat): Dim
    requires k < |dims|
  {
    dims[Nth(order, |dims|, k)]
  }

  function CoordAt(order: Order, cs: seq<int>, k: nat): int
    requires k < |cs|
  {
    cs[Nth(order, |cs|, k)]
  }

  /** How many indices of a dimension a process owns. */
  function Local(d: Dim, c: nat): nat
    requires Sound(d)
  {
    if d.kind.Cyclic? then CyclicCount(d.gsize, Width(d), d.psize, c) else BlockCount(d.gsize, Width(d), c)
  }

  lemma LocalCounts(d: Dim, c: nat)
    requires Sound(d)
    ensures |Relative(d, c)| == Local(d, c) && (Local(d, c) > 0 ==> Relative(d, c)[0] == 0)
  {
    hide CyclicCount, BlockCount;
    if d.kind.Cyclic? {
      CyclicListLength(Local(d, c), Width(d), d.psize);
    }
  }

  lemma CyclicListLength(local: nat, width: nat, psize: nat)
    requires width > 0
    ensures |CyclicList(local, width, psize)| == local && (local > 0 ==> CyclicList(local, width, psize)[0] == 0)
  {
    hide Cross;
    DivDef(local, width);
    FirstOf(local / width, local % width, width, psize * width, 1);
  }

  /** Length and first element of whole blocks and a rest. */
  lemma FirstOf(count: nat, rem: nat, width: nat, stride: int, inner: int)
    requires width > 0
    ensures var s := BlockOffsets(count, width, stride, inner) + Steps(rem, count * stride, inner);
            |s| == count * width + rem && (|s| > 0 ==> s[0] == 0)
  {
    var outer, steps := Steps(count, 0, stride), Steps(width, 0, inner);
    CrossLength(outer, steps);
    if count > 0 {
      assert Cross(outer, steps) == Move(steps, outer[0]) + Cross(outer[1..], steps);
    }
  }

  /** What block or cyclic places, with neighbours `near` apart, given a type of extent `inner`. */
  function StepOffsets(d: Dim, c: nat, near: int, inner: int): seq<int>
    requires Sound(d)
  {
    if d.kind.Cyclic? then CyclicOffsets(Local(d, c), Width(d), d.psize, near, inner) else Scaled(Relative(d, c), near)
  }

  lemma StepExact(d: Dim, c: nat, near: int, inner: int)
    requires Sound(d)
    ensures StepOffsets(d, c, near, inner) == Scaled(Relative(d, c), near) <==>
            !d.kind.Cyclic? || inner == near || Local(d, c) <= 1 || Width(d) == 1
    ensures |StepOffsets(d, c, near, inner)| == Local(d, c) && (Local(d, c) > 0 ==> StepOffsets(d, c, near, inner)[0] == 0)
  {
    hide CyclicCount, BlockCount, CyclicList;
    LocalCounts(d, c);
    if d.kind.Cyclic? {
      CyclicExact(Local(d, c), Width(d), d.psize, near, inner);
      DivDef(Local(d, c), Width(d));
      FirstOf(Local(d, c) / Width(d), Local(d, c) % Width(d), Width(d), d.psize * Width(d) * near, inner);
    }
  }

  predicate Placed(dims: seq<Dim>, cs: seq<int>) {
    SoundDims(dims) && InGrid(cs, Procs(dims))
  }

  lemma AxisSound(order: Order, dims: seq<Dim>, cs: seq<int>, k: nat)
    requires Placed(dims, cs) && k < |dims|
    ensures Sound(DimAt(order, dims, k)) && 0 <= CoordAt(order, cs, k) < DimAt(order, dims, k).psize
  {
    assert cs[Nth(order, |dims|, k)] < Procs(dims)[Nth(order, |dims|, k)];
  }

  /** The distance in bytes between neighbours in dimension k. */
  function Near(order: Order, dims: seq<Dim>, k: nat, extent: int): int
    requires k <= |dims|
  {
    Prod(Shape(order, dims)[..k]) * extent
  }

  function LocalAt(order: Order, dims: seq<Dim>, cs: seq<int>, k: nat): nat
    requires Placed(dims, cs) && k < |dims|
  {
    AxisSound(order, dims, cs, k);
    Local(DimAt(order, dims, k), CoordAt(order, cs, k))
  }

  /**
   The extent of the type for the first k dimensions, where no dimension is empty: block leaves
   the type as long as what the process owns, cyclic makes it as long as the dimension.
   */
  function Inner(order: Order, dims: seq<Dim>, cs: seq<int>, k: nat, extent: int): int
    requires Placed(dims, cs) && k <= |dims|
  {
    if k == 0 then extent
    else if DimAt(order, dims, k - 1).kind.Cyclic? then Near(order, dims, k, extent)
    else Inner(order, dims, cs, k - 1, extent) + (LocalAt(order, dims, cs, k - 1) - 1) * Near(order, dims, k - 1, extent)
  }

  /** The offsets that the first k dimensions end up with. */
  function Built(order: Order, dims: seq<Dim>, cs: seq<int>, k: nat, extent: int): seq<int>
    requires Placed(dims, cs) && k <= |dims|
  {
    if k == 0 then [0]
    else
      AxisSound(order, dims, cs, k - 1);
      Cross(StepOffsets(DimAt(order, dims, k - 1), CoordAt(order, cs, k - 1), Near(order, dims, k - 1, extent), Inner(order, dims, cs, k - 1, extent)),
            Built(order, dims, cs, k - 1, extent))
  }

  /** The dimensions directly inside dimension k, down to a cyclic one or the fastest, all belong to the process. */
  predicate RunOwned(order: Order, dims: seq<Dim>, cs: seq<int>, k: nat)
    requires Placed(dims, cs) && k <= |dims|
  {
    k == 0 || DimAt(order, dims, k - 1).kind.Cyclic? ||
    (LocalAt(order, dims, cs, k - 1) == DimAt(order, dims, k - 1).gsize && RunOwned(order, dims, cs, k - 1))
  }

  /** Dimension k is not cyclic with several indices in a block, or what is inside it belongs to the process. */
  predicate RightAt(order: Order, dims: seq<Dim>, cs: seq<int>, k: nat)
    requires Placed(dims, cs) && k < |dims|
  {
    AxisSound(order, dims, cs, k);
    DimAt(order, dims, k).kind.Cyclic? && Width(DimAt(order, dims, k)) > 1 && LocalAt(order, dims, cs, k) > 1 ==> RunOwned(order, dims, cs, k)
  }

  /** The process owns nothing in one of the first k dimensions. */
  predicate EmptyBelow(order: Order, dims: seq<Dim>, cs: seq<int>, k: nat)
    requires Placed(dims, cs) && k <= |dims|
  {
    k > 0 && (LocalAt(order, dims, cs, k - 1) == 0 || EmptyBelow(order, dims, cs, k - 1))
  }

  predicate RightBelow(order: Order, dims: seq<Dim>, cs: seq<int>, k: nat)
    requires Placed(dims, cs) && k <= |dims|
  {
    k == 0 || (RightAt(order, dims, cs, k - 1) && RightBelow(order, dims, cs, k - 1))
  }

  /** The process at cs gets the elements it holds. */
  predicate Right(order: Order, dims: seq<Dim>, cs: seq<int>)
    requires Placed(dims, cs)
  {
    EmptyBelow(order, dims, cs, |dims|) || RightBelow(order, dims, cs, |dims|)
  }

  lemma LocalBelow(d: Dim, c: nat)
    requires Sound(d) && !d.kind.Cyclic?
    ensures Local(d, c) <= d.gsize
  {
    MulBounds(c, Width(d));
  }

  lemma NearNext(order: Order, dims: seq<Dim>, k: nat, extent: int)
    requires SoundDims(dims) && k < |dims| && extent > 0
    ensures Near(order, dims, k, extent) > 0 && Near(order, dims, k + 1, extent) == DimAt(order, dims, k).gsize * Near(order, dims, k, extent)
  {
    ShapePositive(order, dims);
    ProdPositive(Shape(order, dims), k);
    ProdNext(Shape(order, dims), k);
    MulBounds(Prod(Shape(order, dims)[..k]), extent);
    Rearrange(Prod(Shape(order, dims)[..k]), DimAt(order, dims, k).gsize, extent);
  }

  lemma Rearrange(a: int, b: int, c: int)
    ensures a * b * c == b * (a * c)
  {
  }

  /** How far n of g steps fall short. */
  lemma ShortBy(g: int, n: int, s: int, x: int)
    requires n <= g && 0 < s && x <= s
    ensures x + (n - 1) * s <= g * s && (x + (n - 1) * s == g * s <==> n == g && x == s)
  {
    Distribute(g - n, n - 1, s);
    MulBounds(g - n, s);
    Distribute(g - 1, 1, s);
  }

  /** The type for the dimensions inside k is as long as they are if and only if the process owns them. */
  lemma {:induction false} InnerExact(order: Order, dims: seq<Dim>, cs: seq<int>, k: nat, extent: int)
    requires Placed(dims, cs) && k <= |dims| && extent > 0
    ensures Inner(order, dims, cs, k, extent) <= Near(order, dims, k, extent)
    ensures Inner(order, dims, cs, k, extent) == Near(order, dims, k, extent) <==> RunOwned(order, dims, cs, k)
  {
    if k == 0 {
      ProdNone(Shape(order, dims));
    } else if !DimAt(order, dims, k - 1).kind.Cyclic? {
      AxisSound(order, dims, cs, k - 1);
      InnerExact(order, dims, cs, k - 1, extent);
      NearNext(order, dims, k - 1, extent);
      LocalBelow(DimAt(order, dims, k - 1), CoordAt(order, cs, k - 1));
      ShortBy(DimAt(order, dims, k - 1).gsize, LocalAt(order, dims, cs, k - 1), Near(order, dims, k - 1, extent), Inner(order, dims, cs, k - 1, extent));
    }
  }

  /** Products of lists that start at 0 tell their factors. */
  lemma CrossInjective(a: seq<int>, o: seq<int>, b: seq<int>, r: seq<int>)
    requires |a| == |b| > 0 && |o| == |r| > 0 && a[0] == b[0] == 0
    ensures Cross(a, o) == Cross(b, r) <==> a == b && o == r
  {
    if Cross(a, o) == Cross(b, r) {
      assert Cross(a, o) == Move(o, 0) + Cross(a[1..], o) && Cross(b, r) == Move(r, 0) + Cross(b[1..], r);
      assert Move(o, 0) == o && Move(r, 0) == r;
      assert o == (o + Cross(a[1..], o))[..|o|] && r == (r + Cross(b[1..], r))[..|r|];
      FactorsTold(a, b, o);
    }
  }

  lemma {:induction false} FactorsTold(a: seq<int>, b: seq<int>, o: seq<int>)
    requires |a| == |b| && o != [] && Cross(a, o) == Cross(b, o)
    ensures a == b
  {
    if a != [] {
      var x, y := Move(o, a[0]), Move(o, b[0]);
      var u, v := Cross(a[1..], o), Cross(b[1..], o);
      assert x + u == y + v;
      assert x == (x + u)[..|o|] && y == (y + v)[..|o|] && u == (x + u)[|o|..] && v == (y + v)[|o|..];
      assert x[0] == o[0] + a[0] && y[0] == o[0] + b[0];
      FactorsTold(a[1..], b[1..], o);
    }
  }

  /** The right offsets of one more dimension. */
  lemma LinStep(order: Order, dims: seq<Dim>, cs: seq<int>, k: nat, extent: int)
    requires Placed(dims, cs) && k < |dims|
    ensures Sound(DimAt(order, dims, k)) && CoordAt(order, cs, k) >= 0
    ensures var lists, gs := RelativeLists(order, dims, cs), Shape(order, dims);
            Scaled(Lin(lists, gs, k + 1), extent) ==
            Cross(Scaled(Relative(DimAt(order, dims, k), CoordAt(order, cs, k)), Near(order, dims, k, extent)), Scaled(Lin(lists, gs, k), extent))
  {
    hide Relative;
    AxisSound(order, dims, cs, k);
    var lists, gs := RelativeLists(order, dims, cs), Shape(order, dims);
    ScaledCross(Scaled(lists[k], Prod(gs[..k])), Lin(lists, gs, k), extent);
    ScaledScaled(lists[k], Prod(gs[..k]), extent);
  }

  /** Where no dimension is empty, the offsets built are the right ones if and only if every dimension is right. */
  lemma {:induction false} BuiltExact(order: Order, dims: seq<Dim>, cs: seq<int>, k: nat, extent: int)
    requires Placed(dims, cs) && k <= |dims| && extent > 0 && !EmptyBelow(order, dims, cs, k)
    ensures var right := Scaled(Lin(RelativeLists(order, dims, cs), Shape(order, dims), k), extent);
            && |Built(order, dims, cs, k, extent)| == |right| > 0
            && (Built(order, dims, cs, k, extent) == right <==> RightBelow(order, dims, cs, k))
  {
    hide Lin, Relative, StepOffsets, Inner, RunOwned, Near, Cross, Local;
    if k == 0 {
      BuiltNone(order, dims, cs, extent);
    } else {
      var j := k - 1;
      var d, c := DimAt(order, dims, j), CoordAt(order, cs, j);
      AxisSound(order, dims, cs, j);
      BuiltExact(order, dims, cs, j, extent);
      LinStep(order, dims, cs, j, extent);
      InnerExact(order, dims, cs, j, extent);
      var near, inner := Near(order, dims, j, extent), Inner(order, dims, cs, j, extent);
      StepExact(d, c, near, inner);
      LocalCounts(d, c);
      var a, b := StepOffsets(d, c, near, inner), Scaled(Relative(d, c), near);
      var o, r := Built(order, dims, cs, j, extent), Scaled(Lin(RelativeLists(order, dims, cs), Shape(order, dims), j), extent);
      CrossInjective(a, o, b, r);
      CrossSize(a, o, b, r);
    }
  }

  lemma BuiltNone(order: Order, dims: seq<Dim>, cs: seq<int>, extent: int)
    requires Placed(dims, cs)
    ensures Built(order, dims, cs, 0, extent) == [0] == Scaled(Lin(RelativeLists(order, dims, cs), Shape(order, dims), 0), extent)
  {
    assert Scaled([0], extent) == [0];
  }

  lemma CrossSize(a: seq<int>, o: seq<int>, b: seq<int>, r: seq<int>)
    requires |a| == |b| > 0 && |o| == |r| > 0
    ensures |Cross(a, o)| == |Cross(b, r)| > 0
  {
    CrossLength(a, o);
    CrossLength(b, r);
    MulBounds(|a|, |o|);
  }

  /** A process that owns nothing in one dimension holds nothing. */
  lemma {:induction false} EmptyHoldsNothing(order: Order, dims: seq<Dim>, cs: seq<int>, k: nat)
    requires Placed(dims, cs) && k <= |dims| && EmptyBelow(order, dims, cs, k)
    ensures Lin(RelativeLists(order, dims, cs), Shape(order, dims), k) == []
  {
    hide Relative, Local;
    var j := k - 1;
    AxisSound(order, dims, cs, j);
    LocalCounts(DimAt(order, dims, j), CoordAt(order, cs, j));
    var lists, gs := RelativeLists(order, dims, cs), Shape(order, dims);
    if LocalAt(order, dims, cs, j) == 0 {
      assert Scaled(lists[j], Prod(gs[..j])) == [];
    } else {
      EmptyHoldsNothing(order, dims, cs, j);
      EmptyBlocks(Scaled(lists[j], Prod(gs[..j])));
    }
  }
}
