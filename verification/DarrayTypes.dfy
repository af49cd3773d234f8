/**
 The loops of ompi_datatype_create_darray, block and cyclic, proved to build the type whose
 elements DistributedArray defines.
 */
module DarrayTypes {
  import opened Common
  import opened TypeMaps
  import opened TypeConstructors
  import opened TypeBlocks
  import opened ArrayOffsets
  import opened Distribution
  import opened DistributedArray
  import opened DarrayExact
  import Subarray

  /** The user bounds of a type come from the old type. */
  predicate BoundsFrom(r: Type, t: Type) {
    (r.userLb ==> t.userLb) && (r.userUb ==> t.userUb)
  }

  /** The distance between neighbours in dimension k: the loops of lines 62-64, 107-116 and 137-147. */
  method Stride(order: Order, sizes: seq<nat>, k: nat, start: int) returns (stride: int)
    requires k <= |sizes|
    ensures stride == start * Prod(Fastest(order, sizes)[..k])
  {
    ghost var gs := Fastest(order, sizes);
    stride := start;
    for j := 0 to k
      invariant stride == start * Prod(gs[..j])
    {
      ProdNext(gs, j);
      Associate(start, Prod(gs[..j]), gs[j]);
      stride := stride * sizes[Nth(order, |sizes|, j)];
    }
  }

  // ---------------------------------------------------------------------------------------
  // Bounds

  /** No bounds set by the user, data from 0 on, an extent that the alignment divides. */
  predicate Ordinary(t: Type) {
    !t.userLb && !t.userUb && t.lb == 0 && t.ub > 0 && t.align > 0 && t.ub % t.align == 0
  }

  lemma MultipleOf(n: int, s: int, m: int)
    requires m > 0 && s % m == 0
    ensures n * s % m == 0
  {
    DivDef(s, m);
    Associate(n, s / m, m);
    DivMod(n * (s / m), m, 0);
  }

  lemma MultipleSum(a: int, b: int, m: int)
    requires m > 0 && a % m == 0 && b % m == 0
    ensures (a + b) % m == 0
  {
    DivDef(a, m);
    DivDef(b, m);
    Distribute(a / m, b / m, m);
    DivMod(a / m + b / m, m, 0);
  }

  /** A run of copies of an ordinary type is ordinary, and ends with its last copy. */
  lemma OrdinaryRun(t: Type, count: nat, step: int)
    requires Ordinary(t) && count > 0 && step > 0 && step % t.align == 0
    ensures var r := Add(Create(), t, count, 0, step);
            Ordinary(r) && r.align == t.align && r.ub == t.ub + (count - 1) * step
  {
    hide Place, Steps, Rounded;
    MulBounds(count - 1, step);
    MultipleOf(count - 1, step, t.align);
    MultipleSum(t.ub, (count - 1) * step, t.align);
    NotRounded(t.ub + (count - 1) * step, t.align);
  }

  lemma NotRounded(ub: int, align: int)
    requires align > 0 && ub >= 0 && ub % align == 0
    ensures Rounded(0, ub, false, align) == ub
  {
  }

  lemma OrdinaryContiguous(count: nat, t: Type)
    requires Ordinary(t) && count > 0
    ensures var r := CreateContiguous(count, t); Ordinary(r) && r.align == t.align && r.ub == t.ub + (count - 1) * t.ub
  {
    hide Add;
    OrdinaryRun(t, count, t.ub);
  }

  lemma OrdinaryHvector(count: nat, stride: int, t: Type)
    requires Ordinary(t) && count > 0 && stride > 0 && stride % t.align == 0
    ensures var r := CreateHvector(count, 1, stride, t); Ordinary(r) && r.align == t.align && r.ub == t.ub + (count - 1) * stride
  {
    hide Add;
    OrdinaryRun(t, count, stride);
    OrdinaryRun(t, count, t.ub);
  }

  // ---------------------------------------------------------------------------------------
  // block

  /** Contiguous in the fastest dimension, otherwise an hvector of single copies. */
  function BlockMade(fastest: bool, count: nat, stride: int, last: Type): Type
    requires Proper(last)
  {
    if fastest then CreateContiguous(count, last) else CreateHvector(count, 1, stride, last)
  }

  lemma BlockMap(fastest: bool, count: nat, stride: int, last: Type)
    requires Proper(last) && (fastest ==> Extent(last) == stride)
    ensures var r := BlockMade(fastest, count, stride, last);
            Proper(r) && BoundsFrom(r, last) && (stride != -1 ==> r.items == Place(last.items, Scaled(Steps(count, 0, 1), stride)))
  {
    hide Place, CreateContiguous, CreateHvector, Steps, Scaled;
    RunLists(count, stride);
    if fastest {
      Subarray.ContiguousStep(count, last);
    } else {
      Subarray.HvectorStep(count, stride, last);
    }
  }

  lemma BlockBounds(fastest: bool, count: nat, stride: int, last: Type)
    requires Ordinary(last) && count > 0 && stride > 0 && stride % last.align == 0 && (fastest ==> Extent(last) == stride)
    ensures var r := BlockMade(fastest, count, stride, last); Ordinary(r) && r.align == last.align && r.ub == last.ub + (count - 1) * stride
  {
    hide CreateContiguous, CreateHvector;
    if fastest {
      OrdinaryContiguous(count, last);
    } else {
      OrdinaryHvector(count, stride, last);
    }
  }

  /** block: the type for one more dimension, and the first index of the process in it. */
  method BlockType(order: Order, sizes: seq<nat>, k: nat, nprocs: nat, rank: nat, darg: Darg, extent: int, last: Type)
    returns (r: Type, st: int)
    requires k < |sizes| && nprocs > 0 && Proper(last)
    ensures var gs := Fastest(order, sizes);
            var width := if darg.Default? then (gs[k] + nprocs - 1) / nprocs else darg.size;
            var count := BlockCount(gs[k], width, rank);
            && r == BlockMade(k == 0, count, Prod(gs[..k]) * extent, last) && st == (if count == 0 then 0 else width * rank)
  {
    hide Prod;
    var gsize := sizes[Nth(order, |sizes|, k)];
    var blksize := if darg.Default? then (gsize + nprocs - 1) / nprocs else darg.size;
    var j := gsize - blksize * rank;
    var mysize := if blksize < j then blksize else j;
    if mysize < 0 {
      mysize := 0;
    }
    var stride := Stride(order, sizes, k, extent);
    Commute(extent, Prod(Fastest(order, sizes)[..k]));
    r := if k == 0 then CreateContiguous(mysize, last) else CreateHvector(mysize, 1, stride, last);
    st := if mysize == 0 then 0 else blksize * rank;
  }

  // ---------------------------------------------------------------------------------------
  // cyclic

  /** Lines 93-102. */
  method CyclicLocal(gsize: nat, width: nat, nprocs: nat, rank: nat) returns (local: nat)
    requires width > 0 && nprocs > 0
    ensures local == CyclicCount(gsize, width, nprocs, rank)
  {
    MulBounds(nprocs, width);
    var st, end, cycle := rank * width, gsize - 1, nprocs * width;
    if end < st {
      return 0;
    }
    var len := end - st + 1;
    WholeBlocks(len, cycle, width);
    local := len / cycle * width;
    var rem := len % cycle;
    local := local + if rem < width then rem else width;
  }

  lemma WholeBlocks(len: nat, cycle: nat, width: nat)
    requires cycle > 0 && width > 0
    ensures len / cycle >= 0 && len / cycle * width >= 0 && 0 <= len % cycle < cycle
  {
    MulBounds(len / cycle, width);
  }

  /** Lines 104-135: whole blocks as an hvector, the rest of a block in a struct behind them. */
  method CyclicBlocks(local: nat, width: nat, nprocs: nat, near: int, last: Type) returns (r: Type)
    requires width > 0 && Proper(last)
    ensures Proper(r) && BoundsFrom(r, last)
    ensures nprocs * width * near != -1 ==> r.items == Place(last.items, CyclicOffsets(local, width, nprocs, near, Extent(last)))
    ensures local > 0 ==> r.align == last.align
  {
    hide Add, Place, CreateHvector, BlockOffsets, Steps, StructMap, StructLoop;
    var count, rem, stride := local / width, local % width, nprocs * width * near;
    HvectorKept(count, width, stride, last);
    r := CreateHvector(count, width, stride, last);
    ghost var front, back := BlockOffsets(count, width, stride, Extent(last)), Steps(rem, count * stride, Extent(last));
    PlaceConcat(last.items, front, back);
    if rem != 0 {
      var hs := [Data(0), Data(1)];
      ghost var whole := r;
      r := CreateStruct([r, last], [1, rem], [0, count * stride], hs);
      TwoEntries(whole, last, rem, count * stride);
    } else {
      NoRest(last.items, front, count * stride, Extent(last));
      DivDef(local, width);
    }
  }

  lemma HvectorKept(count: nat, width: nat, stride: int, t: Type)
    requires Proper(t)
    ensures var r := CreateHvector(count, width, stride, t);
            && Proper(r) && BoundsFrom(r, t) && (stride != -1 ==> r.items == Place(t.items, BlockOffsets(count, width, stride, Extent(t))))
            && (r.align == 1 || r.align == t.align) && (count > 0 && width > 0 ==> r.align == t.align)
  {
    hide Place, BlockOffsets;
    HvectorMap(count, width, stride, t);
  }

  lemma NoRest(items: seq<Item>, front: seq<int>, disp: int, extent: int)
    ensures front + Steps(0, disp, extent) == front
  {
  }

  lemma TwoEntries(whole: Type, last: Type, rem: nat, disp: int)
    requires Proper(whole) && Proper(last) && BoundsFrom(whole, last) && rem > 0
    ensures StructMap([whole, last], [1, rem], [0, disp], [Data(0), Data(1)]) ==
            whole.items + Place(last.items, Steps(rem, disp, Extent(last)))
    ensures var r := StructLoop([whole, last], [1, rem], [0, disp], [Data(0), Data(1)], 1, Create(), Data(0), 1, 0);
            Proper(r) && BoundsFrom(r, last) && (whole.align == 1 || whole.align == last.align ==> r.align == last.align)
  {
    hide Place, Steps, StructMap, Add;
    TwoMap(whole, last, rem, disp);
    var types, lens, disps, hs := [whole, last], [1, rem], [0, disp], [Data(0), Data(1)];
    var first := AddHandle(Create(), types, Data(0), 1, 0);
    AddFlags(Create(), whole, 1, 0);
    AddFlags(first, last, rem, disp);
    assert StructLoop(types, lens, disps, hs, 1, Create(), Data(0), 1, 0) == StructLoop(types, lens, disps, hs, 2, first, Data(1), rem, disp);
  }

  lemma AddFlags(base: Type, t: Type, count: nat, disp: int)
    requires Proper(base) && Proper(t)
    ensures var r := Add(base, t, count, disp, Extent(t));
            && Proper(r) && (r.userLb ==> base.userLb || t.userLb) && (r.userUb ==> base.userUb || t.userUb)
            && (count > 0 ==> r.align == Max(base.align, t.align))
  {
    hide Place, Steps, Rounded;
  }

  lemma TwoMap(whole: Type, last: Type, rem: nat, disp: int)
    requires Proper(whole) && Proper(last) && rem > 0
    ensures StructMap([whole, last], [1, rem], [0, disp], [Data(0), Data(1)]) ==
            whole.items + Place(last.items, Steps(rem, disp, Extent(last)))
  {
    hide Place, Steps, StructMap;
    var types, lens, disps, hs := [whole, last], [1, rem], [0, disp], [Data(0), Data(1)];
    OneStep(0, Extent(whole));
    PlaceOnce(whole.items);
    StructSnoc(types, lens, disps, hs, 0);
    StructSnoc(types, lens, disps, hs, 1);
    assert lens[..2] == lens && disps[..2] == disps && hs[..2] == hs;
    StructNone(types, lens, disps, hs);
    assert [] + whole.items == whole.items;
  }

  lemma Commute(a: int, b: int)
    ensures a * b == b * a
  {
  }

  lemma StrideNotMinusOne(n: nat, m: nat, extent: int)
    requires extent != -1
    ensures n * (extent * m) != -1
  {
    Associate(n, m, extent);
    Subarray.NotMinusOne(n * m, extent);
  }

  /** cyclic: the blocks of the process, with the extent of the whole dimension. */
  method CyclicType(order: Order, sizes: seq<nat>, k: nat, nprocs: nat, rank: nat, darg: Darg, extent: int, last: Type)
    returns (r: Type, st: int)
    requires k < |sizes| && nprocs > 0 && Proper(last) && (darg.Given? ==> darg.size > 0)
    ensures var gs := Fastest(order, sizes);
            var width := if darg.Default? then 1 else darg.size;
            var local := CyclicCount(gs[k], width, nprocs, rank);
            && (extent != -1 ==> r.items == Place(last.items, CyclicOffsets(local, width, nprocs, Prod(gs[..k]) * extent, Extent(last))))
            && st == (if local == 0 then 0 else width * rank)
            && r.lb == 0 && r.ub == Prod(gs[..k + 1]) * extent && (local > 0 ==> r.align == last.align)
    ensures Proper(r) && BoundsFrom(r, last)
  {
    hide Place, Prod, CyclicOffsets, CyclicCount, Steps, Scaled, Cross;
    var width := if darg.Default? then 1 else darg.size;
    var local := CyclicLocal(sizes[Nth(order, |sizes|, k)], width, nprocs, rank);
    var near := Stride(order, sizes, k, extent);
    if extent != -1 {
      StrideNotMinusOne(nprocs * width, Prod(Fastest(order, sizes)[..k]), extent);
    }
    r := CyclicBlocks(local, width, nprocs, near, last);
    var size := Stride(order, sizes, k + 1, extent);
    Commute(extent, Prod(Fastest(order, sizes)[..k]));
    Commute(extent, Prod(Fastest(order, sizes)[..k + 1]));
    Commute(width, rank);
    r := Resize(r, 0, size);
    st := if local == 0 then 0 else rank * width;
  }

  // ---------------------------------------------------------------------------------------
  // The whole type

  /** Lines 186-196: the position of the rank in the grid. */
  method GridPosition(rank: nat, size: nat, ps: seq<nat>) returns (coords: seq<int>)
    requires Positive(ps) && size == GridSize(ps) && rank < size
    ensures coords == CoordsOf(rank, ps)
  {
    var tmpRank: int, procs: int := rank, size;
    coords := [];
    for i := 0 to |ps|
      invariant procs == GridSize(ps[i..]) && Positive(ps[i..]) && coords + CoordsOf(tmpRank, ps[i..]) == CoordsOf(rank, ps)
    {
      NextAxis(ps, i);
      ghost var rest := ps[i..];
      procs := procs / ps[i];
      coords := coords + [tmpRank / procs];
      assert rest[1..] == ps[i + 1..];
      tmpRank := tmpRank % procs;
    }
  }

  lemma PositiveTail(s: seq<nat>)
    requires s != [] && Positive(s)
    ensures Positive(s[1..])
  {
  }

  lemma NextAxis(ps: seq<nat>, i: nat)
    requires i < |ps| && Positive(ps[i..])
    ensures ps[i] > 0 && Positive(ps[i + 1..]) && GridSize(ps[i + 1..]) > 0 && GridSize(ps[i..]) / ps[i] == GridSize(ps[i + 1..])
  {
    var rest := ps[i..];
    assert rest[0] == ps[i] && rest[1..] == ps[i + 1..];
    PositiveTail(rest);
    GridPositive(ps[i + 1..]);
    DivMod(GridSize(ps[i + 1..]), ps[i], 0);
  }

  /** One turn of the loop of lines 214-247. */
  method Dimension(order: Order, dims: seq<Dim>, cs: seq<int>, k: nat, extent: int, last: Type) returns (r: Type, st: int)
    requires Placed(dims, cs) && k < |dims| && Proper(last) && (k == 0 ==> Extent(last) == extent)
    ensures Proper(r) && BoundsFrom(r, last) && (extent != -1 ==> Turned(order, dims, cs, k, extent, last, r))
    ensures Sound(DimAt(order, dims, k)) && CoordAt(order, cs, k) >= 0 && st == FirstIndex(DimAt(order, dims, k), CoordAt(order, cs, k))
  {
    hide Place, Prod, CyclicCount, BlockCount, CyclicOffsets, CyclicList, Ordinary, Scaled, Steps, BlockMade;
    var i := Nth(order, |dims|, k);
    var d, sizes := dims[i], Sizes(dims);
    AxisSound(order, dims, cs, k);
    LocalCounts(d, cs[i]);
    match d.kind {
      case Block =>
        r, st := BlockType(order, sizes, k, d.psize, cs[i], d.darg, extent, last);
      case Cyclic =>
        r, st := CyclicType(order, sizes, k, d.psize, cs[i], d.darg, extent, last);
      case None =>
        var nprocs, rank := if order.OrderC? then d.psize else 1, if order.OrderC? then cs[i] else 0;
        r, st := BlockType(order, sizes, k, nprocs, rank, Default, extent, last);
    }
    if !d.kind.Cyclic? {
      ghost var near := Near(order, dims, k, extent);
      ProdNone(Shape(order, dims));
      if extent != -1 {
        Subarray.NotMinusOne(Prod(Shape(order, dims)[..k]), extent);
      }
      BlockMap(k == 0, Local(d, cs[i]), near, last);
      if Ordinary(last) && Local(d, cs[i]) > 0 && near > 0 && near % last.align == 0 {
        BlockBounds(k == 0, Local(d, cs[i]), near, last);
      }
    }
  }

  /** Where the loop stands after k dimensions: the offsets built so far, and the bounds of the type. */
  ghost predicate Stage(order: Order, dims: seq<Dim>, cs: seq<int>, k: nat, t: Type, last: Type, offs: seq<int>)
    requires Placed(dims, cs) && k <= |dims|
  {
    && Proper(last) && BoundsFrom(last, t) && (k == 0 ==> last == t) && last.items == Place(t.items, offs)
    && (EmptyBelow(order, dims, cs, k) ==> offs == [])
    && (Ordinary(t) && !EmptyBelow(order, dims, cs, k) ==>
          Ordinary(last) && last.align == t.align && last.ub == Inner(order, dims, cs, k, t.ub) && offs == Built(order, dims, cs, k, t.ub))
    && (Nested(order, dims) ==>
          LongEnough(order, dims, k, last, Extent(t)) && offs == Scaled(Lin(RelativeLists(order, dims, cs), Shape(order, dims), k), Extent(t)))
  }

  /** The type of the dimensions so far is as long as the dimensions. */
  predicate LongEnough(order: Order, dims: seq<Dim>, k: nat, last: Type, extent: int)
    requires k <= |dims|
  {
    k == 0 || DimAt(order, dims, k - 1).kind.Cyclic? ==> Extent(last) == Near(order, dims, k, extent)
  }

  lemma StageStart(order: Order, dims: seq<Dim>, cs: seq<int>, t: Type)
    requires Placed(dims, cs) && Proper(t)
    ensures Stage(order, dims, cs, 0, t, t, [0])
  {
    hide Place;
    PlaceOnce(t.items);
    BuiltNone(order, dims, cs, Extent(t));
    ProdNone(Shape(order, dims));
  }

  /** What one turn makes of the type. */
  ghost predicate Turned(order: Order, dims: seq<Dim>, cs: seq<int>, k: nat, extent: int, last: Type, r: Type)
    requires Placed(dims, cs) && k < |dims|
  {
    AxisSound(order, dims, cs, k);
    var d, c, near := DimAt(order, dims, k), CoordAt(order, cs, k), Near(order, dims, k, extent);
    && Proper(r) && BoundsFrom(r, last) && r.items == Place(last.items, StepOffsets(d, c, near, Extent(last)))
    && (d.kind.Cyclic? ==> r.lb == 0 && r.ub == Near(order, dims, k + 1, extent) && (Local(d, c) > 0 ==> r.align == last.align))
    && (!d.kind.Cyclic? && Ordinary(last) && Local(d, c) > 0 && near > 0 && near % last.align == 0 ==>
          Ordinary(r) && r.align == last.align && r.ub == last.ub + (Local(d, c) - 1) * near)
  }

  function NextOffsets(order: Order, dims: seq<Dim>, cs: seq<int>, k: nat, extent: int, last: Type, offs: seq<int>): seq<int>
    requires Placed(dims, cs) && k < |dims|
  {
    AxisSound(order, dims, cs, k);
    Cross(StepOffsets(DimAt(order, dims, k), CoordAt(order, cs, k), Near(order, dims, k, extent), Extent(last)), offs)
  }

  lemma StageNext(order: Order, dims: seq<Dim>, cs: seq<int>, k: nat, t: Type, last: Type, offs: seq<int>, r: Type)
    requires Placed(dims, cs) && k < |dims| && Stage(order, dims, cs, k, t, last, offs) && Turned(order, dims, cs, k, Extent(t), last, r)
    ensures Stage(order, dims, cs, k + 1, t, r, NextOffsets(order, dims, cs, k, Extent(t), last, offs))
  {
    hide Place, Cross, Lin, Near, Local, StepOffsets, Relative, Ordinary, Scaled, Inner, Nested, Built, LongEnough, EmptyBelow;
    AxisSound(order, dims, cs, k);
    var d, c, near := DimAt(order, dims, k), CoordAt(order, cs, k), Near(order, dims, k, Extent(t));
    PlacePlace(t.items, offs, StepOffsets(d, c, near, Extent(last)));
    StageEmpty(order, dims, cs, k, t, last, offs);
    if Ordinary(t) && !EmptyBelow(order, dims, cs, k + 1) {
      StageOrdinary(order, dims, cs, k, t, last, offs, r);
    }
    if Nested(order, dims) {
      StageNested(order, dims, cs, k, t, last, offs, r);
    }
  }

  lemma StageEmpty(order: Order, dims: seq<Dim>, cs: seq<int>, k: nat, t: Type, last: Type, offs: seq<int>)
    requires Placed(dims, cs) && k < |dims| && (EmptyBelow(order, dims, cs, k) ==> offs == [])
    ensures EmptyBelow(order, dims, cs, k + 1) ==> NextOffsets(order, dims, cs, k, Extent(t), last, offs) == []
  {
    hide StepOffsets, Local, Near;
    AxisSound(order, dims, cs, k);
    var d, c, near := DimAt(order, dims, k), CoordAt(order, cs, k), Near(order, dims, k, Extent(t));
    StepExact(d, c, near, Extent(last));
    EmptyBlocks(StepOffsets(d, c, near, Extent(last)));
  }

  lemma StageOrdinary(order: Order, dims: seq<Dim>, cs: seq<int>, k: nat, t: Type, last: Type, offs: seq<int>, r: Type)
    requires Placed(dims, cs) && k < |dims| && Stage(order, dims, cs, k, t, last, offs) && Turned(order, dims, cs, k, Extent(t), last, r)
    requires Ordinary(t) && !EmptyBelow(order, dims, cs, k + 1)
    ensures Ordinary(r) && r.align == t.align && r.ub == Inner(order, dims, cs, k + 1, t.ub)
    ensures NextOffsets(order, dims, cs, k, Extent(t), last, offs) == Built(order, dims, cs, k + 1, t.ub)
  {
    hide Place, Cross, Lin, Near, Local, StepOffsets, Relative, Scaled, Nested, LongEnough;
    AxisSound(order, dims, cs, k);
    NearNext(order, dims, k, t.ub);
    NearMultiple(order, dims, k, t);
    NearMultiple(order, dims, k + 1, t);
    MulBounds(DimAt(order, dims, k).gsize, Near(order, dims, k, t.ub));
  }

  lemma NearMultiple(order: Order, dims: seq<Dim>, k: nat, t: Type)
    requires k <= |dims| && Ordinary(t)
    ensures Near(order, dims, k, t.ub) % t.align == 0
  {
    hide Prod;
    MultipleOf(Prod(Shape(order, dims)[..k]), t.ub, t.align);
  }

  lemma StageNested(order: Order, dims: seq<Dim>, cs: seq<int>, k: nat, t: Type, last: Type, offs: seq<int>, r: Type)
    requires Placed(dims, cs) && k < |dims| && Stage(order, dims, cs, k, t, last, offs) && Turned(order, dims, cs, k, Extent(t), last, r)
    requires Nested(order, dims)
    ensures LongEnough(order, dims, k + 1, r, Extent(t))
    ensures NextOffsets(order, dims, cs, k, Extent(t), last, offs) == Scaled(Lin(RelativeLists(order, dims, cs), Shape(order, dims), k + 1), Extent(t))
  {
    hide Place, Cross, Lin, Near, Local, StepOffsets, Relative, Scaled, Ordinary, Built, Inner, EmptyBelow;
    AxisSound(order, dims, cs, k);
    var d, c, near := DimAt(order, dims, k), CoordAt(order, cs, k), Near(order, dims, k, Extent(t));
    assert NestedAt(order, dims, k);
    StepExact(d, c, near, Extent(last));
    LinStep(order, dims, cs, k, Extent(t));
  }

  /** What the loop leaves: the right type map under the conditions, and exactly then for an ordinary old type. */
  lemma StageDone(order: Order, dims: seq<Dim>, cs: seq<int>, t: Type, last: Type, offs: seq<int>)
    requires Placed(dims, cs) && Stage(order, dims, cs, |dims|, t, last, offs)
    ensures var right := Place(t.items, Scaled(Lin(RelativeLists(order, dims, cs), Shape(order, dims), |dims|), Extent(t)));
            && (Nested(order, dims) ==> last.items == right)
            && (Ordinary(t) ==> (last.items == right <==> t.items == [] || Right(order, dims, cs)))
  {
    hide Place, Lin, Scaled, Inner, Nested, Built, LongEnough, EmptyBelow, RightBelow, Proper, BoundsFrom, Ordinary;
    OrdinaryExtent(t);
    var n := |dims|;
    var right := Scaled(Lin(RelativeLists(order, dims, cs), Shape(order, dims), n), Extent(t));
    if Ordinary(t) {
      if EmptyBelow(order, dims, cs, n) {
        EmptyHoldsNothing(order, dims, cs, n);
        ScaledNothing(Extent(t));
      } else {
        BuiltExact(order, dims, cs, n, t.ub);
        SamePlace(t.items, offs, right);
      }
    }
  }

  lemma OrdinaryExtent(t: Type)
    ensures Ordinary(t) ==> Extent(t) == t.ub > 0
  {
  }

  lemma SamePlace(items: seq<Item>, a: seq<int>, b: seq<int>)
    requires |a| == |b|
    ensures Place(items, a) == Place(items, b) <==> items == [] || a == b
  {
    hide Place;
    if items == [] {
      PlaceNothing(a);
      PlaceNothing(b);
    } else if Place(items, a) == Place(items, b) {
      PlaceInjective(items, a, b);
    }
  }

  lemma ScaledNothing(f: int)
    ensures Scaled([], f) == []
  {
  }

  lemma ShiftInjective(a: seq<Item>, b: seq<Item>, d: int)
    ensures Shift(a, d) == Shift(b, d) <==> a == b
  {
    if Shift(a, d) == Shift(b, d) {
      assert |a| == |Shift(a, d)| == |b|;
      forall i | 0 <= i < |a| ensures a[i] == b[i] {
        assert Shift(a, d)[i] == Shift(b, d)[i];
      }
    }
  }

  /**
   ompi_datatype_create_darray: the old type at the elements that the rank holds, with the extent
   of the whole array. For an ordinary old type the type map is right if and only if Right holds
   of the grid and the position of the rank; for any other old type it is right for nested grids.
   */
  method CreateDarray(size: nat, rank: nat, order: Order, dims: seq<Dim>, t: Type) returns (r: Type)
    requires Proper(t) && SoundDims(dims) && size == GridSize(Procs(dims)) && rank < size
    ensures Positive(Procs(dims)) && Placed(dims, CoordsOf(rank, Procs(dims)))
    ensures dims != [] ==>
              (var right := r.items == Place(t.items, Scaled(ElementsOf(order, dims, rank), Extent(t)));
               && (Ordinary(t) ==> (right <==> t.items == [] || Right(order, dims, CoordsOf(rank, Procs(dims)))))
               && (Nested(order, dims) && Extent(t) != -1 ==> right))
    ensures dims != [] && !t.userLb && !t.userUb ==> r.lb == 0 && r.ub == Prod(Sizes(dims)) * Extent(t)
    ensures dims == [] ==> r.items == []
  {
    hide Place, Prod, Lin, Origin, CoordsOf, Sound, Stage, Turned, NextOffsets, Right, Nested, Ordinary, FirstIndex, Owned, Scaled, Shift, StepOffsets, Local, Near;
    var n, extent := |dims|, Extent(t);
    ShapePositive(order, dims);
    CoordsInGrid(rank, Procs(dims));
    if n < 1 {
      return Create();
    }
    var cs := GridPosition(rank, size, Procs(dims));
    ghost var gs, lists, os := Shape(order, dims), RelativeLists(order, dims, cs), FirstIndices(order, dims, cs);
    var last, sts: seq<int> := t, [];
    ghost var offs := [0];
    StageStart(order, dims, cs, t);
    for k := 0 to n
      invariant Proper(last) && BoundsFrom(last, t) && (k == 0 ==> last == t) && sts == os[..k]
      invariant extent != -1 ==> Stage(order, dims, cs, k, t, last, offs)
    {
      var next, st := Dimension(order, dims, cs, k, extent, last);
      if extent != -1 {
        StageNext(order, dims, cs, k, t, last, offs, next);
      }
      offs := NextOffsets(order, dims, cs, k, extent, last, offs);
      last := next;
      sts := sts + [st];
      assert os[..k + 1] == os[..k] + [os[k]];
    }
    assert sts == os;
    var displ := Displacement(order, Sizes(dims), sts);
    var whole := Stride(order, Sizes(dims), n, extent);
    ProdFastest(order, Sizes(dims));
    assert gs[..n] == gs;
    OrdinaryExtent(t);
    if extent != -1 {
      StageDone(order, dims, cs, t, last, offs);
    }
    r := Subarray.Bounded(last, displ * extent, whole);
    Subarray.ShiftedBox(t.items, lists, os, gs, extent);
    ShiftInjective(last.items, Place(t.items, Scaled(Lin(lists, gs, n), extent)), displ * extent);
    OwnedFromFirst(order, dims, cs);
  }

  /** Lines 258-263: the offset of the first element. */
  method Displacement(order: Order, sizes: seq<nat>, sts: seq<int>) returns (displ: int)
    requires |sizes| == |sts| > 0
    ensures displ == Origin(sts, Fastest(order, sizes), |sts|)
  {
    hide Prod, Origin;
    ghost var gs := Fastest(order, sizes);
    Subarray.Start(gs, sts);
    displ := sts[0];
    var tmpSize := 1;
    for k := 1 to |sts|
      invariant tmpSize == Prod(gs[..k - 1]) && displ == Origin(sts, gs, k)
    {
      Subarray.Advance(gs, sts, k);
      ProdNext(gs, k - 1);
      tmpSize := tmpSize * sizes[Nth(order, |sizes|, k - 1)];
      displ := displ + tmpSize * sts[k];
    }
  }

  // ---------------------------------------------------------------------------------------
  // A grid on which it is wrong

  /**
   Two processes share a fast dimension of 2 * w in blocks of w bytes, and a slow dimension of two
   is cyclic in blocks of two. The type for the fast dimension ends after w bytes, so the second
   row of each process starts w bytes behind the first instead of 2 * w.
   */
  method BlockInsideCyclic(w: nat, rank: nat) returns (dims: seq<Dim>, t: Type, r: Type)
    requires w > 0 && rank < 2
    ensures SoundDims(dims) && GridSize(Procs(dims)) == 2 && Ordinary(t)
    ensures r.items != Place(t.items, Scaled(ElementsOf(OrderC, dims, rank), Extent(t)))
  {
    hide Right, CoordsOf, GridSize, SoundDims, ElementsOf, Place, Scaled, Placed, Nested, Prod, Ordinary, Positive, Procs;
    dims := [Dim(2, Cyclic, Given(2), 1), Dim(2 * w, Block, Given(w), 2)];
    t := Type([Item(0, 0)], 0, 1, false, false, 1);
    OrdinaryByte(t);
    WrongGrid(w, rank);
    r := CreateDarray(2, rank, OrderC, dims, t);
  }

  lemma OrdinaryByte(t: Type)
    requires t == Type([Item(0, 0)], 0, 1, false, false, 1)
    ensures Ordinary(t)
  {
  }

  lemma WrongGrid(w: nat, rank: nat)
    requires w > 0 && rank < 2
    ensures var dims := [Dim(2, Cyclic, Given(2), 1), Dim(2 * w, Block, Given(w), 2)];
            && SoundDims(dims) && GridSize(Procs(dims)) == 2 && Positive(Procs(dims))
            && Placed(dims, CoordsOf(rank, Procs(dims))) && !Right(OrderC, dims, CoordsOf(rank, Procs(dims)))
  {
    var dims := [Dim(2, Cyclic, Given(2), 1), Dim(2 * w, Block, Given(w), 2)];
    WrongPosition(rank);
    assert Procs(dims) == [1, 2];
    assert Sound(dims[0]) && Sound(dims[1]);
    var cs := [0, rank];
    assert LocalAt(OrderC, dims, cs, 0) == BlockCount(2 * w, w, rank) == w;
    assert LocalAt(OrderC, dims, cs, 1) == CyclicCount(2, 2, 1, 0) == 2;
    assert !RunOwned(OrderC, dims, cs, 1);
    assert !RightAt(OrderC, dims, cs, 1);
    assert !RightBelow(OrderC, dims, cs, 2);
    assert !EmptyBelow(OrderC, dims, cs, 1);
    assert !EmptyBelow(OrderC, dims, cs, 2);
  }

  lemma WrongPosition(rank: nat)
    requires rank < 2
    ensures Positive([1, 2]) && GridSize([1, 2]) == 2 && CoordsOf(rank, [1, 2]) == [0, rank]
  {
    assert [1, 2][1..] == [2] && [2][1..] == [];
    assert GridSize([2]) == 2 && Positive([2]);
    assert CoordsOf(rank, [2]) == [rank];
    assert CoordsOf(rank, [1, 2]) == [0] + [rank];
  }
}
