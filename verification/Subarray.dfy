/**
 ompi_datatype_create_subarray (ompi/datatype/ompi_datatype_create_subarray.c; section 4.1.3 of
 MPI-3.0): a box inside a multi-dimensional array.
 */
module Subarray {
  import opened Common
  import opened TypeMaps
  import opened TypeConstructors
  import opened TypeBlocks
  import opened ArrayOffsets

  /** The indices of the box in each dimension, counted from its corner. */
  function Extents(subs: seq<nat>): (r: seq<seq<int>>)
    ensures |r| == |subs| && forall k :: 0 <= k < |r| ==> r[k] == Steps(subs[k], 0, 1)
  {
    seq(|subs|, k requires 0 <= k < |subs| => Steps(subs[k], 0, 1))
  }

  /** The linear offsets of the elements of the box; dimensions in order, the fastest first. */
  function Box(gs: seq<nat>, subs: seq<nat>, starts: seq<int>): seq<int>
    requires |gs| == |subs| == |starts|
  {
    Lin(Moved(Extents(subs), starts), gs, |gs|)
  }

  lemma NotMinusOne(n: nat, e: int)
    requires e != -1
    ensures n * e != -1
  {
    if e >= 0 {
      assert n * e >= 0;
    } else if n > 0 {
      assert n * e == e + (n - 1) * e && (n - 1) * e <= 0;
    }
  }

  /** One more dimension: an hvector of single copies. */
  lemma HvectorStep(count: nat, stride: int, t: Type)
    requires Proper(t)
    ensures Proper(CreateHvector(count, 1, stride, t))
    ensures stride != -1 ==> CreateHvector(count, 1, stride, t).items == Place(t.items, Steps(count, 0, stride))
    ensures CreateHvector(count, 1, stride, t).userLb ==> t.userLb
    ensures CreateHvector(count, 1, stride, t).userUb ==> t.userUb
  {
    HvectorMap(count, 1, stride, t);
    SingleBlocks(count, stride, Extent(t));
  }

  /** The first two dimensions: a vector. */
  lemma VectorStep(count: nat, bLength: nat, stride: nat, t: Type)
    requires Proper(t)
    ensures Proper(CreateVector(count, bLength, stride, t))
    ensures Extent(t) != -1 ==>
              CreateVector(count, bLength, stride, t).items == Place(Place(t.items, Steps(bLength, 0, Extent(t))), Steps(count, 0, stride * Extent(t)))
    ensures CreateVector(count, bLength, stride, t).userLb ==> t.userLb
    ensures CreateVector(count, bLength, stride, t).userUb ==> t.userUb
  {
    hide CreateVector, Place, Steps, BlockOffsets;
    VectorFlags(count, bLength, stride, t);
    VectorOffsets(count, bLength, stride, Extent(t));
    if Extent(t) != -1 {
      NotMinusOne(stride, Extent(t));
    }
    VectorMap(count, bLength, stride, t);
    PlacePlace(t.items, Steps(bLength, 0, Extent(t)), Steps(count, 0, stride * Extent(t)));
  }

  lemma VectorOffsets(count: nat, bLength: nat, stride: int, extent: int)
    ensures BlockOffsets(count, bLength, stride * extent, extent) == Cross(Steps(count, 0, stride * extent), Steps(bLength, 0, extent))
  {
  }

  lemma VectorFlags(count: nat, bLength: nat, stride: nat, t: Type)
    requires Proper(t)
    ensures var r := CreateVector(count, bLength, stride, t); Proper(r) && (r.userLb ==> t.userLb) && (r.userUb ==> t.userUb)
  {
    hide Place, Steps, Rounded, SpanLb, SpanUb;
  }

  lemma ContiguousStep(count: nat, t: Type)
    requires Proper(t)
    ensures Proper(CreateContiguous(count, t))
    ensures CreateContiguous(count, t).items == Place(t.items, Steps(count, 0, Extent(t)))
    ensures CreateContiguous(count, t).userLb ==> t.userLb
    ensures CreateContiguous(count, t).userUb ==> t.userUb
  {
    ContiguousMap(count, t);
  }

  /** The struct of lower bound, data at disp, and upper bound that ends both array constructors. */
  method Bounded(last: Type, disp: int, ub: int) returns (r: Type)
    requires Proper(last)
    ensures r.items == Shift(last.items, disp)
    ensures !last.userLb ==> r.lb == 0
    ensures !last.userUb ==> r.ub == ub
  {
    var hs := [LbMarker, Data(0), UbMarker];
    r := CreateStruct([last], [1, 1, 1], [0, disp, ub], hs);
    BoundedLoop(last, disp, ub);
    assert [] + Shift(last.items, disp) == Shift(last.items, disp);
  }

  lemma BoundedLoop(last: Type, disp: int, ub: int)
    requires Proper(last)
    ensures var hs := [LbMarker, Data(0), UbMarker];
            StructLoop([last], [1, 1, 1], [0, disp, ub], hs, 1, Create(), hs[0], 1, 0) ==
            AddUb(Add(AddLb(Create(), 0), last, 1, disp, Extent(last)), ub)
    ensures Place(last.items, Steps(1, disp, Extent(last))) == Shift(last.items, disp)
  {
    hide Add;
    var hs, lens, disps := [LbMarker, Data(0), UbMarker], [1, 1, 1], [0, disp, ub];
    var p1 := AddHandle(Create(), [last], LbMarker, 1, 0);
    AddHandleItems(p1, [last], Data(0), 1, disp);
    var p2 := AddHandle(p1, [last], Data(0), 1, disp);
    assert StructLoop([last], lens, disps, hs, 1, Create(), LbMarker, 1, 0) == StructLoop([last], lens, disps, hs, 2, p1, Data(0), 1, disp);
    assert StructLoop([last], lens, disps, hs, 2, p1, Data(0), 1, disp) == StructLoop([last], lens, disps, hs, 3, p2, UbMarker, 1, ub);
    assert Steps(1, disp, Extent(last)) == [disp];
  }

  method CreateSubarray(order: Order, sizes: seq<nat>, subs: seq<nat>, starts: seq<int>, t: Type) returns (r: Type)
    requires |sizes| == |subs| == |starts| && Proper(t)
    ensures |sizes| > 0 && (|sizes| == 1 || Extent(t) != -1) ==>
              r.items == Place(t.items, Scaled(Box(Fastest(order, sizes), Fastest(order, subs), Fastest(order, starts)), Extent(t)))
    ensures |sizes| > 0 && !t.userLb && !t.userUb ==> r.lb == 0 && r.ub == Prod(Fastest(order, sizes)) * Extent(t)
    ensures |sizes| == 0 ==> r.items == []
  {
    hide Place, Lin, Add, Prod, CreateContiguous, CreateVector, CreateHvector, Origin, Scaled, Steps;
    var n, extent := |sizes|, Extent(t);
    if n == 0 {
      return Create();
    }
    ghost var gs, ss, os := Fastest(order, sizes), Fastest(order, subs), Fastest(order, starts);
    ghost var lists := Extents(ss);
    var last, size, displ;
    LinNone(t.items, lists, gs, extent);
    DimensionStep(t.items, lists, gs, 0, extent);
    Start(gs, os);
    RunLists(ss[0], Prod(gs[..0]) * extent);
    if n == 1 {
      ContiguousStep(subs[0], t);
      last := CreateContiguous(subs[0], t);
      size, displ := sizes[0], starts[0];
    } else {
      var i, j := Nth(order, n, 0), Nth(order, n, 1);
      Second(gs, os);
      DimensionStep(t.items, lists, gs, 1, extent);
      RunLists(ss[1], Prod(gs[..1]) * extent);
      VectorStep(subs[j], subs[i], sizes[i], t);
      last := CreateVector(subs[j], subs[i], sizes[i], t);
      size := sizes[i] * sizes[j];
      displ := starts[i] + starts[j] * sizes[i];
      for k := 2 to n
        invariant Proper(last) && size == Prod(gs[..k]) && displ == Origin(os, gs, k)
        invariant extent != -1 ==> last.items == Place(t.items, Scaled(Lin(lists, gs, k), extent))
        invariant (last.userLb ==> t.userLb) && (last.userUb ==> t.userUb)
      {
        i := Nth(order, n, k);
        if extent != -1 {
          NotMinusOne(size, extent);
        }
        HvectorStep(subs[i], size * extent, last);
        DimensionStep(t.items, lists, gs, k, extent);
        RunLists(ss[k], size * extent);
        Advance(gs, os, k);
        last := CreateHvector(subs[i], 1, size * extent, last);
        displ := displ + size * starts[i];
        size := size * sizes[i];
      }
    }
    r := Bounded(last, displ * extent, size * extent);
    assert gs[..n] == gs;
    ShiftedBox(t.items, lists, os, gs, extent);
  }

  lemma Start(gs: seq<nat>, os: seq<int>)
    requires |gs| == |os| > 0
    ensures Prod(gs[..0]) == 1 && Prod(gs[..1]) == gs[0] && Origin(os, gs, 1) == os[0]
  {
    ProdNext(gs, 0);
  }

  lemma Second(gs: seq<nat>, os: seq<int>)
    requires |gs| == |os| > 1
    ensures Prod(gs[..2]) == gs[0] * gs[1] && Origin(os, gs, 2) == os[0] + os[1] * gs[0]
  {
    Start(gs, os);
    ProdNext(gs, 1);
  }

  lemma Advance(gs: seq<nat>, os: seq<int>, k: nat)
    requires k < |gs| == |os|
    ensures Prod(gs[..k + 1]) == Prod(gs[..k]) * gs[k] && Origin(os, gs, k + 1) == Origin(os, gs, k) + Prod(gs[..k]) * os[k]
  {
    ProdNext(gs, k);
  }

  lemma ShiftedBox(items: seq<Item>, lists: seq<seq<int>>, os: seq<int>, gs: seq<nat>, extent: int)
    requires |lists| == |os| == |gs|
    ensures Shift(Place(items, Scaled(Lin(lists, gs, |gs|), extent)), Origin(os, gs, |gs|) * extent) ==
            Place(items, Scaled(Lin(Moved(lists, os), gs, |gs|), extent))
  {
    hide Lin, Place;
    MovedLin(lists, os, gs, |gs|);
    ScaledMove(Lin(lists, gs, |gs|), Origin(os, gs, |gs|), extent);
    ShiftPlace(items, Scaled(Lin(lists, gs, |gs|), extent), Origin(os, gs, |gs|) * extent);
  }

  // ---------------------------------------------------------------------------------------
  // The box is the box

  predicate Inside(gs: seq<nat>, subs: seq<nat>, starts: seq<int>) {
    && |gs| == |subs| == |starts| && Positive(gs)
    && forall k :: 0 <= k < |gs| ==> 0 <= starts[k] && starts[k] + subs[k] <= gs[k]
  }

  /** The type holds each element of the box exactly once, and no other. */
  lemma BoxExact(gs: seq<nat>, subs: seq<nat>, starts: seq<int>, e: int)
    requires Inside(gs, subs, starts)
    ensures Distinct(Box(gs, subs, starts))
    ensures e in Box(gs, subs, starts) <==>
            0 <= e < Prod(gs) && forall k :: 0 <= k < |gs| ==> starts[k] <= Digit(gs, k, e) < starts[k] + subs[k]
  {
    hide InBox, Lin, Prod;
    var lists := Moved(Extents(subs), starts);
    var n := |gs|;
    assert Indices(lists, gs);
    assert gs[..n] == gs;
    LinDistinct(lists, gs, n);
    LinDigits(lists, gs, e);
    forall k | 0 <= k < n ensures Digit(gs, k, e) in lists[k] <==> starts[k] <= Digit(gs, k, e) < starts[k] + subs[k] {
      RangeMember(subs[k], starts[k], Digit(gs, k, e));
    }
  }

  /**
   The same by dimensions, in either order: the box holds the elements whose index in each dimension is
   one of the subsize indices from the start on.
   */
  lemma BoxByDimension(order: Order, sizes: seq<nat>, subs: seq<nat>, starts: seq<int>, e: int)
    requires Inside(sizes, subs, starts)
    ensures Distinct(Box(Fastest(order, sizes), Fastest(order, subs), Fastest(order, starts)))
    ensures e in Box(Fastest(order, sizes), Fastest(order, subs), Fastest(order, starts)) <==>
            0 <= e < Prod(sizes) && forall i :: 0 <= i < |sizes| ==> starts[i] <= IndexIn(order, sizes, i, e) < starts[i] + subs[i]
  {
    hide Box, Prod, Distinct;
    ProdFastest(order, sizes);
    BoxExact(Fastest(order, sizes), Fastest(order, subs), Fastest(order, starts), e);
    SpannedBoth(order, sizes, subs, starts, e);
  }

  lemma SpannedBoth(order: Order, sizes: seq<nat>, subs: seq<nat>, starts: seq<int>, e: int)
    requires Inside(sizes, subs, starts)
    ensures var gs, ss, os := Fastest(order, sizes), Fastest(order, subs), Fastest(order, starts);
            Positive(gs) &&
            ((forall k :: 0 <= k < |gs| ==> os[k] <= Digit(gs, k, e) < os[k] + ss[k]) <==>
             (forall i :: 0 <= i < |sizes| ==> starts[i] <= IndexIn(order, sizes, i, e) < starts[i] + subs[i]))
  {
    hide Digit, IndexIn;
    var n, gs, ss, os := |sizes|, Fastest(order, sizes), Fastest(order, subs), Fastest(order, starts);
    forall k | 0 <= k < n
      ensures var i := Nth(order, n, k); Nth(order, n, i) == k && gs[k] == sizes[i] && ss[k] == subs[i] && os[k] == starts[i]
      ensures Digit(gs, k, e) == IndexIn(order, sizes, Nth(order, n, k), e)
    {
      DigitIsIndex(order, sizes, Nth(order, n, k), e);
    }
    if forall k :: 0 <= k < n ==> os[k] <= Digit(gs, k, e) < os[k] + ss[k] {
      forall i | 0 <= i < n ensures starts[i] <= IndexIn(order, sizes, i, e) < starts[i] + subs[i] {
        var k := Nth(order, n, i);
        assert Nth(order, n, k) == i && os[k] <= Digit(gs, k, e) < os[k] + ss[k];
      }
    }
    if forall i :: 0 <= i < n ==> starts[i] <= IndexIn(order, sizes, i, e) < starts[i] + subs[i] {
      forall k | 0 <= k < n ensures os[k] <= Digit(gs, k, e) < os[k] + ss[k] {
        assert IndexIn(order, sizes, Nth(order, n, k), e) >= starts[Nth(order, n, k)];
      }
    }
  }
}
