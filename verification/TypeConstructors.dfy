/**
 The datatype constructors of ompi/datatype/ompi_datatype_create_{contiguous,vector,indexed,struct}.c:
 shortcuts and merged blocks against the plain type maps of section 4.1.2 of MPI-3.0.
 */
module TypeConstructors {
  import opened TypeMaps

  predicate Proper(t: Type) {
    t.align > 0
  }

  // ---------------------------------------------------------------------------------------
  // Contiguous and vector

  /** The offsets of count blocks, stride apart, of bLength copies, extent apart. */
  function BlockOffsets(count: nat, bLength: nat, stride: int, extent: int): seq<int> {
    Cross(Steps(count, 0, stride), Steps(bLength, 0, extent))
  }

  function CreateContiguous(count: nat, t: Type): Type
    requires Proper(t)
  {
    if count == 0 then Create() else Add(Create(), t, count, 0, Extent(t))
  }

  /** ompi_datatype_create_hvector. */
  function CreateHvector(count: nat, bLength: nat, stride: int, t: Type): Type
    requires Proper(t)
  {
    var extent := Extent(t);
    if count == 0 then Create()
    else if extent * bLength == stride || count <= 1 then Add(Create(), t, count * bLength, 0, extent)
    else if bLength == 1 then Add(Create(), t, count, 0, stride)
    else Add(Create(), Add(Create(), t, bLength, 0, extent), count, 0, stride)
  }

  /** ompi_datatype_create_vector: the stride counts copies of the old type. */
  function CreateVector(count: nat, bLength: nat, stride: int, t: Type): Type
    requires Proper(t)
  {
    var extent := Extent(t);
    if count == 0 then Create()
    else if bLength == stride || count <= 1 then Add(Create(), t, count * bLength, 0, extent)
    else if bLength == 1 then Add(Create(), t, count, 0, extent * stride)
    else Add(Create(), Add(Create(), t, bLength, 0, extent), count, 0, extent * stride)
  }

  lemma {:induction false} CrossSteps(count: nat, bLength: nat, disp: int, extent: int)
    ensures Cross(Steps(count, disp, bLength * extent), Steps(bLength, 0, extent)) == Steps(count * bLength, disp, extent)
  {
    var outer, inner := Steps(count, disp, bLength * extent), Steps(bLength, 0, extent);
    if count > 0 {
      var disp' := disp + bLength * extent;
      CrossSteps(count - 1, bLength, disp', extent);
      TailSteps(count, disp, bLength * extent);
      SplitSteps(bLength, (count - 1) * bLength, disp, extent);
      assert Move(inner, disp) == Steps(bLength, disp, extent);
      assert count * bLength == bLength + (count - 1) * bLength;
    }
  }

  lemma TailSteps(count: nat, disp: int, stride: int)
    requires count > 0
    ensures Steps(count, disp, stride)[1..] == Steps(count - 1, disp + stride, stride)
  {
    forall k | 0 <= k < count - 1 ensures Steps(count, disp, stride)[1..][k] == Steps(count - 1, disp + stride, stride)[k] {
      assert (k + 1) * stride == k * stride + stride;
    }
  }

  lemma SplitSteps(a: nat, b: nat, disp: int, stride: int)
    ensures Steps(a + b, disp, stride) == Steps(a, disp, stride) + Steps(b, disp + a * stride, stride)
  {
    var r := Steps(a, disp, stride) + Steps(b, disp + a * stride, stride);
    forall k | 0 <= k < a + b ensures Steps(a + b, disp, stride)[k] == r[k] {
      if k >= a {
        assert (a + (k - a)) * stride == a * stride + (k - a) * stride;
      }
    }
  }

  lemma CrossOne(outer: seq<int>)
    ensures Cross(outer, [0]) == outer
  {
    if outer != [] {
      CrossOne(outer[1..]);
      assert Move([0], outer[0]) == [outer[0]];
    }
  }

  /** The only stride that opal_datatype_add does not take at its word. */
  predicate MisreadStride(count: nat, bLength: nat, stride: int, t: Type) {
    stride == -1 && count >= 2 && bLength >= 1 && t.items != [] && Extent(t) * bLength != stride
  }

  lemma ContiguousMap(count: nat, t: Type)
    requires Proper(t)
    ensures CreateContiguous(count, t).items == Place(t.items, Steps(count, 0, Extent(t)))
  {
    assert [] + Place(t.items, Steps(count, 0, Extent(t))) == Place(t.items, Steps(count, 0, Extent(t)));
  }

  /** What the copies of a block of bLength copies look like. */
  lemma NestedMap(count: nat, bLength: nat, stride: int, t: Type)
    requires Proper(t) && count > 0 && bLength != 1 && stride != -1
    ensures Add(Create(), Add(Create(), t, bLength, 0, Extent(t)), count, 0, stride).items ==
            Place(t.items, BlockOffsets(count, bLength, stride, Extent(t)))
  {
    var block := Add(Create(), t, bLength, 0, Extent(t));
    PlacePlace(t.items, Steps(bLength, 0, Extent(t)), Steps(count, 0, stride));
    assert block.items == Place(t.items, Steps(bLength, 0, Extent(t)));
  }

  lemma SingleBlocks(count: nat, stride: int, extent: int)
    ensures BlockOffsets(count, 1, stride, extent) == Steps(count, 0, stride)
  {
    assert Steps(1, 0, extent) == [0];
    CrossOne(Steps(count, 0, stride));
  }

  lemma SingleMap(count: nat, stride: int, t: Type)
    requires Proper(t) && count > 0 && stride != -1
    ensures Add(Create(), t, count, 0, stride).items == Place(t.items, BlockOffsets(count, 1, stride, Extent(t)))
  {
    assert Steps(1, 0, Extent(t)) == [0];
    CrossOne(Steps(count, 0, stride));
  }

  lemma RunMap(count: nat, bLength: nat, t: Type)
    requires Proper(t)
    ensures Add(Create(), t, count * bLength, 0, Extent(t)).items == Place(t.items, BlockOffsets(count, bLength, bLength * Extent(t), Extent(t)))
  {
    CrossSteps(count, bLength, 0, Extent(t));
    assert [] + Place(t.items, Steps(count * bLength, 0, Extent(t))) == Place(t.items, Steps(count * bLength, 0, Extent(t)));
  }

  lemma OneBlock(bLength: nat, s1: int, s2: int, extent: int)
    ensures BlockOffsets(1, bLength, s1, extent) == BlockOffsets(1, bLength, s2, extent)
  {
    assert Steps(1, 0, s1) == [0] == Steps(1, 0, s2);
  }

  lemma EmptyBlocks(outer: seq<int>)
    ensures Cross(outer, []) == []
  {
    if outer != [] {
      EmptyBlocks(outer[1..]);
    }
  }

  lemma BlockSecond(outer: seq<int>, inner: seq<int>)
    requires |outer| >= 2 && inner != []
    ensures |Cross(outer, inner)| > |inner| && Cross(outer, inner)[|inner|] == inner[0] + outer[1]
  {
    var rest := Cross(outer[1..], inner);
    assert rest == Move(inner, outer[1]) + Cross(outer[1..][1..], inner);
    assert Cross(outer, inner) == Move(inner, outer[0]) + rest;
  }

  lemma {:induction false} CrossLength(outer: seq<int>, inner: seq<int>)
    ensures |Cross(outer, inner)| == |outer| * |inner|
  {
    if outer != [] {
      CrossLength(outer[1..], inner);
      assert |outer| * |inner| == (|outer| - 1) * |inner| + |inner|;
    }
  }

  /** Blocks placed at two different strides differ. */
  lemma StridesTell(count: nat, bLength: nat, s1: int, s2: int, t: Type)
    requires count >= 2 && bLength >= 1 && s1 != s2 && t.items != []
    ensures Place(t.items, BlockOffsets(count, bLength, s1, Extent(t))) != Place(t.items, BlockOffsets(count, bLength, s2, Extent(t)))
  {
    var inner := Steps(bLength, 0, Extent(t));
    var a, b := Cross(Steps(count, 0, s1), inner), Cross(Steps(count, 0, s2), inner);
    CrossLength(Steps(count, 0, s1), inner);
    CrossLength(Steps(count, 0, s2), inner);
    BlockSecond(Steps(count, 0, s1), inner);
    BlockSecond(Steps(count, 0, s2), inner);
    assert a[bLength] != b[bLength];
    if Place(t.items, a) == Place(t.items, b) {
      PlaceInjective(t.items, a, b);
    }
  }

  /** A block of two or more copies never has extent -1. */
  lemma BlockExtent(bLength: nat, t: Type)
    requires Proper(t) && bLength >= 2
    ensures Extent(Add(Create(), t, bLength, 0, Extent(t))) >= 0
  {
    var e := Extent(t);
    if e >= 0 {
      assert e * (bLength - 1) >= 0;
    } else {
      assert e * (bLength - 1) == e + e * (bLength - 2);
      assert e * (bLength - 2) <= 0;
    }
  }

  /** With stride -1, opal_datatype_add falls back to the extent of what it adds. */
  lemma MisreadMap(count: nat, bLength: nat, t: Type)
    requires Proper(t) && MisreadStride(count, bLength, -1, t)
    ensures CreateHvector(count, bLength, -1, t).items != Place(t.items, BlockOffsets(count, bLength, -1, Extent(t)))
  {
    var e := Extent(t);
    if bLength == 1 {
      SingleBlocks(count, e, e);
      assert CreateHvector(count, 1, -1, t) == Add(Create(), t, count, 0, -1);
      StridesTell(count, 1, -1, e, t);
    } else {
      var block := Add(Create(), t, bLength, 0, e);
      var x := Extent(block);
      BlockExtent(bLength, t);
      PlacePlace(t.items, Steps(bLength, 0, e), Steps(count, 0, x));
      assert block.items == Place(t.items, Steps(bLength, 0, e));
      var v := CreateHvector(count, bLength, -1, t);
      assert v == Add(Create(), block, count, 0, -1);
      assert v.items == [] + Place(block.items, Steps(count, 0, x)) == Place(block.items, Steps(count, 0, x));
      StridesTell(count, bLength, -1, x, t);
    }
  }

  /** hvector has the plain type map, except when the stride is -1 byte and the blocks are not adjacent. */
  lemma HvectorMap(count: nat, bLength: nat, stride: int, t: Type)
    requires Proper(t)
    ensures CreateHvector(count, bLength, stride, t).items == Place(t.items, BlockOffsets(count, bLength, stride, Extent(t))) <==>
            !MisreadStride(count, bLength, stride, t)
  {
    var e := Extent(t);
    if MisreadStride(count, bLength, stride, t) {
      MisreadMap(count, bLength, t);
    } else if count == 0 {
      assert BlockOffsets(0, bLength, stride, e) == [];
    } else if e * bLength == stride || count <= 1 {
      RunMap(count, bLength, t);
      OneBlock(bLength, stride, bLength * e, e);
    } else if t.items == [] {
      EmptyMap(count, bLength, stride, t);
    } else if bLength == 0 {
      EmptyBlocks(Steps(count, 0, stride));
      PlaceNothing(Steps(count, 0, if stride == -1 then Extent(Create()) else stride));
    } else if bLength == 1 {
      SingleMap(count, stride, t);
    } else {
      NestedMap(count, bLength, stride, t);
    }
  }

  lemma EmptyMap(count: nat, bLength: nat, stride: int, t: Type)
    requires Proper(t) && t.items == [] && count > 1
    ensures CreateHvector(count, bLength, stride, t).items == [] == Place(t.items, BlockOffsets(count, bLength, stride, Extent(t)))
    ensures bLength != stride ==> CreateVector(count, bLength, stride, t).items == []
  {
    forall offs ensures Place(t.items, offs) == [] {
      PlaceNothing(offs);
    }
  }

  /** vector likewise, with the stride in bytes. */
  lemma VectorMap(count: nat, bLength: nat, stride: int, t: Type)
    requires Proper(t)
    ensures CreateVector(count, bLength, stride, t).items == Place(t.items, BlockOffsets(count, bLength, stride * Extent(t), Extent(t))) <==>
            !MisreadStride(count, bLength, stride * Extent(t), t)
  {
    var e := Extent(t);
    var bytes := stride * e;
    if count == 0 {
      assert BlockOffsets(0, bLength, bytes, e) == [];
    } else if bLength == stride || count <= 1 {
      RunMap(count, bLength, t);
      OneBlock(bLength, bytes, bLength * e, e);
    } else if t.items == [] {
      EmptyMap(count, bLength, stride, t);
      EmptyMap(count, bLength, bytes, t);
    } else if bytes == -1 && bLength >= 1 {
      assert e * bLength - bytes == e * (bLength - stride) != 0;
      assert CreateVector(count, bLength, stride, t) == CreateHvector(count, bLength, bytes, t);
      MisreadMap(count, bLength, t);
    } else if bLength == 0 {
      EmptyBlocks(Steps(count, 0, bytes));
      PlaceNothing(Steps(count, 0, if bytes == -1 then Extent(Create()) else bytes));
    } else if bLength == 1 {
      SingleMap(count, bytes, t);
    } else {
      NestedMap(count, bLength, bytes, t);
    }
  }
}
