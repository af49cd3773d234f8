/**
 Merging of adjacent blocks in ompi/datatype/ompi_datatype_create_indexed.c and
 ompi/datatype/ompi_datatype_create_struct.c, against the type maps without merging.
 */
module TypeBlocks {
  import opened Common
  import opened TypeMaps
  import opened TypeConstructors

  /** One block after the other: lens[i] copies at disps[i]. */
  function Blocks(lens: seq<nat>, disps: seq<int>, extent: int): seq<int>
    requires |lens| == |disps|
  {
    if lens == [] then []
    else Blocks(lens[..|lens| - 1], disps[..|lens| - 1], extent) + Steps(lens[|lens| - 1], disps[|lens| - 1], extent)
  }

  function Scaled(s: seq<int>, f: int): (r: seq<int>)
    ensures |r| == |s| && forall k :: 0 <= k < |s| ==> r[k] == s[k] * f
  {
    seq(|s|, k requires 0 <= k < |s| => s[k] * f)
  }

  lemma BlocksSnoc(lens: seq<nat>, disps: seq<int>, extent: int, i: nat)
    requires i < |lens| == |disps|
    ensures Blocks(lens[..i + 1], disps[..i + 1], extent) == Blocks(lens[..i], disps[..i], extent) + Steps(lens[i], disps[i], extent)
  {
    assert lens[..i + 1][..i] == lens[..i] && disps[..i + 1][..i] == disps[..i];
  }

  /** A block that starts where the last one ends makes it longer. */
  lemma MergeBlock(items: seq<Item>, done: seq<Item>, before: seq<int>, len: nat, more: nat, disp: int, extent: int)
    requires done + Place(items, Steps(len, disp, extent)) == Place(items, before)
    ensures done + Place(items, Steps(len + more, disp, extent)) == Place(items, before + Steps(more, disp + len * extent, extent))
  {
    SplitSteps(len, more, disp, extent);
    PlaceConcat(items, Steps(len, disp, extent), Steps(more, disp + len * extent, extent));
    PlaceConcat(items, before, Steps(more, disp + len * extent, extent));
  }

  lemma NextBlock(items: seq<Item>, done: seq<Item>, before: seq<int>, len: nat, disp: int, len': nat, disp': int, extent: int)
    requires done + Place(items, Steps(len, disp, extent)) == Place(items, before)
    ensures done + Place(items, Steps(len, disp, extent)) + Place(items, Steps(len', disp', extent)) ==
            Place(items, before + Steps(len', disp', extent))
  {
    PlaceConcat(items, before, Steps(len', disp', extent));
  }

  /** The items of a type after one more run of copies. */
  lemma AddRun(pdt: Type, t: Type, len: nat, disp: int)
    requires Proper(pdt) && Proper(t)
    ensures Proper(Add(pdt, t, len, disp, Extent(t)))
    ensures Add(pdt, t, len, disp, Extent(t)).items == pdt.items + Place(t.items, Steps(len, disp, Extent(t)))
  {
    assert len == 0 ==> pdt.items + [] == pdt.items;
  }

  lemma FirstBlock(items: seq<Item>, lens: seq<nat>, disps: seq<int>, extent: int)
    requires |lens| == |disps| > 0
    ensures [] + Place(items, Steps(lens[0], disps[0], extent)) == Place(items, Blocks(lens[..1], disps[..1], extent))
  {
    BlocksSnoc(lens, disps, extent, 0);
    assert Blocks(lens[..0], disps[..0], extent) + Steps(lens[0], disps[0], extent) == Steps(lens[0], disps[0], extent);
  }

  lemma NothingToPlace(t: Type, lens: seq<nat>, disps: seq<int>)
    requires |lens| == |disps|
    ensures Place(t.items, []) == [] && (lens == [] ==> Blocks(lens, disps, Extent(t)) == [] && Blocks(lens, Scaled(disps, Extent(t)), Extent(t)) == [])
  {
  }

  lemma AddNone(pdt: Type, t: Type, disp: int)
    requires Proper(pdt) && Proper(t)
    ensures Add(pdt, t, 0, disp, Extent(t)) == pdt
  {
  }

  /** ompi_datatype_create_hindexed: displacements in bytes. */
  method CreateHindexed(lens: seq<nat>, disps: seq<int>, t: Type) returns (r: Type)
    requires |lens| == |disps| && Proper(t)
    ensures Proper(r) && r.items == Place(t.items, Blocks(lens, disps, Extent(t)))
  {
    hide Add, Place, Blocks, Steps;
    NothingToPlace(t, lens, disps);
    if |lens| == 0 {
      return Create();
    }
    var extent := Extent(t);
    var pdt, disp := Create(), disps[0];
    var dLength: nat := lens[0];
    var endat := disp + dLength * extent;
    FirstBlock(t.items, lens, disps, extent);
    for i := 1 to |lens|
      invariant Proper(pdt) && endat == disp + dLength * extent
      invariant pdt.items + Place(t.items, Steps(dLength, disp, extent)) == Place(t.items, Blocks(lens[..i], disps[..i], extent))
    {
      ghost var before := Blocks(lens[..i], disps[..i], extent);
      BlocksSnoc(lens, disps, extent, i);
      if endat == disps[i] {
        MergeBlock(t.items, pdt.items, before, dLength, lens[i], disp, extent);
        assert (dLength + lens[i]) * extent == dLength * extent + lens[i] * extent;
        dLength := dLength + lens[i];
        endat := endat + lens[i] * extent;
      } else {
        NextBlock(t.items, pdt.items, before, dLength, disp, lens[i], disps[i], extent);
        AddRun(pdt, t, dLength, disp);
        pdt := Add(pdt, t, dLength, disp, extent);
        disp, dLength := disps[i], lens[i];
        endat := disp + lens[i] * extent;
      }
    }
    AddRun(pdt, t, dLength, disp);
    assert lens[..|lens|] == lens && disps[..|lens|] == disps;
    r := Add(pdt, t, dLength, disp, extent);
  }

  lemma Distribute(a: int, b: int, f: int)
    ensures (a + b) * f == a * f + b * f
  {
  }

  /** ompi_datatype_create_indexed: displacements in copies of the old type. */
  method CreateIndexed(lens: seq<nat>, disps: seq<int>, t: Type) returns (r: Type)
    requires |lens| == |disps| && Proper(t)
    ensures Proper(r) && r.items == Place(t.items, Blocks(lens, Scaled(disps, Extent(t)), Extent(t)))
  {
    hide Add, Place, Blocks, Steps;
    NothingToPlace(t, lens, disps);
    if |lens| == 0 {
      return Create();
    }
    var extent := Extent(t);
    ghost var bytes := Scaled(disps, extent);
    var pdt, disp := Create(), disps[0];
    var dLength: nat := lens[0];
    var endat := disp + dLength;
    FirstBlock(t.items, lens, bytes, extent);
    for i := 1 to |lens|
      invariant Proper(pdt) && endat == disp + dLength
      invariant pdt.items + Place(t.items, Steps(dLength, disp * extent, extent)) == Place(t.items, Blocks(lens[..i], bytes[..i], extent))
    {
      ghost var before := Blocks(lens[..i], bytes[..i], extent);
      BlocksSnoc(lens, bytes, extent, i);
      if endat == disps[i] {
        MergeBlock(t.items, pdt.items, before, dLength, lens[i], disp * extent, extent);
        Distribute(disp, dLength, extent);
        dLength := dLength + lens[i];
        endat := endat + lens[i];
      } else {
        NextBlock(t.items, pdt.items, before, dLength, disp * extent, lens[i], disps[i] * extent, extent);
        AddRun(pdt, t, dLength, disp * extent);
        pdt := Add(pdt, t, dLength, disp * extent, extent);
        disp, dLength := disps[i], lens[i];
        endat := disp + lens[i];
      }
    }
    AddRun(pdt, t, dLength, disp * extent);
    assert lens[..|lens|] == lens && bytes[..|lens|] == bytes;
    r := Add(pdt, t, dLength, disp * extent, extent);
  }

  lemma {:induction false} NoBlocks(n: nat, disps: seq<int>, extent: int)
    requires |disps| == n
    ensures Blocks(seq(n, _ => 0), disps, extent) == []
  {
    if n > 0 {
      NoBlocks(n - 1, disps[..n - 1], extent);
      assert seq(n, _ => 0)[..n - 1] == seq(n - 1, _ => 0);
    }
  }

  /** ompi_datatype_create_indexed_block: all blocks of the same length. */
  method CreateIndexedBlock(bLength: nat, disps: seq<int>, t: Type) returns (r: Type)
    requires Proper(t)
    ensures Proper(r) && r.items == Place(t.items, Blocks(seq(|disps|, _ => bLength), Scaled(disps, Extent(t)), Extent(t)))
  {
    hide Add, Place, Blocks, Steps;
    var extent := Extent(t);
    ghost var lens, bytes := seq(|disps|, _ => bLength), Scaled(disps, extent);
    if |disps| == 0 || bLength == 0 {
      if bLength == 0 {
        NoBlocks(|disps|, bytes, extent);
        assert lens == seq(|disps|, _ => 0);
      }
      NothingToPlace(t, lens, bytes);
      AddNone(Create(), t, if disps == [] then 0 else disps[0] * extent);
      return if |disps| == 0 then Create() else Add(Create(), t, 0, disps[0] * extent, extent);
    }
    var pdt, disp := Create(), disps[0];
    var dLength: nat := bLength;
    var endat := disp + dLength;
    FirstBlock(t.items, lens, bytes, extent);
    for i := 1 to |disps|
      invariant Proper(pdt) && endat == disp + dLength
      invariant pdt.items + Place(t.items, Steps(dLength, disp * extent, extent)) == Place(t.items, Blocks(lens[..i], bytes[..i], extent))
    {
      ghost var before := Blocks(lens[..i], bytes[..i], extent);
      BlocksSnoc(lens, bytes, extent, i);
      if endat == disps[i] {
        MergeBlock(t.items, pdt.items, before, dLength, bLength, disp * extent, extent);
        Distribute(disp, dLength, extent);
        dLength := dLength + bLength;
        endat := endat + bLength;
      } else {
        NextBlock(t.items, pdt.items, before, dLength, disp * extent, bLength, disps[i] * extent, extent);
        AddRun(pdt, t, dLength, disp * extent);
        pdt := Add(pdt, t, dLength, disp * extent, extent);
        disp, dLength := disps[i], bLength;
        endat := disp + bLength;
      }
    }
    AddRun(pdt, t, dLength, disp * extent);
    assert lens[..|disps|] == lens && bytes[..|disps|] == bytes;
    r := Add(pdt, t, dLength, disp * extent, extent);
  }

  // ---------------------------------------------------------------------------------------
  // hindexed_block compares bytes with copies

  /** The offsets that the loop of ompi_datatype_create_hindexed_block produces from block i on. */
  function Runs(disps: seq<int>, bLength: nat, extent: int, i: nat, disp: int, len: nat): seq<int>
    requires i <= |disps|
    decreases |disps| - i
  {
    if i == |disps| then Steps(len, disp, extent)
    else if disp + len == disps[i] then Runs(disps, bLength, extent, i + 1, disp, len + bLength)
    else Steps(len, disp, extent) + Runs(disps, bLength, extent, i + 1, disps[i], bLength)
  }

  /** ompi_datatype_create_hindexed_block. */
  method CreateHindexedBlock(bLength: nat, disps: seq<int>, t: Type) returns (r: Type)
    requires Proper(t)
    ensures Proper(r)
    ensures r.items == if disps == [] || bLength == 0 then [] else Place(t.items, Runs(disps, bLength, Extent(t), 1, disps[0], bLength))
  {
    hide Add, Place, Runs, Steps;
    var extent := Extent(t);
    if |disps| == 0 || bLength == 0 {
      AddNone(Create(), t, if disps == [] then 0 else disps[0] * extent);
      return if |disps| == 0 then Create() else Add(Create(), t, 0, disps[0] * extent, extent);
    }
    var pdt, disp := Create(), disps[0];
    var dLength: nat := bLength;
    var endat := disp + dLength;
    ghost var whole := Place(t.items, Runs(disps, bLength, extent, 1, disps[0], bLength));
    assert [] + whole == whole;
    for i := 1 to |disps|
      invariant Proper(pdt) && endat == disp + dLength
      invariant pdt.items + Place(t.items, Runs(disps, bLength, extent, i, disp, dLength)) == whole
    {
      RunsNext(disps, bLength, extent, i, disp, dLength);
      if endat == disps[i] {
        dLength := dLength + bLength;
        endat := endat + bLength;
      } else {
        AddRun(pdt, t, dLength, disp);
        ghost var here, later := Steps(dLength, disp, extent), Runs(disps, bLength, extent, i + 1, disps[i], bLength);
        PlaceConcat(t.items, here, later);
        Associative(pdt.items, Place(t.items, here), Place(t.items, later));
        pdt := Add(pdt, t, dLength, disp, extent);
        disp, dLength := disps[i], bLength;
        endat := disp + bLength;
      }
    }
    RunsNext(disps, bLength, extent, |disps|, disp, dLength);
    AddRun(pdt, t, dLength, disp);
    r := Add(pdt, t, dLength, disp, extent);
  }

  lemma RunsNext(disps: seq<int>, bLength: nat, extent: int, i: nat, disp: int, len: nat)
    requires i <= |disps|
    ensures Runs(disps, bLength, extent, i, disp, len) ==
            if i == |disps| then Steps(len, disp, extent)
            else if disp + len == disps[i] then Runs(disps, bLength, extent, i + 1, disp, len + bLength)
            else Steps(len, disp, extent) + Runs(disps, bLength, extent, i + 1, disps[i], bLength)
  {
  }

  /** The blocks from i on, unmerged. */
  function Rest(disps: seq<int>, bLength: nat, extent: int, i: nat): seq<int>
    requires i <= |disps|
    decreases |disps| - i
  {
    if i == |disps| then [] else Steps(bLength, disps[i], extent) + Rest(disps, bLength, extent, i + 1)
  }

  lemma {:induction false} BlocksRest(disps: seq<int>, bLength: nat, extent: int, i: nat)
    requires i <= |disps|
    ensures Blocks(seq(i, _ => bLength), disps[..i], extent) + Rest(disps, bLength, extent, i) ==
            Blocks(seq(|disps|, _ => bLength), disps, extent)
    decreases |disps| - i
  {
    var lens := seq(|disps|, _ => bLength);
    assert lens[..i] == seq(i, _ => bLength);
    if i == |disps| {
      assert disps[..i] == disps;
    } else {
      BlocksRest(disps, bLength, extent, i + 1);
      BlocksSnoc(lens, disps, extent, i);
      assert lens[..i + 1] == seq(i + 1, _ => bLength);
      var done, here, rest := Blocks(lens[..i], disps[..i], extent), Steps(bLength, disps[i], extent), Rest(disps, bLength, extent, i + 1);
      assert done + (here + rest) == (done + here) + rest;
    }
  }

  /** With extent 1 the comparison is right and merging harmless. */
  lemma {:induction false} RunsUnit(disps: seq<int>, bLength: nat, i: nat, disp: int, len: nat)
    requires i <= |disps|
    ensures Runs(disps, bLength, 1, i, disp, len) == Steps(len, disp, 1) + Rest(disps, bLength, 1, i)
    decreases |disps| - i
  {
    if i < |disps| {
      if disp + len == disps[i] {
        RunsUnit(disps, bLength, i + 1, disp, len + bLength);
        SplitSteps(len, bLength, disp, 1);
      } else {
        RunsUnit(disps, bLength, i + 1, disps[i], bLength);
      }
    }
  }

  /** Some block starts bLength bytes after the one before it. */
  predicate Adjacent(disps: seq<int>, bLength: nat, i: nat)
    requires 0 < i < |disps|
  {
    disps[i - 1] + bLength == disps[i]
  }

  /** Without such a block nothing is merged. */
  lemma {:induction false} RunsApart(disps: seq<int>, bLength: nat, extent: int, i: nat)
    requires 0 < i <= |disps| && forall k :: i <= k < |disps| ==> !Adjacent(disps, bLength, k)
    ensures Runs(disps, bLength, extent, i, disps[i - 1], bLength) == Steps(bLength, disps[i - 1], extent) + Rest(disps, bLength, extent, i)
    decreases |disps| - i
  {
    if i < |disps| {
      assert !Adjacent(disps, bLength, i);
      RunsApart(disps, bLength, extent, i + 1);
    }
  }

  /** The run at hand comes first. */
  lemma {:induction false} RunsStart(disps: seq<int>, bLength: nat, extent: int, i: nat, disp: int, len: nat, k: nat)
    requires i <= |disps| && k < len
    ensures k < |Runs(disps, bLength, extent, i, disp, len)| && Runs(disps, bLength, extent, i, disp, len)[k] == disp + k * extent
    decreases |disps| - i
  {
    if i < |disps| && disp + len == disps[i] {
      RunsStart(disps, bLength, extent, i + 1, disp, len + bLength, k);
    }
  }

  lemma NotUnit(b: nat, e: int)
    requires b > 0 && e != 1
    ensures b * e != b
  {
    assert b * e - b == b * (e - 1);
    assert b * (e - 1) != 0;
  }

  /** With such a block and another extent, a copy ends up elsewhere. */
  lemma {:induction false} RunsWrong(disps: seq<int>, bLength: nat, extent: int, i: nat, j: nat)
    requires 0 < i <= j < |disps| && Adjacent(disps, bLength, j) && bLength > 0 && extent != 1
    ensures Runs(disps, bLength, extent, i, disps[i - 1], bLength) != Steps(bLength, disps[i - 1], extent) + Rest(disps, bLength, extent, i)
    decreases |disps| - i
  {
    var prev := Steps(bLength, disps[i - 1], extent);
    if Adjacent(disps, bLength, i) {
      RunsStart(disps, bLength, extent, i + 1, disps[i - 1], bLength + bLength, bLength);
      assert (prev + Rest(disps, bLength, extent, i))[bLength] == disps[i];
      NotUnit(bLength, extent);
    } else {
      RunsWrong(disps, bLength, extent, i + 1, j);
      var a, b := Runs(disps, bLength, extent, i + 1, disps[i], bLength), Rest(disps, bLength, extent, i);
      assert (prev + a)[bLength..] == a && (prev + b)[bLength..] == b;
    }
  }

  lemma {:induction false} RunsLength(disps: seq<int>, bLength: nat, extent: int, i: nat, disp: int, len: nat)
    requires i <= |disps|
    ensures |Runs(disps, bLength, extent, i, disp, len)| == len + |Rest(disps, bLength, extent, i)|
    decreases |disps| - i
  {
    if i < |disps| {
      RunsLength(disps, bLength, extent, i + 1, disp, len + bLength);
      RunsLength(disps, bLength, extent, i + 1, disps[i], bLength);
    }
  }

  /**
   hindexed_block has the type map of its blocks if and only if the extent is 1, or there is
   nothing to place, or no block starts bLength bytes after the one before it.
   */
  lemma HindexedBlockMap(bLength: nat, disps: seq<int>, t: Type)
    requires Proper(t) && disps != [] && bLength > 0
    ensures Place(t.items, Runs(disps, bLength, Extent(t), 1, disps[0], bLength)) ==
            Place(t.items, Blocks(seq(|disps|, _ => bLength), disps, Extent(t)))
            <==> (Extent(t) == 1 || t.items == [] || forall k :: 1 <= k < |disps| ==> !Adjacent(disps, bLength, k))
  {
    var e := Extent(t);
    var runs, plain := Runs(disps, bLength, e, 1, disps[0], bLength), Steps(bLength, disps[0], e) + Rest(disps, bLength, e, 1);
    BlocksRest(disps, bLength, e, 0);
    assert Blocks(seq(|disps|, _ => bLength), disps, e) == plain;
    if t.items == [] {
      PlaceNothing(runs);
      PlaceNothing(plain);
    } else if e == 1 {
      RunsUnit(disps, bLength, 1, disps[0], bLength);
    } else if k :| 1 <= k < |disps| && Adjacent(disps, bLength, k) {
      RunsWrong(disps, bLength, e, 1, k);
      RunsLength(disps, bLength, e, 1, disps[0], bLength);
      if Place(t.items, runs) == Place(t.items, plain) {
        PlaceInjective(t.items, runs, plain);
      }
    } else {
      RunsApart(disps, bLength, e, 1);
    }
  }

  // ---------------------------------------------------------------------------------------
  // Struct

  /** What an entry of pTypes points to: a marker, or the type with that number. */
  datatype Handle = LbMarker | UbMarker | Data(id: nat)

  predicate Known(types: seq<Type>, h: Handle) {
    h.Data? ==> h.id < |types| && Proper(types[h.id])
  }

  function ExtentOf(types: seq<Type>, h: Handle): int
    requires Known(types, h)
  {
    if h.Data? then Extent(types[h.id]) else 0
  }

  function ItemsOf(types: seq<Type>, h: Handle): seq<Item>
    requires Known(types, h)
  {
    if h.Data? then types[h.id].items else []
  }

  function AddHandle(pdt: Type, types: seq<Type>, h: Handle, count: nat, disp: int): Type
    requires Proper(pdt) && Known(types, h)
  {
    match h
    case LbMarker => if count == 0 then pdt else AddLb(pdt, disp)
    case UbMarker => if count == 0 then pdt else AddUb(pdt, disp)
    case Data(id) => Add(pdt, types[id], count, disp, Extent(types[id]))
  }

  /** The type map of a struct: each entry on its own. */
  function StructMap(types: seq<Type>, lens: seq<nat>, disps: seq<int>, hs: seq<Handle>): seq<Item>
    requires |lens| == |disps| == |hs| && forall h :: h in hs ==> Known(types, h)
  {
    if lens == [] then []
    else
      var n := |lens| - 1;
      StructMap(types, lens[..n], disps[..n], hs[..n]) + Place(ItemsOf(types, hs[n]), Steps(lens[n], disps[n], ExtentOf(types, hs[n])))
  }

  lemma StructSnoc(types: seq<Type>, lens: seq<nat>, disps: seq<int>, hs: seq<Handle>, i: nat)
    requires i < |lens| == |disps| == |hs| && forall h :: h in hs ==> Known(types, h)
    ensures StructMap(types, lens[..i + 1], disps[..i + 1], hs[..i + 1]) ==
            StructMap(types, lens[..i], disps[..i], hs[..i]) + Place(ItemsOf(types, hs[i]), Steps(lens[i], disps[i], ExtentOf(types, hs[i])))
  {
    assert lens[..i + 1][..i] == lens[..i] && disps[..i + 1][..i] == disps[..i] && hs[..i + 1][..i] == hs[..i];
  }

  lemma AddHandleItems(pdt: Type, types: seq<Type>, h: Handle, count: nat, disp: int)
    requires Proper(pdt) && Known(types, h)
    ensures Proper(AddHandle(pdt, types, h, count, disp))
    ensures AddHandle(pdt, types, h, count, disp).items == pdt.items + Place(ItemsOf(types, h), Steps(count, disp, ExtentOf(types, h)))
  {
    if h.Data? {
      AddRun(pdt, types[h.id], count, disp);
    } else {
      PlaceNothing(Steps(count, disp, 0));
    }
  }

  lemma GrowEntry(items: seq<Item>, done: seq<Item>, before: seq<Item>, len: nat, more: nat, disp: int, extent: int)
    requires done + Place(items, Steps(len, disp, extent)) == before
    ensures done + Place(items, Steps(len + more, disp, extent)) == before + Place(items, Steps(more, disp + len * extent, extent))
  {
    SplitSteps(len, more, disp, extent);
    PlaceConcat(items, Steps(len, disp, extent), Steps(more, disp + len * extent, extent));
  }

  /** The second loop of ompi_datatype_create_struct, from entry i on. */
  function StructLoop(types: seq<Type>, lens: seq<nat>, disps: seq<int>, hs: seq<Handle>,
                      i: nat, pdt: Type, lastType: Handle, lastBlock: nat, lastDisp: int): Type
    requires i <= |lens| == |disps| == |hs| && (forall h :: h in hs ==> Known(types, h)) && Known(types, lastType) && Proper(pdt)
    decreases |hs| - i
  {
    if i == |hs| then AddHandle(pdt, types, lastType, lastBlock, lastDisp)
    else if hs[i] == lastType && disps[i] == lastDisp + ExtentOf(types, lastType) * lastBlock then
      StructLoop(types, lens, disps, hs, i + 1, pdt, lastType, lastBlock + lens[i], lastDisp)
    else
      StructLoop(types, lens, disps, hs, i + 1, AddHandle(pdt, types, lastType, lastBlock, lastDisp), hs[i], lens[i], disps[i])
  }

  /** ompi_datatype_create_struct; the first of its two loops only sizes the description and is left out. */
  method CreateStruct(types: seq<Type>, lens: seq<nat>, disps: seq<int>, hs: seq<Handle>) returns (r: Type)
    requires |lens| == |disps| == |hs| && forall h :: h in hs ==> Known(types, h)
    ensures r == if hs == [] then Create() else StructLoop(types, lens, disps, hs, 1, Create(), hs[0], lens[0], disps[0])
    ensures r.items == StructMap(types, lens, disps, hs)
  {
    hide AddHandle, StructMap, Add, Place, Steps, ExtentOf, ItemsOf;
    if |lens| == 0 {
      StructEmpty(types);
      return Create();
    }
    var pdt, lastType, lastDisp := Create(), hs[0], disps[0];
    var lastBlock: nat := lens[0];
    var lastExtent := ExtentOf(types, lastType);
    var endto := disps[0] + lastExtent * lastBlock;
    StructItems(types, lens, disps, hs);
    ghost var whole := StructLoop(types, lens, disps, hs, 1, pdt, lastType, lastBlock, lastDisp);
    for i := 1 to |lens|
      invariant Proper(pdt) && Known(types, lastType) && lastExtent == ExtentOf(types, lastType)
      invariant endto == lastDisp + lastExtent * lastBlock
      invariant StructLoop(types, lens, disps, hs, i, pdt, lastType, lastBlock, lastDisp) == whole
    {
      assert hs[i] in hs;
      if hs[i] == lastType && disps[i] == endto {
        lastBlock := lastBlock + lens[i];
        endto := lastDisp + lastExtent * lastBlock;
      } else {
        AddHandleItems(pdt, types, lastType, lastBlock, lastDisp);
        pdt := AddHandle(pdt, types, lastType, lastBlock, lastDisp);
        lastType, lastBlock, lastDisp := hs[i], lens[i], disps[i];
        lastExtent := ExtentOf(types, lastType);
        endto := lastDisp + lastExtent * lastBlock;
      }
    }
    r := AddHandle(pdt, types, lastType, lastBlock, lastDisp);
  }

  /** Merging keeps the type map, whatever the entries. */
  lemma StructItems(types: seq<Type>, lens: seq<nat>, disps: seq<int>, hs: seq<Handle>)
    requires |lens| == |disps| == |hs| > 0 && forall h :: h in hs ==> Known(types, h)
    ensures StructLoop(types, lens, disps, hs, 1, Create(), hs[0], lens[0], disps[0]).items == StructMap(types, lens, disps, hs)
  {
    hide StructMap, StructLoop, Place;
    StructSnoc(types, lens, disps, hs, 0);
    StructNone(types, lens, disps, hs);
    StructLoopItems(types, lens, disps, hs, 1, Create(), hs[0], lens[0], disps[0]);
  }

  lemma {:induction false} StructLoopItems(types: seq<Type>, lens: seq<nat>, disps: seq<int>, hs: seq<Handle>,
                                          i: nat, pdt: Type, h: Handle, len: nat, disp: int)
    requires i <= |lens| == |disps| == |hs| && (forall h :: h in hs ==> Known(types, h)) && Known(types, h) && Proper(pdt)
    requires pdt.items + Place(ItemsOf(types, h), Steps(len, disp, ExtentOf(types, h))) == StructMap(types, lens[..i], disps[..i], hs[..i])
    ensures StructLoop(types, lens, disps, hs, i, pdt, h, len, disp).items == StructMap(types, lens, disps, hs)
    decreases |hs| - i
  {
    hide StructMap, AddHandle, Place, Steps;
    AddHandleItems(pdt, types, h, len, disp);
    if i == |hs| {
      assert lens[..i] == lens && disps[..i] == disps && hs[..i] == hs;
    } else {
      assert hs[i] in hs;
      StructSnoc(types, lens, disps, hs, i);
      if hs[i] == h && disps[i] == disp + len * ExtentOf(types, h) {
        GrowEntry(ItemsOf(types, h), pdt.items, StructMap(types, lens[..i], disps[..i], hs[..i]), len, lens[i], disp, ExtentOf(types, h));
        StructLoopItems(types, lens, disps, hs, i + 1, pdt, h, len + lens[i], disp);
      } else {
        StructLoopItems(types, lens, disps, hs, i + 1, AddHandle(pdt, types, h, len, disp), hs[i], lens[i], disps[i]);
      }
    }
  }

  lemma StructEmpty(types: seq<Type>)
    ensures StructMap(types, [], [], []) == []
  {
  }

  lemma StructNone(types: seq<Type>, lens: seq<nat>, disps: seq<int>, hs: seq<Handle>)
    requires |lens| == |disps| == |hs| > 0 && forall h :: h in hs ==> Known(types, h)
    ensures StructMap(types, lens[..0], disps[..0], hs[..0]) == []
  {
  }
}
