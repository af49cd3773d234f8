/**
 Type maps of MPI datatypes (section 4.1 of MPI-3.0) and the primitive from which all
 constructors are built, opal_datatype_add (opal/datatype/opal_datatype_add.c).
 */
module TypeMaps {
  import opened Common


  /** A basic type and the byte displacement at which it sits. */
  datatype Item = Item(kind: nat, disp: int)

  /** The type map, the bounds, whether the user set them, and the alignment. */
  datatype Type = Type(items: seq<Item>, lb: int, ub: int, userLb: bool, userUb: bool, align: int)

  const LongMax: int := 0x7fff_ffff_ffff_ffff
  const LongMin: int := -0x8000_0000_0000_0000

  /** ompi_datatype_create: no data yet. */
  function Create(): Type {
    Type([], LongMax, LongMin, false, false, 1)
  }

  function Extent(t: Type): int {
    t.ub - t.lb
  }

  // ---------------------------------------------------------------------------------------
  // Copies of a type map

  function Shift(items: seq<Item>, d: int): (r: seq<Item>)
    ensures |r| == |items|
  {
    seq(|items|, i requires 0 <= i < |items| => items[i].(disp := items[i].disp + d))
  }

  /** One copy at each offset, in order. */
  function Place(items: seq<Item>, offs: seq<int>): seq<Item> {
    if offs == [] then [] else Shift(items, offs[0]) + Place(items, offs[1..])
  }

  /** count offsets from disp on, stride apart. */
  function Steps(count: nat, disp: int, stride: int): (r: seq<int>)
    ensures |r| == count && forall k :: 0 <= k < count ==> r[k] == disp + k * stride
  {
    seq(count, k => disp + k * stride)
  }

  function Move(offs: seq<int>, d: int): (r: seq<int>)
    ensures |r| == |offs| && forall k :: 0 <= k < |offs| ==> r[k] == offs[k] + d
  {
    seq(|offs|, k requires 0 <= k < |offs| => offs[k] + d)
  }

  /** All sums of an outer and an inner offset; the inner ones vary fastest. */
  function Cross(outer: seq<int>, inner: seq<int>): seq<int> {
    if outer == [] then [] else Move(inner, outer[0]) + Cross(outer[1..], inner)
  }

  lemma {:induction false} PlaceConcat(items: seq<Item>, a: seq<int>, b: seq<int>)
    ensures Place(items, a + b) == Place(items, a) + Place(items, b)
  {
    if a == [] {
      assert a + b == b;
    } else {
      PlaceConcat(items, a[1..], b);
      assert (a + b)[1..] == a[1..] + b;
      assert Shift(items, a[0]) + (Place(items, a[1..]) + Place(items, b)) == Place(items, a) + Place(items, b);
    }
  }

  lemma ShiftShift(items: seq<Item>, d: int, e: int)
    ensures Shift(Shift(items, d), e) == Shift(items, d + e)
  {
  }

  lemma ShiftConcat(a: seq<Item>, b: seq<Item>, d: int)
    ensures Shift(a + b, d) == Shift(a, d) + Shift(b, d)
  {
  }

  lemma {:induction false} ShiftPlace(items: seq<Item>, offs: seq<int>, d: int)
    ensures Shift(Place(items, offs), d) == Place(items, Move(offs, d))
  {
    if offs != [] {
      ShiftPlace(items, offs[1..], d);
      ShiftConcat(Shift(items, offs[0]), Place(items, offs[1..]), d);
      ShiftShift(items, offs[0], d);
      assert Move(offs, d)[1..] == Move(offs[1..], d);
    }
  }

  /** Copies of copies are copies at the sums of the offsets. */
  lemma {:induction false} PlacePlace(items: seq<Item>, inner: seq<int>, outer: seq<int>)
    ensures Place(Place(items, inner), outer) == Place(items, Cross(outer, inner))
  {
    if outer != [] {
      PlacePlace(items, inner, outer[1..]);
      ShiftPlace(items, inner, outer[0]);
      PlaceConcat(items, Move(inner, outer[0]), Cross(outer[1..], inner));
    }
  }

  lemma {:induction false} PlaceNothing(offs: seq<int>)
    ensures Place([], offs) == []
  {
    if offs != [] {
      PlaceNothing(offs[1..]);
    }
  }

  lemma PlaceOnce(items: seq<Item>)
    ensures Place(items, [0]) == items
  {
    assert Place(items, [0]) == Shift(items, 0) + Place(items, []);
    assert Shift(items, 0) == items;
  }

  lemma {:induction false} PlaceLength(items: seq<Item>, offs: seq<int>)
    ensures |Place(items, offs)| == |offs| * |items|
  {
    if offs != [] {
      PlaceLength(items, offs[1..]);
      calc {
        |offs| * |items|;
        (|offs| - 1 + 1) * |items|;
        (|offs| - 1) * |items| + |items|;
      }
    }
  }

  lemma RowInside(k: nat, n: nat, w: nat)
    requires k < n && w > 0
    ensures 0 <= k * w && k * w + w <= n * w
    ensures k > 0 ==> k * w == (k - 1) * w + w
  {
    assert n * w == k * w + (n - k) * w;
    assert (n - k) * w >= w by {
      assert (n - k) * w == w + (n - k - 1) * w;
    }
  }

  /** The first item of copy k. */
  lemma {:induction false} PlaceAt(items: seq<Item>, offs: seq<int>, k: nat)
    requires items != [] && k < |offs|
    ensures 0 <= k * |items| < |Place(items, offs)|
    ensures Place(items, offs)[k * |items|] == items[0].(disp := items[0].disp + offs[k])
  {
    var w := |items|;
    PlaceLength(items, offs);
    RowInside(k, |offs|, w);
    var first, rest := Shift(items, offs[0]), Place(items, offs[1..]);
    assert Place(items, offs) == first + rest;
    if k > 0 {
      PlaceAt(items, offs[1..], k - 1);
      assert (first + rest)[(k - 1) * w + w] == rest[(k - 1) * w];
    }
  }

  /** Copies of a non-empty type map tell their offsets. */
  lemma PlaceInjective(items: seq<Item>, a: seq<int>, b: seq<int>)
    requires items != [] && |a| == |b| && Place(items, a) == Place(items, b)
    ensures a == b
  {
    forall k | 0 <= k < |a| ensures a[k] == b[k] {
      PlaceAt(items, a, k);
      PlaceAt(items, b, k);
    }
  }

  // ---------------------------------------------------------------------------------------
  // opal_datatype_add

  /** The bounds of count copies (OPAL_DATATYPE_LB_UB_CONT). */
  function SpanLb(count: nat, disp: int, lb: int, extent: int): int {
    lb + Min(disp, disp + extent * (count - 1))
  }

  function SpanUb(count: nat, disp: int, ub: int, extent: int): int {
    ub + Max(disp, disp + extent * (count - 1))
  }

  /** The C remainder, which takes the sign of the dividend. */
  function Rem(x: int, m: int): int
    requires m > 0
  {
    if x >= 0 then x % m else -((-x) % m)
  }

  /** The upper bound, rounded up to the alignment unless the user set it. */
  function Rounded(lb: int, ub: int, userUb: bool, align: int): int
    requires align > 0
  {
    var epsilon := Rem(ub - lb, align);
    if userUb || epsilon == 0 then ub else ub + align - epsilon
  }

  /** count copies of t at disp, disp + extent, ...; an extent of -1 stands for that of t. */
  function Add(base: Type, t: Type, count: nat, disp: int, extent: int): Type
    requires base.align > 0 && t.align > 0
  {
    if count == 0 then base
    else
      var step := if extent == -1 then Extent(t) else extent;
      var lb := if base.userLb && !t.userLb then base.lb
                else if t.userLb && !base.userLb then SpanLb(count, disp, t.lb, step)
                else Min(base.lb, SpanLb(count, disp, t.lb, step));
      var ub := if base.userUb && !t.userUb then base.ub
                else if t.userUb && !base.userUb then SpanUb(count, disp, t.ub, step)
                else Max(base.ub, SpanUb(count, disp, t.ub, step));
      var userUb := base.userUb || t.userUb;
      var align := Max(base.align, t.align);
      Type(base.items + Place(t.items, Steps(count, disp, step)),
           lb, Rounded(lb, ub, userUb, align), base.userLb || t.userLb, userUb, align)
  }

  /** Adding the marker MPI_LB or MPI_UB. */
  function AddLb(base: Type, disp: int): Type {
    base.(lb := if base.userLb then Min(base.lb, disp) else disp, userLb := true)
  }

  function AddUb(base: Type, disp: int): Type {
    base.(ub := if base.userUb then Max(base.ub, disp) else disp, userUb := true)
  }

  /** opal_datatype_resize: new bounds, same data. */
  function Resize(t: Type, lb: int, extent: int): Type {
    t.(lb := lb, ub := lb + extent)
  }
}
