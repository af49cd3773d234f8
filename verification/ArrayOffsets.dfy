/**
 Offsets of the elements of a multi-dimensional array: the product of one index list per
 dimension, linearised with the first dimension varying fastest.
 */
module ArrayOffsets {
  import opened Common
  import opened TypeMaps
  import opened TypeBlocks

  function Prod(gs: seq<nat>): nat {
    if gs == [] then 1 else Prod(gs[..|gs| - 1]) * gs[|gs| - 1]
  }

  lemma ProdNext(gs: seq<nat>, k: nat)
    requires k < |gs|
    ensures Prod(gs[..k + 1]) == Prod(gs[..k]) * gs[k]
  {
    assert gs[..k + 1][..k] == gs[..k];
  }

  predicate Positive(gs: seq<nat>) {
    forall k :: 0 <= k < |gs| ==> gs[k] > 0
  }

  lemma {:induction false} ProdPositive(gs: seq<nat>, k: nat)
    requires Positive(gs) && k <= |gs|
    ensures Prod(gs[..k]) > 0
  {
    if k > 0 {
      ProdPositive(gs, k - 1);
      ProdNext(gs, k - 1);
      assert Prod(gs[..k - 1]) * gs[k - 1] > 0;
    }
  }

  /** The linear offsets of all index tuples over the first k dimensions. */
  function Lin(lists: seq<seq<int>>, gs: seq<nat>, k: nat): seq<int>
    requires k <= |lists| == |gs|
  {
    if k == 0 then [0] else Cross(Scaled(lists[k - 1], Prod(gs[..k - 1])), Lin(lists, gs, k - 1))
  }

  predicate Within(s: seq<int>, n: int) {
    forall x :: x in s ==> 0 <= x < n
  }

  /** Every list has distinct indices of its dimension. */
  predicate Indices(lists: seq<seq<int>>, gs: seq<nat>) {
    |lists| == |gs| && Positive(gs) && forall k :: 0 <= k < |gs| ==> Distinct(lists[k]) && Within(lists[k], gs[k])
  }

  /** The digits of e in the mixed radix gs are in the lists. */
  predicate InBox(lists: seq<seq<int>>, gs: seq<nat>, k: nat, e: int)
    requires k <= |lists| == |gs| && Positive(gs)
  {
    if k == 0 then e == 0
    else
      ProdPositive(gs, k - 1);
      e / Prod(gs[..k - 1]) in lists[k - 1] && InBox(lists, gs, k - 1, e % Prod(gs[..k - 1]))
  }

  lemma {:induction false} CrossMember(a: seq<int>, b: seq<int>, x: int)
    ensures x in Cross(a, b) <==> exists i, j :: 0 <= i < |a| && 0 <= j < |b| && x == a[i] + b[j]
  {
    if a != [] {
      CrossMember(a[1..], b, x);
      var moved, rest := Move(b, a[0]), Cross(a[1..], b);
      assert Cross(a, b) == moved + rest;
      if x in moved {
        var j :| 0 <= j < |moved| && moved[j] == x;
        assert x == a[0] + b[j];
      }
      if x in rest {
        var i, j :| 0 <= i < |a[1..]| && 0 <= j < |b| && x == a[1..][i] + b[j];
        assert x == a[i + 1] + b[j];
      }
      if i, j :| 0 <= i < |a| && 0 <= j < |b| && x == a[i] + b[j] {
        if i == 0 {
          assert moved[j] == x;
        } else {
          assert x == a[1..][i - 1] + b[j];
        }
      }
    }
  }

  lemma MulBounds(k: int, n: int)
    ensures n > 0 && k >= 1 ==> k * n >= n
    ensures n > 0 && k <= -1 ==> k * n <= -n
    ensures n > 0 && k >= 0 ==> k * n >= 0
  {
  }

  lemma DivDef(x: int, n: int)
    requires n > 0
    ensures x == x / n * n + x % n && 0 <= x % n < n
  {
  }

  lemma DivMod(d: int, n: int, r: int)
    requires n > 0 && 0 <= r < n
    ensures (d * n + r) / n == d && (d * n + r) % n == r
  {
    var x := d * n + r;
    assert x == (x / n) * n + x % n;
    assert (x / n - d) * n == r - x % n;
    MulBounds(x / n - d, n);
  }

  /** d * n + v with v below n and d below g stays below n * g. */
  lemma InRange(d: int, n: int, v: int, g: int)
    requires 0 <= d < g && 0 <= v < n
    ensures 0 <= d * n + v < n * g
  {
    MulBounds(d, n);
    MulBounds(g - d, n);
    assert n * g == d * n + (g - d) * n;
  }

  lemma {:induction false} LinBelow(lists: seq<seq<int>>, gs: seq<nat>, k: nat, e: int)
    requires Indices(lists, gs) && k <= |gs| && e in Lin(lists, gs, k)
    ensures 0 <= e < Prod(gs[..k]) && InBox(lists, gs, k, e)
  {
    if k > 0 {
      var n := Prod(gs[..k - 1]);
      ProdPositive(gs, k - 1);
      ProdNext(gs, k - 1);
      var d, v := CrossParts(lists[k - 1], n, Lin(lists, gs, k - 1), e);
      LinBelow(lists, gs, k - 1, v);
      hide Lin, Prod, Cross;
      DivMod(d, n, v);
      InRange(d, n, v, gs[k - 1]);
    }
  }

  lemma CrossParts(list: seq<int>, n: int, inner: seq<int>, e: int) returns (d: int, v: int)
    requires e in Cross(Scaled(list, n), inner)
    ensures d in list && v in inner && e == d * n + v
  {
    CrossMember(Scaled(list, n), inner, e);
    var i, j :| 0 <= i < |list| && 0 <= j < |inner| && e == Scaled(list, n)[i] + inner[j];
    d, v := list[i], inner[j];
  }

  lemma {:induction false} BoxInLin(lists: seq<seq<int>>, gs: seq<nat>, k: nat, e: int)
    requires Indices(lists, gs) && k <= |gs| && 0 <= e < Prod(gs[..k]) && InBox(lists, gs, k, e)
    ensures e in Lin(lists, gs, k)
  {
    if k > 0 {
      var n := Prod(gs[..k - 1]);
      ProdPositive(gs, k - 1);
      var list, inner := lists[k - 1], Lin(lists, gs, k - 1);
      BoxInLin(lists, gs, k - 1, e % n);
      var i :| 0 <= i < |list| && list[i] == e / n;
      var j :| 0 <= j < |inner| && inner[j] == e % n;
      assert e == Scaled(list, n)[i] + inner[j];
      CrossMember(Scaled(list, n), inner, e);
    }
  }

  /** An offset is in the product exactly when each of its digits is in the list of its dimension. */
  lemma LinMember(lists: seq<seq<int>>, gs: seq<nat>, k: nat, e: int)
    requires Indices(lists, gs) && k <= |gs|
    ensures e in Lin(lists, gs, k) <==> 0 <= e < Prod(gs[..k]) && InBox(lists, gs, k, e)
  {
    hide Lin, InBox;
    if e in Lin(lists, gs, k) {
      LinBelow(lists, gs, k, e);
    }
    if 0 <= e < Prod(gs[..k]) && InBox(lists, gs, k, e) {
      BoxInLin(lists, gs, k, e);
    }
  }

  lemma BlockOf(list: seq<int>, n: int, inner: seq<int>, x: int)
    requires n > 0 && Within(inner, n) && x in Cross(Scaled(list, n), inner)
    ensures x / n in list
  {
    CrossMember(Scaled(list, n), inner, x);
    var i, j :| 0 <= i < |list| && 0 <= j < |inner| && x == Scaled(list, n)[i] + inner[j];
    assert inner[j] in inner;
    DivMod(list[i], n, inner[j]);
    assert list[i] in list;
  }

  /** Blocks of width n at distinct multiples of n do not meet. */
  lemma {:induction false} CrossDistinct(list: seq<int>, n: int, inner: seq<int>)
    requires n > 0 && Distinct(list) && Distinct(inner) && Within(inner, n)
    ensures Distinct(Cross(Scaled(list, n), inner))
  {
    if list != [] {
      var rest := list[1..];
      CrossDistinct(rest, n, inner);
      assert Scaled(list, n)[1..] == Scaled(rest, n);
      var here, there := Move(inner, list[0] * n), Cross(Scaled(rest, n), inner);
      assert list[0] !in rest;
      forall x | x in here ensures x !in there {
        var i :| 0 <= i < |inner| && x == here[i];
        assert inner[i] in inner;
        DivMod(list[0], n, inner[i]);
        if x in there {
          BlockOf(rest, n, inner, x);
        }
      }
      DistinctConcat(here, there);
    }
  }

  lemma {:induction false} LinDistinct(lists: seq<seq<int>>, gs: seq<nat>, k: nat)
    requires Indices(lists, gs) && k <= |gs|
    ensures Distinct(Lin(lists, gs, k)) && Within(Lin(lists, gs, k), Prod(gs[..k]))
  {
    forall e | e in Lin(lists, gs, k) ensures 0 <= e < Prod(gs[..k]) {
      LinBelow(lists, gs, k, e);
    }
    if k > 0 {
      LinDistinct(lists, gs, k - 1);
      ProdPositive(gs, k - 1);
      CrossDistinct(lists[k - 1], Prod(gs[..k - 1]), Lin(lists, gs, k - 1));
    }
  }

  // ---------------------------------------------------------------------------------------
  // Building the product one dimension at a time

  lemma ScaledScaled(s: seq<int>, f: int, g: int)
    ensures Scaled(Scaled(s, f), g) == Scaled(s, f * g)
  {
    forall k | 0 <= k < |s| ensures Scaled(Scaled(s, f), g)[k] == Scaled(s, f * g)[k] {
      assert s[k] * f * g == s[k] * (f * g);
    }
  }

  lemma ScaledMove(s: seq<int>, d: int, f: int)
    ensures Scaled(Move(s, d), f) == Move(Scaled(s, f), d * f)
  {
    forall k | 0 <= k < |s| ensures Scaled(Move(s, d), f)[k] == Move(Scaled(s, f), d * f)[k] {
      Distribute(s[k], d, f);
    }
  }

  lemma {:induction false} ScaledCross(a: seq<int>, b: seq<int>, f: int)
    ensures Scaled(Cross(a, b), f) == Cross(Scaled(a, f), Scaled(b, f))
  {
    if a != [] {
      ScaledCross(a[1..], b, f);
      ScaledMove(b, a[0], f);
      assert Scaled(a, f)[1..] == Scaled(a[1..], f);
      assert Scaled(Move(b, a[0]) + Cross(a[1..], b), f) == Scaled(Move(b, a[0]), f) + Scaled(Cross(a[1..], b), f);
    }
  }

  /** Copies of the type for k dimensions, at the indices of dimension k, make the type for k + 1. */
  lemma DimensionStep(items: seq<Item>, lists: seq<seq<int>>, gs: seq<nat>, k: nat, extent: int)
    requires k < |lists| == |gs|
    ensures Place(Place(items, Scaled(Lin(lists, gs, k), extent)), Scaled(lists[k], Prod(gs[..k]) * extent)) ==
            Place(items, Scaled(Lin(lists, gs, k + 1), extent))
  {
    var outer, inner := Scaled(lists[k], Prod(gs[..k])), Lin(lists, gs, k);
    PlacePlace(items, Scaled(inner, extent), Scaled(lists[k], Prod(gs[..k]) * extent));
    ScaledCross(outer, inner, extent);
    ScaledScaled(lists[k], Prod(gs[..k]), extent);
  }

  /** The linear offset of a tuple of starting indices. */
  function Origin(starts: seq<int>, gs: seq<nat>, k: nat): int
    requires k <= |starts| == |gs|
  {
    if k == 0 then 0 else Origin(starts, gs, k - 1) + Prod(gs[..k - 1]) * starts[k - 1]
  }

  function Moved(lists: seq<seq<int>>, starts: seq<int>): (r: seq<seq<int>>)
    requires |lists| == |starts|
    ensures |r| == |lists| && forall k :: 0 <= k < |r| ==> r[k] == Move(lists[k], starts[k])
  {
    seq(|lists|, k requires 0 <= k < |lists| => Move(lists[k], starts[k]))
  }

  lemma {:induction false} CrossMove(a: seq<int>, b: seq<int>, d: int, e: int)
    ensures Cross(Move(a, d), Move(b, e)) == Move(Cross(a, b), d + e)
  {
    if a != [] {
      CrossMove(a[1..], b, d, e);
      assert Move(a, d)[1..] == Move(a[1..], d) && Move(a, d)[0] == a[0] + d;
      MoveTwice(b, e, a[0] + d);
      MoveTwice(b, a[0], d + e);
      assert Move(b, e + (a[0] + d)) == Move(b, a[0] + (d + e));
      MoveBoth(Move(b, a[0]), Cross(a[1..], b), d + e);
    }
  }

  lemma MoveTwice(s: seq<int>, d: int, e: int)
    ensures Move(Move(s, d), e) == Move(s, d + e)
  {
  }

  lemma MoveBoth(s: seq<int>, t: seq<int>, d: int)
    ensures Move(s + t, d) == Move(s, d) + Move(t, d)
  {
  }

  /** Starting elsewhere in each dimension moves the whole product. */
  lemma {:induction false} MovedLin(lists: seq<seq<int>>, starts: seq<int>, gs: seq<nat>, k: nat)
    requires k <= |lists| == |starts| == |gs|
    ensures Lin(Moved(lists, starts), gs, k) == Move(Lin(lists, gs, k), Origin(starts, gs, k))
  {
    hide Scaled, Cross, Prod;
    if k > 0 {
      MovedLin(lists, starts, gs, k - 1);
      MovedCross(lists[k - 1], starts[k - 1], Prod(gs[..k - 1]), Lin(lists, gs, k - 1), Origin(starts, gs, k - 1));
    }
  }

  lemma MovedCross(list: seq<int>, start: int, n: int, inner: seq<int>, d: int)
    ensures Cross(Scaled(Move(list, start), n), Move(inner, d)) == Move(Cross(Scaled(list, n), inner), d + n * start)
  {
    hide Scaled, Cross, Move;
    ScaledMove(list, start, n);
    CrossMove(Scaled(list, n), inner, start * n, d);
    assert start * n + d == d + n * start;
  }

  // ---------------------------------------------------------------------------------------
  // Order of the dimensions

  datatype Order = OrderC | OrderFortran

  /** The k-th fastest dimension: the last ones first in C order. */
  function Nth(order: Order, n: nat, k: nat): (i: nat)
    requires k < n
    ensures i < n
  {
    if order.OrderC? then n - 1 - k else k
  }

  function Fastest<T>(order: Order, s: seq<T>): (r: seq<T>)
    ensures |r| == |s| && forall k :: 0 <= k < |s| ==> r[k] == s[Nth(order, |s|, k)]
  {
    seq(|s|, k requires 0 <= k < |s| => s[Nth(order, |s|, k)])
  }

  lemma OneStep(disp: int, stride: int)
    ensures Steps(1, disp, stride) == [disp]
  {
  }

  /** A run of copies no stride apart. */
  lemma RunLists(n: nat, stride: int)
    ensures Scaled(Steps(n, 0, 1), stride) == Steps(n, 0, stride)
  {
  }

  lemma RangeMember(n: nat, start: int, x: int)
    ensures x in Move(Steps(n, 0, 1), start) <==> start <= x < start + n
  {
    if start <= x < start + n {
      assert Move(Steps(n, 0, 1), start)[x - start] == x;
    }
  }

  lemma LinNone(items: seq<Item>, lists: seq<seq<int>>, gs: seq<nat>, extent: int)
    requires |lists| == |gs|
    ensures Place(items, Scaled(Lin(lists, gs, 0), extent)) == items
  {
    assert Scaled([0], extent) == [0];
    PlaceOnce(items);
  }

  // ---------------------------------------------------------------------------------------
  // Digits

  /** The k-th index of the element at linear offset e. */
  function Digit(gs: seq<nat>, k: nat, e: int): int
    requires k < |gs| && Positive(gs)
  {
    ProdPositive(gs, k);
    e / Prod(gs[..k]) % gs[k]
  }

  lemma TopDigit(gs: seq<nat>, k: nat, e: int)
    requires Positive(gs) && k < |gs| && 0 <= e < Prod(gs[..k + 1])
    ensures Prod(gs[..k]) > 0 && Digit(gs, k, e) == e / Prod(gs[..k])
  {
    var n, g := Prod(gs[..k]), gs[k];
    ProdPositive(gs, k);
    ProdNext(gs, k);
    QuotientBelow(e / n, n, e % n, g);
  }

  lemma QuotientBelow(q: int, n: int, r: int, g: int)
    requires n > 0 && 0 <= r < n && 0 <= q * n + r < n * g
    ensures 0 <= q < g && q % g == q
  {
    MulBounds(q - g, n);
    MulBounds(q, n);
    Distribute(q, -g, n);
  }

  lemma Associate(a: int, b: int, c: int)
    ensures a * b * c == a * (b * c)
  {
  }

  /** Lower digits do not depend on what lies above. */
  lemma LowDigit(gs: seq<nat>, j: nat, k: nat, e: int)
    requires Positive(gs) && j < k < |gs| && 0 <= e
    ensures Prod(gs[..k]) > 0 && Digit(gs, j, e % Prod(gs[..k])) == Digit(gs, j, e)
  {
    hide Prod;
    ProdPositive(gs, k);
    ProdPositive(gs, j);
    ProdNext(gs, j);
    var c := ProdSplit(gs, j + 1, k);
    var a, g, n := Prod(gs[..j]), gs[j], Prod(gs[..k]);
    Associate(a, g, c);
    LowDigitArith(e, n, a, g, c);
  }

  lemma {:induction false} ProdSplit(gs: seq<nat>, j: nat, k: nat) returns (c: nat)
    requires j <= k <= |gs| && Positive(gs)
    ensures Prod(gs[..k]) == Prod(gs[..j]) * c && c > 0
  {
    if j == k {
      c := 1;
    } else {
      var d := ProdSplit(gs, j, k - 1);
      ProdNext(gs, k - 1);
      c := d * gs[k - 1];
      assert Prod(gs[..j]) * d * gs[k - 1] == Prod(gs[..j]) * (d * gs[k - 1]);
      assert d * gs[k - 1] > 0;
    }
  }

  /** Dividing a remainder by a factor of the modulus. */
  lemma QuotientOfRemainder(e: int, n: int, a: int, m: int)
    requires a > 0 && m > 0 && n > 0 && n == a * m
    ensures e % n / a == e / a % m
  {
    var q, r := e / n, e % n;
    var u, v := r / a, r % a;
    QuotientBelow(u, a, v, m);
    assert e == (q * m + u) * a + v by {
      Distribute(q * m, u, a);
      assert q * (a * m) == q * m * a;
    }
    DivMod(q * m + u, a, v);
    DivMod(q, m, u);
  }

  lemma RemainderOfRemainder(x: int, n: int, g: int, c: int)
    requires g > 0 && n > 0 && n == g * c
    ensures x % n % g == x % g
  {
    var q, r := x / n, x % n;
    assert q * (g * c) == q * c * g;
    DigitStays(q * c, g, r);
  }

  lemma LowDigitArith(e: int, n: int, a: int, g: int, c: int)
    requires a > 0 && g > 0 && c > 0 && n > 0 && n == a * (g * c)
    ensures e % n / a % g == e / a % g
  {
    var m := g * c;
    assert m > 0;
    QuotientOfRemainder(e, n, a, m);
    RemainderOfRemainder(e / a, m, g, c);
  }

  lemma DigitStays(m: int, g: int, u: int)
    requires g > 0
    ensures (m * g + u) % g == u % g
  {
    Distribute(m, u / g, g);
    DivMod(m + u / g, g, u % g);
  }

  lemma {:induction false} InBoxDigits(lists: seq<seq<int>>, gs: seq<nat>, k: nat, e: int)
    requires |lists| == |gs| && Positive(gs) && k <= |gs| && 0 <= e < Prod(gs[..k])
    ensures InBox(lists, gs, k, e) <==> forall j :: 0 <= j < k ==> Digit(gs, j, e) in lists[j]
  {
    if k > 0 {
      var n := Prod(gs[..k - 1]);
      ProdPositive(gs, k - 1);
      ProdNext(gs, k - 1);
      InBoxDigits(lists, gs, k - 1, e % n);
      TopDigit(gs, k - 1, e);
      forall j | 0 <= j < k - 1 ensures Digit(gs, j, e % n) == Digit(gs, j, e) {
        LowDigit(gs, j, k - 1, e);
      }
    }
  }

  /** The product holds the elements whose every index is in the list of its dimension. */
  lemma LinDigits(lists: seq<seq<int>>, gs: seq<nat>, e: int)
    requires Indices(lists, gs)
    ensures e in Lin(lists, gs, |gs|) <==> 0 <= e < Prod(gs) && forall k :: 0 <= k < |gs| ==> Digit(gs, k, e) in lists[k]
  {
    hide InBox, Lin;
    assert gs[..|gs|] == gs;
    LinMember(lists, gs, |gs|, e);
    if 0 <= e < Prod(gs) {
      InBoxDigits(lists, gs, |gs|, e);
    }
  }

  // ---------------------------------------------------------------------------------------
  // Indices by dimension

  /** The product of the sizes does not depend on their order. */
  lemma {:induction false} ProdFront(x: nat, s: seq<nat>)
    ensures Prod([x] + s) == x * Prod(s)
  {
    if s == [] {
      assert [x] + s == [x] && [x][..0] == [];
      assert Prod([x]) == Prod([]) * x;
    } else {
      var n := |s| - 1;
      ProdFront(x, s[..n]);
      assert ([x] + s)[..n + 1] == [x] + s[..n];
      Associate(x, Prod(s[..n]), s[n]);
    }
  }

  lemma {:induction false} ProdFastest(order: Order, s: seq<nat>)
    ensures Prod(Fastest(order, s)) == Prod(s)
  {
    if order.OrderC? && s != [] {
      var n := |s| - 1;
      ProdFastest(order, s[..n]);
      assert Fastest(order, s) == [s[n]] + Fastest(order, s[..n]);
      ProdFront(s[n], Fastest(order, s[..n]));
    } else {
      assert Fastest(order, s) == s;
    }
  }

  /**
   The index in dimension i of the element at linear offset e: in C order the elements of the later
   dimensions lie closer together, in Fortran order those of the earlier ones.
   */
  function IndexIn(order: Order, sizes: seq<nat>, i: nat, e: int): int
    requires Positive(sizes) && i < |sizes|
  {
    ProdPositive(sizes[i + 1..], |sizes| - i - 1);
    ProdPositive(sizes, i);
    assert sizes[i + 1..][..|sizes| - i - 1] == sizes[i + 1..];
    match order
    case OrderC => e / Prod(sizes[i + 1..]) % sizes[i]
    case OrderFortran => e / Prod(sizes[..i]) % sizes[i]
  }

  /** The digits of an offset, the fastest first, are its indices. */
  lemma DigitIsIndex(order: Order, sizes: seq<nat>, i: nat, e: int)
    requires Positive(sizes) && i < |sizes|
    ensures Positive(Fastest(order, sizes)) && Nth(order, |sizes|, Nth(order, |sizes|, i)) == i
    ensures Digit(Fastest(order, sizes), Nth(order, |sizes|, i), e) == IndexIn(order, sizes, i, e)
  {
    hide Prod;
    var k := Nth(order, |sizes|, i);
    match order {
      case OrderC =>
        assert Fastest(order, sizes)[..k] == Fastest(order, sizes[i + 1..]);
        ProdFastest(order, sizes[i + 1..]);
      case OrderFortran =>
        assert Fastest(order, sizes)[..k] == sizes[..i];
    }
  }
}
