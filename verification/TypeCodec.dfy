/**
 The packed description of a datatype (ompi/datatype/ompi_datatype_args.c), for builds in which
 the alignment macros are empty: integers of four bytes, displacements of eight, in the byte
 order of the writer, which the reader knows.
 */
module IntegerBytes {
  import opened Common
  import opened Bytes

  /** The value fits a two's complement integer of that many bytes. */
  predicate FitsBytes(v: int, width: nat) {
    2 * v < Power(width) && 0 <= 2 * v + Power(width)
  }

  function Encode(o: Order, v: int, width: nat): (s: seq<Byte>)
    ensures |s| == width
  {
    Arrange(o, BigEndian(if v < 0 && v + Power(width) >= 0 then v + Power(width) else if v < 0 then 0 else v, width))
  }

  function Decode(o: Order, s: seq<Byte>): int {
    var n := Number(Arrange(o, s));
    if 2 * n < Power(|s|) then n else n - Power(|s|)
  }

  lemma RoundTrip(o: Order, v: int, width: nat)
    requires FitsBytes(v, width)
    ensures Decode(o, Encode(o, v, width)) == v
  {
    hide Number, BigEndian, Power;
    var n := if v < 0 then v + Power(width) else v;
    PowerPositive(width);
    NumberOfBytes(n, width);
    var s := BigEndian(n, width);
    ArrangeTwice(o, s);
    WidthOf(n, width);
  }

  lemma {:induction false} PowerPositive(width: nat)
    ensures Power(width) > 0
  {
    if width > 0 {
      PowerPositive(width - 1);
    }
  }

  lemma WidthOf(n: nat, width: nat)
    ensures |BigEndian(n, width)| == width
  {
  }

  lemma ArrangeTwice(o: Order, s: seq<Byte>)
    ensures Arrange(o, Arrange(o, s)) == s && |Arrange(o, s)| == |s|
  {
  }

  /** An array of integers, one after the other. */
  function EncodeAll(o: Order, vs: seq<int>, width: nat): (s: seq<Byte>)
    ensures |s| == width * |vs|
  {
    if vs == [] then [] else EncodeAll(o, vs[..|vs| - 1], width) + Encode(o, vs[|vs| - 1], width)
  }

  function DecodeAll(o: Order, s: seq<Byte>, width: nat, count: nat): (vs: seq<int>)
    requires width * count <= |s|
    ensures |vs| == count
  {
    if count == 0 then []
    else
      assert width * count == width * (count - 1) + width;
      DecodeAll(o, s, width, count - 1) + [Decode(o, s[width * (count - 1)..width * (count - 1) + width])]
  }

  predicate FitAll(vs: seq<int>, width: nat) {
    forall i :: 0 <= i < |vs| ==> FitsBytes(vs[i], width)
  }

  lemma {:induction false} RoundTripAll(o: Order, vs: seq<int>, width: nat, rest: seq<Byte>)
    requires FitAll(vs, width)
    ensures DecodeAll(o, EncodeAll(o, vs, width) + rest, width, |vs|) == vs
  {
    hide Encode, Decode, FitsBytes;
    if vs != [] {
      var n := |vs| - 1;
      var front, last := EncodeAll(o, vs[..n], width), Encode(o, vs[n], width);
      LengthOf(o, vs[n], width);
      var s := EncodeAll(o, vs, width) + rest;
      Associative(front, last, rest);
      RoundTripAll(o, vs[..n], width, last + rest);
      RoundTrip(o, vs[n], width);
      assert width * |vs| == width * n + width && |front| == width * n;
      assert s[width * n..width * n + width] == last;
      assert vs == vs[..n] + [vs[n]];
    }
  }

  lemma LengthOf(o: Order, v: int, width: nat)
    ensures |Encode(o, v, width)| == width
  {
  }
}

module TypeCodec {
  import opened Wrappers
  import opened Common
  import opened Bytes
  import opened IntegerBytes

  const MaxPredefined: nat := 47

  /** The combiners of mpi.h, in the order of their values. */
  datatype Combiner =
    | CNamed | CDup | CContiguous | CVector | CHvectorInteger | CHvector | CIndexed | CHindexedInteger | CHindexed
    | CIndexedBlock | CStructInteger | CStruct | CSubarray | CDarray | CF90Real | CF90Complex | CF90Integer | CResized | CHindexedBlock

  function Code(c: Combiner): int {
    match c
    case CNamed => 0 case CDup => 1 case CContiguous => 2 case CVector => 3 case CHvectorInteger => 4 case CHvector => 5
    case CIndexed => 6 case CHindexedInteger => 7 case CHindexed => 8 case CIndexedBlock => 9 case CStructInteger => 10
    case CStruct => 11 case CSubarray => 12 case CDarray => 13 case CF90Real => 14 case CF90Complex => 15
    case CF90Integer => 16 case CResized => 17 case CHindexedBlock => 18
  }

  /** A predefined type, a duplicate, or a type with the arguments of its constructor. */
  datatype Tree =
    | Named(id: nat)
    | Dup(original: Tree)
    | Derived(combiner: Combiner, ints: seq<int>, aints: seq<int>, kids: seq<Tree>)

  // ---------------------------------------------------------------------------------------
  // Writing

  datatype Packed = Packed(bytes: seq<Byte>, next: nat)

  datatype PackedKids = PackedKids(positions: seq<int>, bytes: seq<Byte>, next: nat)

  function HeaderInts(t: Tree): seq<int>
    requires t.Derived?
  {
    [Code(t.combiner), |t.ints|, |t.aints|, |t.kids|]
  }

  /** __ompi_datatype_pack_description; next is the number of the next described type. */
  function Pack(o: Order, t: Tree, next: nat): Packed
    decreases t
  {
    match t
    case Named(id) => Packed(EncodeAll(o, [Code(CNamed), id], 4), next)
    case Dup(original) => Pack(o, original, next)
    case Derived(_, ints, aints, kids) =>
      var k := PackKids(o, kids, next);
      Packed(EncodeAll(o, HeaderInts(t), 4) + EncodeAll(o, aints, 8) + EncodeAll(o, k.positions, 4) + EncodeAll(o, ints, 4) + k.bytes, k.next)
  }

  /** Its loop over the constituent types: predefined ones by number, others described behind. */
  function PackKids(o: Order, kids: seq<Tree>, next: nat): (k: PackedKids)
    ensures |k.positions| == |kids|
    decreases kids
  {
    if kids == [] then PackedKids([], [], next)
    else
      var front, last := PackKids(o, kids[..|kids| - 1], next), kids[|kids| - 1];
      if last.Named? then PackedKids(front.positions + [last.id], front.bytes, front.next)
      else
        var p := Pack(o, last, front.next + 1);
        PackedKids(front.positions + [front.next], front.bytes + p.bytes, p.next)
  }

  // ---------------------------------------------------------------------------------------
  // Reading

  /**
   What a type keeps about its construction: its predefined number, or the combiner, the number ci of
   integers that there is room for, the integers written there, the displacements and the old types.
   */
  datatype Record =
    | Predefined(id: nat)
    | Constructed(combiner: Combiner, ci: int, ints: seq<int>, aints: seq<int>, kids: seq<Record>)

  datatype Read = Read(record: Record, rest: seq<Byte>)

  datatype ReadKids = ReadKids(kids: seq<Record>, rest: seq<Byte>)

  function CombinerOf(code: int): Option<Combiner> {
    match code
    case 0 => Some(CNamed) case 1 => Some(CDup) case 2 => Some(CContiguous) case 3 => Some(CVector) case 4 => Some(CHvectorInteger)
    case 5 => Some(CHvector) case 6 => Some(CIndexed) case 7 => Some(CHindexedInteger) case 8 => Some(CHindexed)
    case 9 => Some(CIndexedBlock) case 10 => Some(CStructInteger) case 11 => Some(CStruct) case 12 => Some(CSubarray)
    case 13 => Some(CDarray) case 14 => Some(CF90Real) case 15 => Some(CF90Complex) case 16 => Some(CF90Integer)
    case 17 => Some(CResized) case 18 => Some(CHindexedBlock) case _ => None
  }

  /** As many arguments as the constructor records, with n old types; none of the other combiners is built again. */
  predicate Recorded(c: Combiner, ints: seq<int>, aints: seq<int>, n: nat) {
    match c
    case CContiguous => |ints| == 1 && |aints| == 0 && n == 1
    case CVector => |ints| == 3 && |aints| == 0 && n == 1
    case CHvector | CHvectorInteger => |ints| == 2 && |aints| == 1 && n == 1
    case CIndexed => |ints| > 0 && |ints| == 2 * ints[0] + 1 && |aints| == 0 && n == 1
    case CHindexed | CHindexedInteger => |ints| > 0 && |ints| == ints[0] + 1 && |aints| == ints[0] && n == 1
    case CStruct | CStructInteger => |ints| > 0 && |ints| == ints[0] + 1 && |aints| == ints[0] && n == ints[0]
    case CSubarray => |ints| > 0 && |ints| == 3 * ints[0] + 2 && |aints| == 0 && n == 1
    case CIndexedBlock => |ints| > 1 && |ints| == ints[0] + 2 && |aints| == 0 && n == 1
    case CHindexedBlock => |ints| > 1 && |ints| == ints[0] + 2 && |aints| == ints[0] && n == 1
    case CDarray => |ints| > 2 && |ints| == 4 * ints[2] + 4 && |aints| == 0 && n == 1
    case _ => false
  }

  function Plain(c: Combiner): Combiner {
    match c
    case CHvectorInteger => CHvector
    case CHindexedInteger => CHindexed
    case CStructInteger => CStruct
    case _ => c
  }

  /** n elements from `from` on, as far as there are any. */
  function Slice(s: seq<int>, from: int, n: nat): seq<int> {
    var a := Min(Max(from, 0), |s|);
    s[a..Min(a + n, |s|)]
  }

  /** What is copied for SUBARRAY: the number of dimensions, sizes, subsizes, starts and order. */
  function SubarrayInts(ints: seq<int>, n: nat): seq<int>
    requires |ints| == 3 * n + 2
  {
    [ints[0]] + ints[1..1 + n] + ints[1 + n..1 + 2 * n] + ints[1 + 2 * n..1 + 3 * n] + [ints[1 + 3 * n]]
  }

  /** For DARRAY: d elements of each list, which are taken to be n apart. */
  function DarrayInts(ints: seq<int>, n: int, d: nat): seq<int>
    requires |ints| > 2
  {
    [ints[0], ints[1], ints[2]] + Slice(ints, 3, d) + Slice(ints, 3 + n, d) + Slice(ints, 3 + 2 * n, d) + Slice(ints, 3 + 3 * n, d) + Slice(ints, 3 + 4 * n, 1)
  }

  /**
   The constructor called again, and set_args with the counts of __ompi_datatype_create_from_args:
   the _INTEGER forms go under the plain combiner. INDEXED_BLOCK makes room for 2 * i[0] integers and
   writes i[0] + 2, HINDEXED_BLOCK makes room for 2 + i[0] and writes two, and DARRAY takes the size
   of the grid for the number of dimensions, except in the copying.
   */
  function Remade(c: Combiner, ints: seq<int>, aints: seq<int>, kids: seq<Record>): Record
    requires Recorded(c, ints, aints, |kids|)
  {
    match c
    case CContiguous => Constructed(CContiguous, 1, [ints[0]], [], [kids[0]])
    case CVector => Constructed(CVector, 3, [ints[0], ints[1], ints[2]], [], [kids[0]])
    case CHvector | CHvectorInteger => Constructed(CHvector, 2, [ints[0], ints[1]], [aints[0]], [kids[0]])
    case CIndexed =>
      var n := ints[0];
      Constructed(CIndexed, 2 * n + 1, [n] + ints[1..1 + n] + ints[1 + n..1 + 2 * n], [], [kids[0]])
    case CHindexed | CHindexedInteger =>
      Constructed(CHindexed, ints[0] + 1, [ints[0]] + ints[1..1 + ints[0]], aints[..ints[0]], [kids[0]])
    case CStruct | CStructInteger =>
      Constructed(CStruct, ints[0] + 1, [ints[0]] + ints[1..1 + ints[0]], aints[..ints[0]], kids[..ints[0]])
    case CSubarray => Constructed(CSubarray, 3 * ints[0] + 2, SubarrayInts(ints, ints[0]), [], [kids[0]])
    case CIndexedBlock => Constructed(CIndexedBlock, 2 * ints[0], [ints[0], ints[1]] + ints[2..2 + ints[0]], [], [kids[0]])
    case CHindexedBlock => Constructed(CHindexedBlock, 2 + ints[0], [ints[0], ints[1]], aints[..ints[0]], [kids[0]])
    case CDarray => Constructed(CDarray, 4 * ints[0] + 4, DarrayInts(ints, ints[0], ints[2]), [], [kids[0]])
  }

  /** __ompi_datatype_create_from_args. It builds nothing for RESIZED and the F90 types. */
  function Rebuild(c: Combiner, ints: seq<int>, aints: seq<int>, kids: seq<Record>): Option<Record> {
    if Recorded(c, ints, aints, |kids|) then Some(Remade(c, ints, aints, kids)) else None
  }

  /** __ompi_datatype_create_from_packed_description; None also where the buffer is too short. */
  function Unpack(o: Order, s: seq<Byte>): (r: Option<Read>)
    ensures r.Some? ==> |r.value.rest| <= |s|
    decreases |s|, 0
  {
    if |s| < 8 then None
    else
      var head := DecodeAll(o, s, 4, 2);
      if head[0] == Code(CNamed) then
        if 0 <= head[1] < MaxPredefined then Some(Read(Predefined(head[1]), s[8..])) else None
      else if |s| < 16 then None
      else
        var h := DecodeAll(o, s, 4, 4);
        var c, ci, ca, cd := CombinerOf(h[0]), h[1], h[2], h[3];
        if c.None? || ci < 0 || ca < 0 || cd < 0 || 16 + 8 * ca + 4 * cd + 4 * ci > |s| then None
        else
          var s1 := s[16..];
          var aints := DecodeAll(o, s1, 8, ca);
          var s2 := s1[8 * ca..];
          var positions := DecodeAll(o, s2, 4, cd);
          var s3 := s2[4 * cd..];
          var ints := DecodeAll(o, s3, 4, ci);
          var kids := UnpackKids(o, positions, s3[4 * ci..]);
          if kids.None? then None
          else
            var t := Rebuild(c.value, ints, aints, kids.value.kids);
            if t.None? then None else Some(Read(t.value, kids.value.rest))
  }

  function UnpackKids(o: Order, positions: seq<int>, s: seq<Byte>): (r: Option<ReadKids>)
    ensures r.Some? ==> |r.value.rest| <= |s|
    decreases |s|, |positions| + 1
  {
    if positions == [] then Some(ReadKids([], s))
    else
      var front := UnpackKids(o, positions[..|positions| - 1], s);
      var id := positions[|positions| - 1];
      if front.None? || id < 0 then None
      else if id < MaxPredefined then Some(ReadKids(front.value.kids + [Predefined(id)], front.value.rest))
      else
        var last := Unpack(o, front.value.rest);
        if last.None? then None
        else Some(ReadKids(front.value.kids + [last.value.record], last.value.rest))
  }

  // ---------------------------------------------------------------------------------------
  // Round trip

  /** The integers that set_args writes when a type is first constructed. */
  function Kept(c: Combiner, ints: seq<int>): seq<int> {
    if c.CHindexedBlock? && |ints| > 2 then ints[..2] else ints
  }

  /** What was recorded, without duplicates and under plain combiners. */
  function Normal(t: Tree): Record
    decreases t
  {
    match t
    case Named(id) => Predefined(id)
    case Dup(original) => Normal(original)
    case Derived(c, ints, aints, kids) => Constructed(Plain(c), |ints|, Kept(c, ints), aints, NormalKids(kids))
  }

  function NormalKids(kids: seq<Tree>): (r: seq<Record>)
    ensures |r| == |kids|
    decreases kids
  {
    if kids == [] then [] else NormalKids(kids[..|kids| - 1]) + [Normal(kids[|kids| - 1])]
  }

  /** Recorded by constructors that are called again, from values that fit their fields. */
  predicate Good(t: Tree)
    decreases t
  {
    match t
    case Named(id) => id < MaxPredefined
    case Dup(original) => Good(original)
    case Derived(c, ints, aints, kids) =>
      && Recorded(c, ints, aints, |kids|) && FitAll(ints, 4) && FitAll(aints, 8) && FitAll(HeaderInts(t), 4)
      && GoodKids(kids)
  }

  predicate GoodKids(kids: seq<Tree>)
    decreases kids
  {
    kids == [] || (GoodKids(kids[..|kids| - 1]) && Good(kids[|kids| - 1]))
  }

  /** What the constructors called again record, from the constituents up. */
  function Again(t: Tree): Record
    requires Good(t)
    decreases t
  {
    match t
    case Named(id) => Predefined(id)
    case Dup(original) => Again(original)
    case Derived(c, ints, aints, kids) => Remade(c, ints, aints, AgainKids(kids))
  }

  function AgainKids(kids: seq<Tree>): (r: seq<Record>)
    requires GoodKids(kids)
    ensures |r| == |kids|
    decreases kids
  {
    if kids == [] then [] else AgainKids(kids[..|kids| - 1]) + [Again(kids[|kids| - 1])]
  }

  /** How many numbers the description takes. */
  function Numbers(t: Tree): nat
    decreases t
  {
    match t
    case Named(_) => 0
    case Dup(original) => Numbers(original)
    case Derived(_, _, _, kids) => NumbersKids(kids)
  }

  function NumbersKids(kids: seq<Tree>): nat
    decreases kids
  {
    if kids == [] then 0
    else NumbersKids(kids[..|kids| - 1]) + if kids[|kids| - 1].Named? then 0 else 1 + Numbers(kids[|kids| - 1])
  }

  const IntLimit: int := 0x8000_0000

  lemma IntFits(v: int)
    requires -IntLimit <= v < IntLimit
    ensures FitsBytes(v, 4)
  {
    assert Power(1) == 256;
    assert Power(3) == 256 * Power(2);
  }

  lemma {:induction false} PackNext(o: Order, t: Tree, next: nat)
    ensures Pack(o, t, next).next == next + Numbers(t)
    decreases t
  {
    match t
    case Named(_) =>
    case Dup(original) => PackNext(o, original, next);
    case Derived(_, _, _, kids) => PackKidsNext(o, kids, next);
  }

  lemma {:induction false} PackKidsNext(o: Order, kids: seq<Tree>, next: nat)
    ensures PackKids(o, kids, next).next == next + NumbersKids(kids)
    decreases kids
  {
    if kids != [] {
      PackKidsNext(o, kids[..|kids| - 1], next);
      PackNext(o, kids[|kids| - 1], PackKids(o, kids[..|kids| - 1], next).next + 1);
    }
  }

  lemma Prefix<T>(s: seq<T>, a: nat, b: nat)
    requires a <= b <= |s|
    ensures s[..a] + s[a..b] == s[..b]
  {
  }

  lemma DarraySlices(ints: seq<int>, n: nat)
    requires |ints| == 4 * n + 4
    ensures DarrayInts(ints, n, n) == ints
  {
    assert ints[..3] == [ints[0], ints[1], ints[2]];
    Prefix(ints, 3, 3 + n);
    Prefix(ints, 3 + n, 3 + n + n);
    Prefix(ints, 3 + 2 * n, 3 + 2 * n + n);
    Prefix(ints, 3 + 3 * n, 3 + 3 * n + n);
    Prefix(ints, 3 + 4 * n, 4 + 4 * n);
    assert ints == ints[..4 + 4 * n];
  }

  lemma SubarraySlices(ints: seq<int>, n: nat)
    requires |ints| == 3 * n + 2
    ensures SubarrayInts(ints, n) == ints
  {
    assert ints[..1] == [ints[0]];
    Prefix(ints, 1, 1 + n);
    Prefix(ints, 1 + n, 1 + 2 * n);
    Prefix(ints, 1 + 2 * n, 1 + 3 * n);
    assert ints == ints[..1 + 3 * n] + [ints[1 + 3 * n]];
  }

  lemma RemadeSubarray(ints: seq<int>, aints: seq<int>, kids: seq<Record>)
    requires Recorded(CSubarray, ints, aints, |kids|)
    ensures Remade(CSubarray, ints, aints, kids) == Constructed(CSubarray, |ints|, Kept(CSubarray, ints), aints, kids)
  {
    hide SubarrayInts;
    SubarraySlices(ints, ints[0]);
    NothingLeft(aints, kids);
  }

  lemma RemadeDarray(ints: seq<int>, aints: seq<int>, kids: seq<Record>)
    requires Recorded(CDarray, ints, aints, |kids|) && ints[0] == ints[2]
    ensures Remade(CDarray, ints, aints, kids) == Constructed(CDarray, |ints|, Kept(CDarray, ints), aints, kids)
  {
    hide DarrayInts;
    DarraySlices(ints, ints[0]);
    NothingLeft(aints, kids);
  }

  lemma RemadeIndexed(ints: seq<int>, aints: seq<int>, kids: seq<Record>)
    requires Recorded(CIndexed, ints, aints, |kids|)
    ensures Remade(CIndexed, ints, aints, kids) == Constructed(CIndexed, |ints|, Kept(CIndexed, ints), aints, kids)
  {
    IndexedSlices(ints, ints[0]);
    NothingLeft(aints, kids);
  }

  lemma RemadeIndexedBlock(ints: seq<int>, aints: seq<int>, kids: seq<Record>)
    requires Recorded(CIndexedBlock, ints, aints, |kids|) && ints[0] == 2
    ensures Remade(CIndexedBlock, ints, aints, kids) == Constructed(CIndexedBlock, |ints|, Kept(CIndexedBlock, ints), aints, kids)
  {
    BlockSlices(ints, ints[0]);
    NothingLeft(aints, kids);
  }

  lemma RemadeHindexedBlock(ints: seq<int>, aints: seq<int>, kids: seq<Record>)
    requires Recorded(CHindexedBlock, ints, aints, |kids|)
    ensures Remade(CHindexedBlock, ints, aints, kids) == Constructed(CHindexedBlock, |ints|, Kept(CHindexedBlock, ints), aints, kids)
  {
    assert aints[..ints[0]] == aints && Kept(CHindexedBlock, ints) == [ints[0], ints[1]];
    NothingLeft(aints, kids);
  }

  lemma RemadeList(c: Combiner, ints: seq<int>, aints: seq<int>, kids: seq<Record>)
    requires (c.CHindexed? || c.CHindexedInteger? || c.CStruct? || c.CStructInteger?) && Recorded(c, ints, aints, |kids|)
    ensures Remade(c, ints, aints, kids) == Constructed(Plain(c), |ints|, Kept(c, ints), aints, kids)
  {
    ListSlices(ints, aints, kids, ints[0]);
  }

  lemma RemadeFew(c: Combiner, ints: seq<int>, aints: seq<int>, kids: seq<Record>)
    requires (c.CContiguous? || c.CVector? || c.CHvector? || c.CHvectorInteger?) && Recorded(c, ints, aints, |kids|)
    ensures Remade(c, ints, aints, kids) == Constructed(Plain(c), |ints|, Kept(c, ints), aints, kids)
  {
    FewArguments(ints, aints, kids);
  }

  /** What INDEXED_BLOCK and DARRAY need for their counts to be right; the other combiners need nothing. */
  predicate CountsRight(c: Combiner, ints: seq<int>) {
    match c
    case CIndexedBlock => |ints| > 0 && ints[0] == 2
    case CDarray => |ints| > 2 && ints[0] == ints[2]
    case _ => true
  }

  lemma RemadeSame(c: Combiner, ints: seq<int>, aints: seq<int>, kids: seq<Record>)
    requires Recorded(c, ints, aints, |kids|) && CountsRight(c, ints)
    ensures Remade(c, ints, aints, kids) == Constructed(Plain(c), |ints|, Kept(c, ints), aints, kids)
  {
    hide Remade, Recorded, Kept;
    match c
    case CSubarray => RemadeSubarray(ints, aints, kids);
    case CDarray => RemadeDarray(ints, aints, kids);
    case CIndexed => RemadeIndexed(ints, aints, kids);
    case CIndexedBlock => RemadeIndexedBlock(ints, aints, kids);
    case CHindexedBlock => RemadeHindexedBlock(ints, aints, kids);
    case CHindexed | CHindexedInteger | CStruct | CStructInteger => RemadeList(c, ints, aints, kids);
    case CContiguous | CVector | CHvector | CHvectorInteger => RemadeFew(c, ints, aints, kids);
    case _ => RecordedKinds(c, ints, aints, |kids|);
  }

  lemma RecordedKinds(c: Combiner, ints: seq<int>, aints: seq<int>, n: nat)
    requires Recorded(c, ints, aints, n)
    ensures !c.CNamed? && !c.CDup? && !c.CF90Real? && !c.CF90Complex? && !c.CF90Integer? && !c.CResized?
  {
  }

  lemma RemadeKids(c: Combiner, ints: seq<int>, aints: seq<int>, kids: seq<Record>)
    requires Recorded(c, ints, aints, |kids|)
    ensures Remade(c, ints, aints, kids).kids == kids
  {
  }

  /** A constructor called again gets its room and all it had written exactly when the counts are right. */
  lemma RebuildExact(c: Combiner, ints: seq<int>, aints: seq<int>, kids: seq<Record>)
    requires Recorded(c, ints, aints, |kids|)
    ensures Rebuild(c, ints, aints, kids) == Some(Constructed(Plain(c), |ints|, Kept(c, ints), aints, kids)) <==> CountsRight(c, ints)
    ensures !CountsRight(c, ints) ==> Remade(c, ints, aints, kids).ci != |ints|
  {
    if CountsRight(c, ints) {
      RemadeSame(c, ints, aints, kids);
    }
  }

  /** The counts are right in every type of the tree. */
  predicate AllRight(t: Tree)
    decreases t
  {
    match t
    case Named(_) => true
    case Dup(original) => AllRight(original)
    case Derived(c, ints, _, kids) => CountsRight(c, ints) && AllRightKids(kids)
  }

  predicate AllRightKids(kids: seq<Tree>)
    decreases kids
  {
    kids == [] || (AllRightKids(kids[..|kids| - 1]) && AllRight(kids[|kids| - 1]))
  }

  /** The whole tree comes back exactly when all of them are. */
  lemma {:induction false} AgainExact(t: Tree)
    requires Good(t)
    ensures Again(t) == Normal(t) <==> AllRight(t)
    decreases t
  {
    hide Remade, Recorded, Kept, CountsRight;
    match t
    case Named(_) =>
    case Dup(original) => AgainExact(original);
    case Derived(c, ints, aints, kids) =>
      var again := AgainKids(kids);
      AgainKidsExact(kids);
      RemadeKids(c, ints, aints, again);
      RebuildExact(c, ints, aints, again);
  }

  lemma {:induction false} AgainKidsExact(kids: seq<Tree>)
    requires GoodKids(kids)
    ensures AgainKids(kids) == NormalKids(kids) <==> AllRightKids(kids)
    decreases kids
  {
    hide Again, Normal, AllRight;
    if kids != [] {
      var init, last := kids[..|kids| - 1], kids[|kids| - 1];
      AgainKidsExact(init);
      AgainExact(last);
      var a, b := AgainKids(kids), NormalKids(kids);
      assert a[..|init|] == AgainKids(init) && b[..|init|] == NormalKids(init);
      assert a[|init|] == Again(last) && b[|init|] == Normal(last);
    }
  }

  lemma NothingLeft(aints: seq<int>, kids: seq<Record>)
    ensures |aints| == 0 ==> aints == []
    ensures |kids| == 1 ==> kids == [kids[0]]
  {
  }

  lemma IndexedSlices(ints: seq<int>, n: nat)
    requires |ints| == 2 * n + 1
    ensures [ints[0]] + ints[1..1 + n] + ints[1 + n..1 + 2 * n] == ints
  {
  }

  lemma BlockSlices(ints: seq<int>, n: nat)
    requires |ints| == n + 2
    ensures [ints[0], ints[1]] + ints[2..2 + n] == ints
  {
  }

  lemma ListSlices(ints: seq<int>, aints: seq<int>, kids: seq<Record>, n: nat)
    requires |ints| == n + 1 && |aints| == n
    ensures [ints[0]] + ints[1..1 + n] == ints && aints[..n] == aints
    ensures |kids| == n ==> kids[..n] == kids
    ensures |kids| == 1 ==> kids == [kids[0]]
  {
  }

  lemma FewArguments(ints: seq<int>, aints: seq<int>, kids: seq<Record>)
    ensures |ints| == 1 ==> ints == [ints[0]]
    ensures |ints| == 2 ==> ints == [ints[0], ints[1]]
    ensures |ints| == 3 ==> ints == [ints[0], ints[1], ints[2]]
    ensures |aints| == 0 ==> aints == [] == aints[..0]
    ensures |aints| == 1 ==> aints == [aints[0]]
    ensures |kids| == 1 ==> kids == [kids[0]]
  {
  }

  lemma CodeRoundTrip(c: Combiner)
    ensures CombinerOf(Code(c)) == Some(c) && 0 <= Code(c) < 19 && (Code(c) == 0 <==> c.CNamed?)
  {
  }

  /**
   Reading what was written constructs every type of the tree again and consumes exactly the bytes
   written, whatever follows them.
   */
  lemma {:induction false} PackUnpack(o: Order, t: Tree, next: nat, rest: seq<Byte>)
    requires Good(t) && MaxPredefined <= next && next + Numbers(t) <= IntLimit
    ensures Unpack(o, Pack(o, t, next).bytes + rest) == Some(Read(Again(t), rest))
    decreases t
  {
    match t
    case Named(id) => NamedRoundTrip(o, id, rest);
    case Dup(original) => PackUnpack(o, original, next, rest);
    case Derived(c, ints, aints, kids) =>
      PackUnpackKids(o, kids, next, rest);
      PositionsFit(o, kids, next);
      DerivedRoundTrip(o, t, PackKids(o, kids, next), rest);
  }

  lemma NamedRoundTrip(o: Order, id: nat, rest: seq<Byte>)
    requires id < MaxPredefined
    ensures Unpack(o, EncodeAll(o, [Code(CNamed), id], 4) + rest) == Some(Read(Predefined(id), rest))
  {
    IntFits(0);
    IntFits(id);
    RoundTripAll(o, [Code(CNamed), id], 4, rest);
    assert (EncodeAll(o, [Code(CNamed), id], 4) + rest)[8..] == rest;
  }

  lemma {:induction false} PositionsFit(o: Order, kids: seq<Tree>, next: nat)
    requires GoodKids(kids) && MaxPredefined <= next && next + NumbersKids(kids) <= IntLimit
    ensures FitAll(PackKids(o, kids, next).positions, 4)
    decreases kids
  {
    if kids != [] {
      var front, last := kids[..|kids| - 1], kids[|kids| - 1];
      PositionsFit(o, front, next);
      PackKidsNext(o, front, next);
      IntFits(if last.Named? then last.id else PackKids(o, front, next).next);
    }
  }

  lemma {:induction false} PackUnpackKids(o: Order, kids: seq<Tree>, next: nat, rest: seq<Byte>)
    requires GoodKids(kids) && MaxPredefined <= next && next + NumbersKids(kids) <= IntLimit
    ensures var k := PackKids(o, kids, next); UnpackKids(o, k.positions, k.bytes + rest) == Some(ReadKids(AgainKids(kids), rest))
    decreases kids
  {
    hide Unpack, Pack, Again, Good, Numbers, UnpackKids, PackKids, AgainKids, GoodKids, NumbersKids;
    var k := PackKids(o, kids, next);
    if kids == [] {
      NoKids(o, next, rest);
      assert [] + rest == rest;
    } else {
      var init, last := kids[..|kids| - 1], kids[|kids| - 1];
      var front := PackKids(o, init, next);
      LastKid(o, kids, next);
      PackKidsNext(o, init, next);
      if last.Named? {
        PackUnpackKids(o, init, next, rest);
        OneMoreKid(o, k.positions, front.bytes + rest);
      } else {
        var p := Pack(o, last, front.next + 1);
        PackUnpackKids(o, init, next, p.bytes + rest);
        Associative(front.bytes, p.bytes, rest);
        OneMoreKid(o, k.positions, k.bytes + rest);
        PackUnpack(o, last, front.next + 1, rest);
      }
    }
  }

  lemma LastKid(o: Order, kids: seq<Tree>, next: nat)
    requires kids != [] && GoodKids(kids)
    ensures var init, last := kids[..|kids| - 1], kids[|kids| - 1];
            var front, k := PackKids(o, init, next), PackKids(o, kids, next);
            && k.positions != [] && k.positions[..|k.positions| - 1] == front.positions
            && GoodKids(init) && Good(last) && AgainKids(kids) == AgainKids(init) + [Again(last)]
            && (last.Named? ==> last.id < MaxPredefined && Again(last) == Predefined(last.id) && k.positions[|k.positions| - 1] == last.id
                                && k.bytes == front.bytes && NumbersKids(kids) == NumbersKids(init))
            && (!last.Named? ==> k.positions[|k.positions| - 1] == front.next
                                 && k.bytes == front.bytes + Pack(o, last, front.next + 1).bytes
                                 && NumbersKids(kids) == NumbersKids(init) + 1 + Numbers(last))
  {
    hide Pack;
  }

  lemma NoKids(o: Order, next: nat, s: seq<Byte>)
    ensures PackKids(o, [], next) == PackedKids([], [], next) && AgainKids([]) == [] && UnpackKids(o, [], s) == Some(ReadKids([], s))
  {
  }

  lemma OneMoreKid(o: Order, positions: seq<int>, s: seq<Byte>)
    requires positions != [] && positions[|positions| - 1] >= 0
    ensures var front, id := UnpackKids(o, positions[..|positions| - 1], s), positions[|positions| - 1];
            front.Some? ==>
              UnpackKids(o, positions, s) ==
              if id < MaxPredefined then Some(ReadKids(front.value.kids + [Predefined(id)], front.value.rest))
              else
                var last := Unpack(o, front.value.rest);
                if last.None? then None else Some(ReadKids(front.value.kids + [last.value.record], last.value.rest))
  {
    hide Unpack;
  }

  /** The layout of a derived type: header, displacements, positions, integers, constituents. */
  lemma DerivedRoundTrip(o: Order, t: Tree, k: PackedKids, rest: seq<Byte>)
    requires t.Derived? && Good(t) && |k.positions| == |t.kids| && FitAll(k.positions, 4)
    requires UnpackKids(o, k.positions, k.bytes + rest) == Some(ReadKids(AgainKids(t.kids), rest))
    ensures Unpack(o, EncodeAll(o, HeaderInts(t), 4) + EncodeAll(o, t.aints, 8) + EncodeAll(o, k.positions, 4) + EncodeAll(o, t.ints, 4) + k.bytes + rest)
         == Some(Read(Again(t), rest))
  {
    hide EncodeAll, DecodeAll, UnpackKids, FitAll, Remade, Recorded, AgainKids, CombinerOf;
    var a, b, c, d := EncodeAll(o, HeaderInts(t), 4), EncodeAll(o, t.aints, 8), EncodeAll(o, k.positions, 4), EncodeAll(o, t.ints, 4);
    var e := k.bytes + rest;
    var s := a + b + c + d + k.bytes + rest;
    SectionLengths(o, HeaderInts(t), t.aints, k.positions, t.ints);
    Layout(a, b, c, d, k.bytes, rest);
    Tail(a, b + (c + (d + e)));
    Tail(b, c + (d + e));
    Tail(c, d + e);
    Tail(d, e);
    RoundTripAll(o, HeaderInts(t), 4, b + (c + (d + e)));
    HeadOfHeader(o, s, HeaderInts(t));
    RoundTripAll(o, t.aints, 8, c + (d + e));
    RoundTripAll(o, k.positions, 4, d + e);
    RoundTripAll(o, t.ints, 4, e);
    CodeRoundTrip(t.combiner);
    GoodRecorded(t);
  }

  lemma Layout(a: seq<Byte>, b: seq<Byte>, c: seq<Byte>, d: seq<Byte>, k: seq<Byte>, rest: seq<Byte>)
    ensures a + b + c + d + k + rest == a + (b + (c + (d + (k + rest))))
  {
    Associative(a + b + c + d, k, rest);
    Associative(a + b + c, d, k + rest);
    Associative(a + b, c, d + (k + rest));
    Associative(a, b, c + (d + (k + rest)));
  }

  lemma Tail(a: seq<Byte>, b: seq<Byte>)
    ensures (a + b)[|a|..] == b
  {
  }

  lemma SectionLengths(o: Order, h: seq<int>, aints: seq<int>, positions: seq<int>, ints: seq<int>)
    requires |h| == 4
    ensures |EncodeAll(o, h, 4)| == 16 && |EncodeAll(o, aints, 8)| == 8 * |aints|
    ensures |EncodeAll(o, positions, 4)| == 4 * |positions| && |EncodeAll(o, ints, 4)| == 4 * |ints|
  {
  }

  /** The first two integers of the header. */
  lemma HeadOfHeader(o: Order, s: seq<Byte>, h: seq<int>)
    requires |s| >= 16 && |h| == 4 && DecodeAll(o, s, 4, 4) == h
    ensures DecodeAll(o, s, 4, 2) == h[..2]
  {
    assert DecodeAll(o, s, 4, 4)[..3] == DecodeAll(o, s, 4, 3);
    assert DecodeAll(o, s, 4, 3)[..2] == DecodeAll(o, s, 4, 2);
  }

  lemma GoodRecorded(t: Tree)
    requires t.Derived? && Good(t)
    ensures Recorded(t.combiner, t.ints, t.aints, |t.kids|) && !t.combiner.CNamed?
  {
  }

  /** Reading gives what was recorded if and only if the counts are right throughout. */
  lemma RoundTripExact(o: Order, t: Tree, next: nat, rest: seq<Byte>)
    requires Good(t) && MaxPredefined <= next && next + Numbers(t) <= IntLimit
    ensures Unpack(o, Pack(o, t, next).bytes + rest) == Some(Read(Normal(t), rest)) <==> AllRight(t)
  {
    PackUnpack(o, t, next, rest);
    AgainExact(t);
  }
}
