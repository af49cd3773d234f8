/**
 Writing descriptions in place: the buffer of __ompi_datatype_pack_description, and the sizes
 that ompi_datatype_set_args and ompi_datatype_get_pack_description keep for it.
 */
module TypeDescriptions {
  import opened Wrappers
  import opened Bytes
  import opened IntegerBytes
  import opened TypeCodec

  // ---------------------------------------------------------------------------------------
  // How long a description is

  function SizeOf(t: Tree): nat
    decreases t
  {
    match t
    case Named(_) => 8
    case Dup(original) => SizeOf(original)
    case Derived(_, ints, aints, kids) => 16 + 8 * |aints| + 4 * |kids| + 4 * |ints| + SizeOfKids(kids)
  }

  function SizeOfKids(kids: seq<Tree>): nat
    decreases kids
  {
    if kids == [] then 0
    else SizeOfKids(kids[..|kids| - 1]) + if kids[|kids| - 1].Named? then 0 else SizeOf(kids[|kids| - 1])
  }

  lemma {:induction false} PackSize(o: Order, t: Tree, next: nat)
    ensures |Pack(o, t, next).bytes| == SizeOf(t)
    decreases t
  {
    match t
    case Named(_) =>
    case Dup(original) => PackSize(o, original, next);
    case Derived(_, ints, aints, kids) =>
      PackKidsSize(o, kids, next);
      SectionLengths(o, HeaderInts(t), aints, PackKids(o, kids, next).positions, ints);
  }

  lemma {:induction false} PackKidsSize(o: Order, kids: seq<Tree>, next: nat)
    ensures |PackKids(o, kids, next).bytes| == SizeOfKids(kids)
    decreases kids
  {
    if kids != [] {
      PackKidsSize(o, kids[..|kids| - 1], next);
      PackSize(o, kids[|kids| - 1], PackKids(o, kids[..|kids| - 1], next).next + 1);
    }
  }

  lemma {:induction false} KidsSizeMonotone(kids: seq<Tree>, i: nat)
    requires i <= |kids|
    ensures SizeOfKids(kids[..i]) <= SizeOfKids(kids)
    decreases |kids| - i
  {
    if i == |kids| {
      assert kids[..i] == kids;
    } else {
      KidsSizeMonotone(kids, i + 1);
      assert kids[..i + 1][..i] == kids[..i];
    }
  }

  // ---------------------------------------------------------------------------------------
  // The buffer

  class Writer {
    const buf: array<Byte>
    var pos: nat
    var nextIndex: nat

    constructor (size: nat, nextIndex: nat)
      ensures fresh(buf) && buf.Length == size && pos == 0 && this.nextIndex == nextIndex
    {
      buf, pos := new Byte[size](_ => 0), 0;
      this.nextIndex := nextIndex;
    }

    /** The whole buffer. */
    ghost function All(): (r: seq<Byte>)
      reads buf
      ensures |r| == buf.Length
    {
      buf[..]
    }

    /** memcpy of an array of integers to a place in the buffer. */
    method Put(o: Order, at: nat, vs: seq<int>, width: nat)
      requires at + width * |vs| <= buf.Length
      modifies buf
      ensures All() == old(All())[..at] + EncodeAll(o, vs, width) + old(All())[at + width * |vs|..]
    {
      var bytes := EncodeAll(o, vs, width);
      forall i | 0 <= i < |bytes| {
        buf[at + i] := bytes[i];
      }
    }
  }

  /** What one constituent adds: a position, the bytes of its description, the next number. */
  function OneKid(o: Order, kid: Tree, next: nat): PackedKids {
    if kid.Named? then PackedKids([kid.id], [], next)
    else var p := Pack(o, kid, next + 1); PackedKids([next], p.bytes, p.next)
  }

  lemma KidsUpTo(o: Order, kids: seq<Tree>, next: nat, i: nat)
    requires i < |kids|
    ensures var front := PackKids(o, kids[..i], next); var one := OneKid(o, kids[i], front.next);
            PackKids(o, kids[..i + 1], next) == PackedKids(front.positions + one.positions, front.bytes + one.bytes, one.next)
  {
    hide Pack;
    assert kids[..i + 1][..i] == kids[..i];
    var front := PackKids(o, kids[..i], next);
    assert front.bytes + [] == front.bytes;
  }

  lemma JoinKid(o: Order, k: PackedKids, kid: Tree)
    ensures var one := OneKid(o, kid, k.next);
            EncodeAll(o, k.positions + one.positions, 4) == EncodeAll(o, k.positions, 4) + EncodeAll(o, one.positions, 4)
  {
    hide EncodeAll, Pack;
    EncodeOneMore(o, k.positions, OneKid(o, kid, k.next).positions[0]);
  }

  lemma EncodeOneMore(o: Order, vs: seq<int>, v: int)
    ensures EncodeAll(o, vs + [v], 4) == EncodeAll(o, vs, 4) + EncodeAll(o, [v], 4)
  {
    hide Encode;
    assert (vs + [v])[..|vs|] == vs && [v][..0] == [];
    assert EncodeAll(o, [v], 4) == [] + Encode(o, v, 4);
  }

  /** Room for the description of kid i behind those before it. */
  lemma KidFits(kids: seq<Tree>, i: nat)
    requires i < |kids|
    ensures SizeOfKids(kids[..i]) + (if kids[i].Named? then 0 else SizeOf(kids[i])) == SizeOfKids(kids[..i + 1]) <= SizeOfKids(kids)
  {
    hide SizeOf;
    assert kids[..i + 1][..i] == kids[..i];
    KidsSizeMonotone(kids, i + 1);
  }

  /** b' is b with new bytes from pos on; what was written before is still there. */
  ghost predicate Appended(b: seq<Byte>, b': seq<Byte>, pos: nat, pos': nat, bytes: seq<Byte>) {
    && |b| == |b'| && pos <= pos' <= |b| && b'[..pos] == b[..pos] && b'[pos..pos'] == bytes
  }

  /** __ompi_datatype_pack_description: writes exactly the description, behind what is there. */
  method PackInto(w: Writer, o: Order, t: Tree)
    requires w.pos + SizeOf(t) <= w.buf.Length
    modifies w`pos, w`nextIndex, w.buf
    ensures w.pos == old(w.pos) + SizeOf(t) && w.nextIndex == Pack(o, t, old(w.nextIndex)).next
    ensures Appended(old(w.All()), w.All(), old(w.pos), w.pos, Pack(o, t, old(w.nextIndex)).bytes)
    decreases t, 2
  {
    match t {
      case Named(id) =>
        w.Put(o, w.pos, [Code(CNamed), id], 4);
        w.pos := w.pos + 8;
      case Dup(original) =>
        PackInto(w, o, original);
      case Derived(_, _, _, _) =>
        PackDerived(w, o, t);
    }
  }

  /** b' is b with one position written at `at` and the bytes of a description from pos on. */
  ghost predicate KidWritten(b: seq<Byte>, b': seq<Byte>, at: nat, pos: nat, pos': nat, position: seq<Byte>, bytes: seq<Byte>) {
    && |b| == |b'| && at + 4 <= pos <= pos' <= |b| && |position| == 4 && |bytes| == pos' - pos
    && b'[..pos'] == b[..at] + position + b[at + 4..pos] + bytes
  }

  /** Lines 477-489: the position of one constituent, and its description unless it is predefined. */
  method PackKid(w: Writer, o: Order, kid: Tree, at: nat)
    requires at + 4 <= w.pos && w.pos + (if kid.Named? then 0 else SizeOf(kid)) <= w.buf.Length
    modifies w`pos, w`nextIndex, w.buf
    ensures w.pos == old(w.pos) + (if kid.Named? then 0 else SizeOf(kid)) && w.nextIndex == OneKid(o, kid, old(w.nextIndex)).next
    ensures var k := OneKid(o, kid, old(w.nextIndex));
            KidWritten(old(w.All()), w.All(), at, old(w.pos), w.pos, EncodeAll(o, k.positions, 4), k.bytes)
    decreases kid, 3
  {
    hide EncodeAll, Pack, SizeOf;
    ghost var b, pos, k := w.All(), w.pos, OneKid(o, kid, w.nextIndex);
    w.Put(o, at, [if kid.Named? then kid.id else w.nextIndex], 4);
    OneInt(o, if kid.Named? then kid.id else w.nextIndex);
    ghost var b1 := w.All();
    if !kid.Named? {
      w.nextIndex := w.nextIndex + 1;
      PackInto(w, o, kid);
    }
    WrittenThen(b, b1, w.All(), at, pos, w.pos, EncodeAll(o, k.positions, 4), k.bytes);
  }

  lemma OneInt(o: Order, v: int)
    ensures |EncodeAll(o, [v], 4)| == 4
  {
  }

  lemma WrittenThen(b: seq<Byte>, b1: seq<Byte>, b2: seq<Byte>, at: nat, pos: nat, pos': nat, position: seq<Byte>, bytes: seq<Byte>)
    requires |b| == |b1| == |b2| && at + 4 <= pos <= pos' <= |b| && |position| == 4
    requires b1 == b[..at] + position + b[at + 4..]
    requires Appended(b1, b2, pos, pos', bytes)
    ensures KidWritten(b, b2, at, pos, pos', position, bytes)
  {
    assert b2[..pos'] == b2[..pos] + b2[pos..pos'];
    assert b1[..pos] == b[..at] + position + b[at + 4..pos];
  }

  /** What is in the buffer while the constituents are written: positions so far, and descriptions so far. */
  ghost predicate Under(b: seq<Byte>, pos: nat, front: seq<Byte>, positions: seq<Byte>, room: nat, ints: seq<Byte>, bodies: seq<Byte>) {
    var hole := |front|;
    && |positions| <= room && pos <= |b| && pos == hole + room + |ints| + |bodies|
    && b[..hole] == front && b[hole..hole + |positions|] == positions
    && b[hole + room..hole + room + |ints|] == ints && b[hole + room + |ints|..pos] == bodies
  }

  lemma UnderNext(b: seq<Byte>, b': seq<Byte>, pos: nat, pos': nat, front: seq<Byte>, positions: seq<Byte>, room: nat,
                  ints: seq<Byte>, bodies: seq<Byte>, position: seq<Byte>, bytes: seq<Byte>)
    requires Under(b, pos, front, positions, room, ints, bodies) && |positions| + 4 <= room
    requires KidWritten(b, b', |front| + |positions|, pos, pos', position, bytes)
    ensures Under(b', pos', front, positions + position, room, ints, bodies + bytes)
  {
    var hole := |front|;
    var at, gap := hole + |positions|, hole + room;
    Pieces(b, b', at, pos, pos', position, bytes);
    assert b'[..hole] == b[..hole];
    assert b'[hole..at + 4] == b[hole..at] + position;
    assert b'[gap..gap + |ints|] == b[gap..gap + |ints|];
    assert b'[gap + |ints|..pos'] == b[gap + |ints|..pos] + bytes;
  }

  lemma Pieces(b: seq<Byte>, b': seq<Byte>, at: nat, pos: nat, pos': nat, position: seq<Byte>, bytes: seq<Byte>)
    requires KidWritten(b, b', at, pos, pos', position, bytes)
    ensures forall i :: 0 <= i < pos' ==>
              b'[i] == if i < at then b[i] else if i < at + 4 then position[i - at] else if i < pos then b[i] else bytes[i - pos]
  {
    var c := b[..at] + position + b[at + 4..pos] + bytes;
    forall i | 0 <= i < pos'
      ensures b'[i] == if i < at then b[i] else if i < at + 4 then position[i - at] else if i < pos then b[i] else bytes[i - pos]
    {
      assert b'[i] == b'[..pos'][i] == c[i];
    }
  }

  lemma UnderFull(b: seq<Byte>, pos: nat, front: seq<Byte>, positions: seq<Byte>, ints: seq<Byte>, bodies: seq<Byte>)
    requires Under(b, pos, front, positions, |positions|, ints, bodies)
    ensures b[..pos] == front + positions + ints + bodies
  {
    var h, p, i := |front|, |front| + |positions|, |front| + |positions| + |ints|;
    assert b[..pos] == b[..h] + b[h..p] + b[p..i] + b[i..pos];
  }

  /** memcpy at the end of what is there. */
  method Append(w: Writer, o: Order, vs: seq<int>, width: nat)
    requires w.pos + width * |vs| <= w.buf.Length
    modifies w`pos, w.buf
    ensures w.pos == old(w.pos) + width * |vs| && w.All()[..w.pos] == old(w.All()[..w.pos]) + EncodeAll(o, vs, width)
  {
    ghost var front, bytes := w.All()[..w.pos], EncodeAll(o, vs, width);
    ghost var back := w.All()[w.pos + width * |vs|..];
    w.Put(o, w.pos, vs, width);
    assert |front + bytes| == w.pos + width * |vs|;
    assert (front + bytes + back)[..|front + bytes|] == front + bytes;
    w.pos := w.pos + width * |vs|;
  }

  /** Lines 449-475: header, displacements and integers, around a hole for the positions. */
  method PutSections(w: Writer, o: Order, t: Tree)
    requires t.Derived? && w.pos + SizeOf(t) <= w.buf.Length
    modifies w`pos, w.buf
    ensures w.pos == old(w.pos) + 16 + 8 * |t.aints| + 4 * |t.kids| + 4 * |t.ints|
    ensures Under(w.All(), w.pos, old(w.All())[..old(w.pos)] + EncodeAll(o, HeaderInts(t), 4) + EncodeAll(o, t.aints, 8), [],
                  4 * |t.kids|, EncodeAll(o, t.ints, 4), [])
  {
    hide EncodeAll, SizeOfKids, Under;
    Append(w, o, HeaderInts(t), 4);
    Append(w, o, t.aints, 8);
    ghost var front := w.All()[..w.pos];
    w.pos := w.pos + 4 * |t.kids|;
    ghost var before := w.All()[..w.pos];
    Append(w, o, t.ints, 4);
    SectionLengths(o, HeaderInts(t), [], [], t.ints);
    UnderStart(w.All(), w.pos, front, before, 4 * |t.kids|, EncodeAll(o, t.ints, 4));
  }

  lemma UnderStart(b: seq<Byte>, pos: nat, front: seq<Byte>, before: seq<Byte>, room: nat, ints: seq<Byte>)
    requires |before| == |front| + room && before[..|front|] == front && pos == |before| + |ints| && pos <= |b|
    requires b[..pos] == before + ints
    ensures Under(b, pos, front, [], room, ints, [])
  {
    assert b[..|before|] == b[..pos][..|before|] == before;
    assert b[..|front|] == before[..|front|];
    assert b[|before|..pos] == b[..pos][|before|..] == ints;
  }

  method PackDerived(w: Writer, o: Order, t: Tree)
    requires t.Derived? && w.pos + SizeOf(t) <= w.buf.Length
    modifies w`pos, w`nextIndex, w.buf
    ensures w.pos == old(w.pos) + SizeOf(t) && w.nextIndex == Pack(o, t, old(w.nextIndex)).next
    ensures Appended(old(w.All()), w.All(), old(w.pos), w.pos, Pack(o, t, old(w.nextIndex)).bytes)
    decreases t, 1
  {
    hide EncodeAll, PackKids, SizeOfKids, Under, KidWritten, OneKid;
    var start, next, n := w.pos, w.nextIndex, |t.kids|;
    var hole := start + 16 + 8 * |t.aints|;
    ghost var base := w.All()[..start];
    ghost var front, ints := base + EncodeAll(o, HeaderInts(t), 4) + EncodeAll(o, t.aints, 8), EncodeAll(o, t.ints, 4);
    SectionLengths(o, HeaderInts(t), t.aints, [], t.ints);
    PutSections(w, o, t);
    var body := w.pos;
    KidsNone(o, t.kids, next);
    for i := 0 to n
      invariant w.pos == body + SizeOfKids(t.kids[..i]) && w.nextIndex == PackKids(o, t.kids[..i], next).next
      invariant Under(w.All(), w.pos, front, EncodeAll(o, PackKids(o, t.kids[..i], next).positions, 4), 4 * n, ints, PackKids(o, t.kids[..i], next).bytes)
    {
      KidFits(t.kids, i);
      KidsUpTo(o, t.kids, next, i);
      ghost var k := PackKids(o, t.kids[..i], next);
      ghost var one := OneKid(o, t.kids[i], k.next);
      JoinKid(o, k, t.kids[i]);
      PositionsLength(o, t.kids[..i], next);
      ghost var b, pos := w.All(), w.pos;
      PackKid(w, o, t.kids[i], hole + 4 * i);
      UnderNext(b, w.All(), pos, w.pos, front, EncodeAll(o, k.positions, 4), 4 * n, ints, k.bytes, EncodeAll(o, one.positions, 4), one.bytes);
    }
    assert t.kids[..n] == t.kids;
    PositionsLength(o, t.kids, next);
    ghost var k := PackKids(o, t.kids, next);
    UnderFull(w.All(), w.pos, front, EncodeAll(o, k.positions, 4), ints, k.bytes);
    Behind(w.All(), base, EncodeAll(o, HeaderInts(t), 4), EncodeAll(o, t.aints, 8), EncodeAll(o, k.positions, 4), ints, k.bytes, w.pos);
  }

  lemma Behind(b: seq<Byte>, base: seq<Byte>, h: seq<Byte>, a: seq<Byte>, p: seq<Byte>, i: seq<Byte>, k: seq<Byte>, pos: nat)
    requires pos <= |b| && b[..pos] == base + h + a + p + i + k
    ensures |base| <= pos && b[..|base|] == base && b[|base|..pos] == h + a + p + i + k
  {
    assert base + h + a + p + i + k == base + (h + a + p + i + k);
    assert b[..|base|] == b[..pos][..|base|] && b[|base|..pos] == b[..pos][|base|..];
  }

  lemma PositionsLength(o: Order, kids: seq<Tree>, next: nat)
    ensures |PackKids(o, kids, next).positions| == |kids| && |EncodeAll(o, PackKids(o, kids, next).positions, 4)| == 4 * |kids|
  {
  }

  lemma KidsNone(o: Order, kids: seq<Tree>, next: nat)
    ensures PackKids(o, kids[..0], next) == PackedKids([], [], next) && SizeOfKids(kids[..0]) == 0 && EncodeAll(o, [], 4) == []
  {
  }

  // ---------------------------------------------------------------------------------------
  // The sizes kept with a type

  class Datatype {
    const order: Order
    const tree: Tree
    var totalPackSize: nat
    var packed: Option<seq<Byte>>

    /** The size kept is never too small, and is exact once the description has been made. */
    ghost predicate Valid()
      reads this
    {
      && (!tree.Named? ==> SizeOf(tree) <= totalPackSize)
      && (!tree.Named? && packed.Some? ==> SizeOf(tree) == totalPackSize)
      && (packed.Some? ==> packed.value == Pack(order, tree, MaxPredefined).bytes && |packed.value| == SizeOf(tree))
    }

    /** A predefined type: no arguments, no size. */
    constructor Predefined(order: Order, id: nat)
      ensures Valid() && tree == Named(id) && this.order == order
    {
      this.order, tree, totalPackSize, packed := order, Named(id), 0, None;
    }

    /** ompi_datatype_set_args for MPI_COMBINER_DUP, which counts nothing of its own. */
    constructor Duplicate(d: Datatype)
      requires d.Valid()
      ensures Valid() && tree == Dup(d.tree) && order == d.order
    {
      order, tree, packed := d.order, Dup(d.tree), None;
      totalPackSize := 0 + if d.tree.Named? then 8 else d.totalPackSize;
    }

    /** ompi_datatype_set_args: the arguments of this type, plus whatever its constituents keep at this moment. */
    constructor SetArgs(order: Order, combiner: Combiner, ints: seq<int>, aints: seq<int>, ds: seq<Datatype>)
      requires forall i :: 0 <= i < |ds| ==> ds[i].Valid()
      ensures Valid() && tree == Derived(combiner, ints, aints, Trees(ds)) && this.order == order
    {
      var total := (4 + |ints|) * 4 + |aints| * 8 + |ds| * 4;
      ghost var own := total;
      for i := 0 to |ds|
        invariant own + SizeOfKids(Trees(ds[..i])) <= total
      {
        TreesSnoc(ds, i);
        total := total + if ds[i].tree.Named? then 8 else ds[i].totalPackSize;
      }
      assert ds[..|ds|] == ds;
      this.order, tree, totalPackSize, packed := order, Derived(combiner, ints, aints, Trees(ds)), total, None;
    }

    /**
     ompi_datatype_get_pack_description: the description, which fits the buffer of the size kept
     and whose size is then kept; the second time the one made before.
     */
    method GetPackDescription() returns (bytes: seq<Byte>)
      requires Valid()
      modifies this
      ensures Valid() && bytes == Pack(order, tree, MaxPredefined).bytes && packed == Some(bytes)
      ensures !tree.Named? ==> totalPackSize == |bytes| <= old(totalPackSize)
      ensures old(packed.Some?) ==> packed == old(packed) && totalPackSize == old(totalPackSize)
    {
      if packed.Some? {
        return packed.value;
      }
      var w := new Writer(if tree.Named? then 8 else totalPackSize, MaxPredefined);
      PackInto(w, order, tree);
      PackSize(order, tree, MaxPredefined);
      bytes := w.buf[..w.pos];
      assert bytes == w.All()[0..w.pos];
      packed := Some(bytes);
      if !tree.Named? {
        totalPackSize := w.pos;
      }
    }
  }

  function Trees(ds: seq<Datatype>): (r: seq<Tree>)
    ensures |r| == |ds| && forall i :: 0 <= i < |ds| ==> r[i] == ds[i].tree
  {
    seq(|ds|, i requires 0 <= i < |ds| => ds[i].tree)
  }

  lemma TreesSnoc(ds: seq<Datatype>, i: nat)
    requires i < |ds|
    ensures SizeOfKids(Trees(ds[..i + 1])) == SizeOfKids(Trees(ds[..i])) + if ds[i].tree.Named? then 0 else SizeOf(ds[i].tree)
  {
    assert Trees(ds[..i + 1])[..i] == Trees(ds[..i]);
  }

  /** Packing a type into its buffer and reading it back on the other side. */
  method SendDescription(d: Datatype, rest: seq<Byte>) returns (r: Option<Read>)
    requires d.Valid() && Good(d.tree) && MaxPredefined + Numbers(d.tree) <= IntLimit
    modifies d
    ensures r == Some(Read(Again(d.tree), rest))
    ensures r == Some(Read(Normal(d.tree), rest)) <==> AllRight(d.tree)
  {
    var bytes := d.GetPackDescription();
    PackUnpack(d.order, d.tree, MaxPredefined, rest);
    RoundTripExact(d.order, d.tree, MaxPredefined, rest);
    r := Unpack(d.order, bytes + rest);
  }
}
