/**
 The byte stream of the TCP transport: an eight-byte header (btl_tcp2_hdr.h) before the
 payload of each message.
 */
module TcpFrames {
  import opened Common
  import opened Bytes

  /** mca_btl_tcp2_hdr_t: uint8_t tag, uint8_t type, uint16_t count, uint32_t size. */
  datatype Header = Header(tag: Byte, kind: Byte, count: nat, size: nat)

  const HdrTypeSend: Byte := 1

  const HdrSize: nat := 8

  predicate Fits(h: Header) {
    h.count < 0x1_0000 && h.size < 0x1_0000_0000
  }

  function EncodeHeader(o: Order, h: Header): (s: seq<Byte>)
    ensures |s| == HdrSize
  {
    [h.tag, h.kind] + Arrange(o, BigEndian(h.count, 2)) + Arrange(o, BigEndian(h.size, 4))
  }

  function DecodeHeader(o: Order, s: seq<Byte>): Header
    requires |s| == HdrSize
  {
    Header(s[0], s[1], Number(Arrange(o, s[2..4])), Number(Arrange(o, s[4..8])))
  }

  /** The peer reads the header that was written, in either byte order. */
  lemma HeaderRoundTrip(o: Order, h: Header)
    requires Fits(h)
    ensures DecodeHeader(o, EncodeHeader(o, h)) == h
  {
    var count, size := BigEndian(h.count, 2), BigEndian(h.size, 4);
    var s := EncodeHeader(o, h);
    assert s[2..4] == Arrange(o, count) && s[4..8] == Arrange(o, size);
    assert Arrange(o, Arrange(o, count)) == count && Arrange(o, Arrange(o, size)) == size;
    assert Power(2) == 0x1_0000 && Power(4) == 0x1_0000_0000 by {
      assert Power(1) == 256;
      assert Power(3) == 256 * Power(2);
    }
    NumberOfBytes(h.count, 2);
    NumberOfBytes(h.size, 4);
  }

  datatype Message = Message(tag: Byte, payload: seq<Byte>)

  /** The header that mca_btl_tcp2_send writes. */
  function SendHeader(m: Message): Header {
    Header(m.tag, HdrTypeSend, 0, |m.payload|)
  }

  function Frame(o: Order, m: Message): (s: seq<Byte>)
    ensures |s| == HdrSize + |m.payload|
  {
    EncodeHeader(o, SendHeader(m)) + m.payload
  }

  /** What a sequence of messages puts on the wire. */
  function Frames(o: Order, ms: seq<Message>): seq<Byte> {
    if ms == [] then [] else Frame(o, ms[0]) + Frames(o, ms[1..])
  }

  lemma {:induction false} FramesConcat(o: Order, ms: seq<Message>, ns: seq<Message>)
    ensures Frames(o, ms + ns) == Frames(o, ms) + Frames(o, ns)
  {
    hide Frame;
    if ms == [] {
      assert ms + ns == ns;
    } else {
      var f := Frame(o, ms[0]);
      FramesConcat(o, ms[1..], ns);
      assert (ms + ns)[1..] == ms[1..] + ns;
      Associative(f, Frames(o, ms[1..]), Frames(o, ns));
    }
  }

  /** How many of n bytes the next readv or writev moves, given what each is granted: none when it would block. */
  function Taken(grants: seq<nat>, n: nat): nat {
    if grants == [] then 0 else Min(grants[0], n)
  }

  // ---------------------------------------------------------------------------------------
  // What a receiver sees of the payload

  /**
   The segment that a callback finds: its own payload, or, since an empty message leaves the
   segment of the fragment alone, one of the length that the fragment last carried.
   */
  predicate Shows(d: Message, m: Message, stale: nat) {
    d.tag == m.tag && if m.payload != [] then d.payload == m.payload else |d.payload| == stale
  }

  /** Deliveries made one after the other with the same fragment. */
  predicate ShowsAll(ds: seq<Message>, ms: seq<Message>, stale: nat) {
    |ds| == |ms| && forall i :: 0 <= i < |ds| ==> Shows(ds[i], ms[i], LastLength(ds, i, stale))
  }

  /** The length of the segment when delivery i is made. */
  function LastLength(ds: seq<Message>, i: nat, stale: nat): nat
    requires i <= |ds|
  {
    if i == 0 then stale else |ds[i - 1].payload|
  }

  /** Every empty message comes before the first non-empty one, and finds a fragment of length 0. */
  predicate EmptyFirst(ms: seq<Message>, stale: nat) {
    forall i :: 0 <= i < |ms| && ms[i].payload == [] ==> LastLength(ms, i, stale) == 0
  }

  /** The callbacks see exactly what was sent if and only if no empty message follows a non-empty one. */
  lemma {:induction false} ShownExactly(ds: seq<Message>, ms: seq<Message>, stale: nat)
    requires ShowsAll(ds, ms, stale)
    ensures ds == ms <==> EmptyFirst(ms, stale)
  {
    if EmptyFirst(ms, stale) {
      forall i | 0 <= i < |ms| ensures ds[i] == ms[i] {
        ShownOne(ds, ms, stale, i);
      }
    } else {
      var i :| 0 <= i < |ms| && ms[i].payload == [] && LastLength(ms, i, stale) != 0;
      assert Shows(ds[i], ms[i], LastLength(ds, i, stale));
      if i > 0 {
        assert Shows(ds[i - 1], ms[i - 1], LastLength(ds, i - 1, stale));
      }
    }
  }

  lemma {:induction false} ShownOne(ds: seq<Message>, ms: seq<Message>, stale: nat, i: nat)
    requires ShowsAll(ds, ms, stale) && EmptyFirst(ms, stale) && i < |ms|
    ensures ds[i] == ms[i]
  {
    assert Shows(ds[i], ms[i], LastLength(ds, i, stale));
    if i > 0 {
      ShownOne(ds, ms, stale, i - 1);
    }
  }

  /** A non-empty message and an empty one, handled in one go: the second shows up as long as the first. */
  lemma EmptyMessageShowsStaleLength(m: Message, tag: Byte, ds: seq<Message>, stale: nat)
    requires m.payload != [] && ShowsAll(ds, [m, Message(tag, [])], stale)
    ensures |ds[1].payload| == |m.payload| > 0
  {
    var ms := [m, Message(tag, [])];
    assert Shows(ds[0], ms[0], LastLength(ds, 0, stale)) && Shows(ds[1], ms[1], LastLength(ds, 1, stale));
  }
}
