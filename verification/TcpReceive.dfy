/**
 The receiving side: mca_btl_tcp2_frag_recv (btl_tcp2_frag.c) and the loop of
 mca_btl_tcp2_endpoint_recv_handler (btl_tcp2_endpoint.c), for SEND fragments. Each readv may
 bring any number of bytes, up to the room in the fragment and in the cache behind it.
 */
module TcpReceive {
  import opened Common
  import opened Bytes
  import opened TcpFrames
  import opened TcpArrival

  /** Where an iovec or a segment points to. */
  datatype Place = InHdr(off: nat) | InOwn(off: nat) | InCache(off: nat)

  function Later(grants: seq<nat>): seq<nat> {
    if grants == [] then [] else grants[1..]
  }

  /** The bytes the peer has written and not yet read here; grants says how many each readv gets. */
  class Socket {
    var stream: seq<Byte>
    var grants: seq<nat>

    /** A non-blocking readv: nothing when no bytes are ready. */
    method Readv(room: nat) returns (data: seq<Byte>)
      modifies this
      ensures data + stream == old(stream) && |data| == Taken(old(grants), Min(room, |old(stream)|))
      ensures grants == Later(old(grants))
    {
      var n := Taken(grants, Min(room, |stream|));
      grants := Later(grants);
      data := stream[..n];
      stream := stream[n..];
    }
  }

  /** mca_btl_tcp2_frag_t as a receive fragment: one iovec is in use at a time. */
  class Fragment {
    const order: Order
    const hdr: array<Byte>
    const own: array<Byte>
    var iovIdx: nat
    var iovCnt: nat
    var base: Place
    var len: nat
    var segAddr: Place
    var segLen: nat

    ghost function Size(): nat
      reads hdr
    {
      if hdr.Length == HdrSize then DecodeHeader(order, hdr[..]).size else 0
    }

    /** The fragment waits for len more bytes of its header or of its payload. */
    ghost predicate Waiting()
      reads this, hdr
    {
      && hdr.Length == HdrSize && hdr != own && iovCnt == 1 && len > 0
      && (iovIdx == 0 || iovIdx == 1)
      && (iovIdx == 0 ==> len <= HdrSize && base == InHdr(HdrSize - len))
      && (iovIdx == 1 ==> len <= Size() <= own.Length && base == InOwn(Size() - len) && segLen == Size() && segAddr == InOwn(0))
    }

    /** The bytes of the frame that have arrived. */
    ghost function Got(): seq<Byte>
      requires Waiting()
      reads this, hdr, own
    {
      if iovIdx == 0 then hdr[..HdrSize - len] else hdr[..] + own[..Size() - len]
    }

    /** The same once n more bytes are in place. */
    ghost function Filled(n: nat): seq<Byte>
      requires Waiting() && n <= len
      reads this, hdr, own
    {
      if iovIdx == 0 then hdr[..HdrSize - len + n] else hdr[..] + own[..Size() - len + n]
    }

    /** MCA_BTL_TCP_FRAG_INIT_DST. */
    method InitDst()
      requires hdr.Length == HdrSize && hdr != own
      modifies this
      ensures Waiting() && Got() == [] && segLen == old(segLen) && segAddr == old(segAddr)
    {
      len, base, iovCnt, iovIdx := HdrSize, InHdr(0), 1, 0;
    }
  }

  /** The receive side of an endpoint: its cache, and the fragment in progress. */
  class Endpoint {
    const cache: array<Byte>
    var cachePos: nat
    var cacheLength: nat
    var recvFrag: Fragment?

    ghost predicate Valid()
      reads this`cachePos, this`cacheLength
    {
      cachePos + cacheLength <= cache.Length && (cacheLength == 0 ==> cachePos == 0)
    }

    ghost function Cached(): seq<Byte>
      requires Valid()
      reads this`cachePos, this`cacheLength, cache
    {
      cache[cachePos..cachePos + cacheLength]
    }

    /** Lines 174-180: the first bytes of the cache have been used. */
    method Consume(length: nat)
      requires Valid() && length <= cacheLength
      modifies this`cachePos, this`cacheLength
      ensures Valid() && cacheLength == old(cacheLength) - length && Cached() == old(Cached())[length..]
    {
      cachePos := cachePos + length;
      cacheLength := cacheLength - length;
      if cacheLength == 0 {
        cachePos := 0;
      }
    }
  }

  ghost predicate Apart(f: Fragment, ep: Endpoint) {
    f.hdr != f.own && f.hdr != ep.cache && f.own != ep.cache
  }

  /** The bytes that the segment of the fragment shows. */
  function Visible(f: Fragment, ep: Endpoint): seq<Byte>
    reads f, f.own, ep.cache
  {
    match f.segAddr
    case InOwn(off) => if off + f.segLen <= f.own.Length then f.own[off..off + f.segLen] else []
    case InCache(off) => if off + f.segLen <= ep.cache.Length then ep.cache[off..off + f.segLen] else []
    case InHdr(_) => []
  }

  method Memcpy(dst: array<Byte>, off: nat, data: seq<Byte>)
    requires off + |data| <= dst.Length
    modifies dst
    ensures dst[..off + |data|] == old(dst[..off]) + data
  {
    forall i | 0 <= i < |data| {
      dst[off + i] := data[i];
    }
  }

  /** Bytes go to where the iovec of the fragment points. */
  method Store(f: Fragment, data: seq<Byte>)
    requires f.Waiting() && |data| <= f.len
    modifies f.hdr, f.own
    ensures f.Waiting() && f.Filled(|data|) == old(f.Got()) + data
    ensures f.iovIdx == 1 ==> f.hdr[..] == old(f.hdr[..])
  {
    hide DecodeHeader;
    ghost var n := |data|;
    if f.iovIdx == 0 {
      Memcpy(f.hdr, f.base.off, data);
      assert f.Filled(n) == f.hdr[..HdrSize - f.len + n];
    } else {
      ghost var hdr, own := f.hdr[..], f.own[..f.base.off];
      Memcpy(f.own, f.base.off, data);
      assert f.hdr[..] == hdr && f.Size() == old(f.Size());
      assert hdr + (own + data) == (hdr + own) + data;
    }
  }

  /** Lines 184-197: one readv into the fragment and, behind it, into the empty cache. */
  method FromSocket(f: Fragment, ep: Endpoint, sock: Socket) returns (cnt: nat, ghost n: nat, ghost data: seq<Byte>)
    requires f.Waiting() && ep.Valid() && Apart(f, ep) && ep.cacheLength == 0
    modifies f.hdr, f.own, ep.cache, sock
    ensures cnt == Taken(old(sock.grants), Min(f.len + ep.cache.Length, |old(sock.stream)|)) && sock.grants == Later(old(sock.grants))
    ensures cnt == |data| && data + sock.stream == old(sock.stream) && n == (if cnt < f.len then cnt else f.len)
    ensures f.Waiting() && f.Filled(n) == old(f.Got()) + data[..n] && cnt - n <= ep.cache.Length && ep.cache[..cnt - n] == data[n..]
    ensures f.iovIdx == 1 ==> f.hdr[..] == old(f.hdr[..])
  {
    hide DecodeHeader;
    var bytes := sock.Readv(f.len + ep.cache.Length);
    data, cnt := bytes, |bytes|;
    var k := if cnt < f.len then cnt else f.len;
    n := k;
    Store(f, bytes[..k]);
    Memcpy(ep.cache, 0, bytes[k..]);
  }

  /** Lines 222-240: move the iovec past the bytes in place; what is left over stays in the cache. */
  method Advance(f: Fragment, ep: Endpoint, cnt: nat)
    requires f.iovCnt == 1 && (cnt < f.len ==> f.Waiting())
    modifies f`base, f`len, f`iovIdx, f`iovCnt, ep`cacheLength
    ensures cnt < old(f.len) ==> f.Waiting() && f.iovIdx == old(f.iovIdx) && f.Got() == old(if f.Waiting() && cnt < f.len then f.Filled(cnt) else []) && ep.cacheLength == 0
    ensures cnt >= old(f.len) ==> f.iovCnt == 0 && f.iovIdx == old(f.iovIdx) + 1 && ep.cacheLength == cnt - old(f.len)
  {
    hide DecodeHeader;
    var rest := 0;
    if cnt < f.len {
      f.base := if f.base.InHdr? then InHdr(f.base.off + cnt) else InOwn(f.base.off + cnt);
      f.len := f.len - cnt;
    } else {
      rest := cnt - f.len;
      f.iovIdx := f.iovIdx + 1;
      f.iovCnt := f.iovCnt - 1;
    }
    ep.cacheLength := rest;
  }

  /** What the fragment, the cache and the socket hold between the turns of mca_btl_tcp2_frag_recv. */
  ghost predicate Between(f: Fragment, ep: Endpoint, sock: Socket, total: seq<Byte>)
    reads f, f.hdr, f.own, ep`cachePos, ep`cacheLength, ep.cache, sock
  {
    f.Waiting() && ep.Valid() && Apart(f, ep) && f.Got() + ep.Cached() + sock.stream == total
  }

  /** What they hold after a turn: an unfinished iovec and an empty cache, a header, or a payload. */
  ghost predicate AfterTurn(f: Fragment, ep: Endpoint, sock: Socket, total: seq<Byte>)
    reads f, f.hdr, f.own, ep`cachePos, ep`cacheLength, ep.cache, sock
  {
    && ep.Valid() && Apart(f, ep) && f.hdr.Length == HdrSize
    && (f.iovCnt == 1 ==> f.Waiting() && ep.cacheLength == 0 && f.Got() + sock.stream == total)
    && (f.iovCnt == 0 && f.iovIdx == 1 ==> f.hdr[..] + ep.Cached() + sock.stream == total)
    && (f.iovCnt == 0 && f.iovIdx == 2 ==> f.hdr[..] + Visible(f, ep) + ep.Cached() + sock.stream == total && |Visible(f, ep)| == f.Size() == f.segLen)
  }

  lemma Regroup(a: seq<Byte>, b: seq<Byte>, n: nat, c: seq<Byte>)
    requires n <= |b|
    ensures a + b + c == (a + b[..n]) + b[n..] + c
    ensures a + (b + c) == (a + b[..n]) + b[n..] + c
    ensures n == |b| ==> a + b + c == (a + b[..n]) + c
  {
    assert b == b[..n] + b[n..];
  }

  /** n bytes of the input have gone to the fragment and the rest to the cache. */
  lemma TurnDone(f: Fragment, ep: Endpoint, sock: Socket, total: seq<Byte>, got: seq<Byte>, data: seq<Byte>, n: nat)
    requires ep.Valid() && Apart(f, ep) && f.hdr.Length == HdrSize && n <= |data|
    requires ep.Cached() == data[n..] && got + data + sock.stream == total
    requires f.iovCnt == 1 ==> f.Waiting() && f.Got() == got + data[..n] && n == |data|
    requires f.iovCnt == 0 && f.iovIdx == 1 ==> f.hdr[..] == got + data[..n]
    requires f.iovCnt == 0 && f.iovIdx == 2 ==> f.hdr[..] + Visible(f, ep) == got + data[..n] && |Visible(f, ep)| == f.Size() == f.segLen
    ensures AfterTurn(f, ep, sock, total)
  {
    hide DecodeHeader, Visible;
    Regroup(got, data, n, sock.stream);
  }

  /** The iovec is full. */
  lemma FilledUp(f: Fragment)
    requires f.Waiting()
    ensures f.Filled(f.len) == f.hdr[..] + if f.iovIdx == 0 then [] else f.own[..f.Size()]
  {
  }

  /** Lines 164-181 when the bytes are copied: as many as the cache has and the fragment wants. */
  method CopyTurn(f: Fragment, ep: Endpoint, sock: Socket, length: nat, ghost total: seq<Byte>)
    requires Between(f, ep, sock, total) && ep.cacheLength > 0
    requires length == (if ep.cacheLength > f.len then f.len else ep.cacheLength)
    modifies f, ep, f.hdr, f.own
    ensures AfterTurn(f, ep, sock, total) && f.segLen == old(f.segLen) && (f.iovCnt == 0 || f.iovCnt == 1)
    ensures f.iovIdx + f.iovCnt == old(f.iovIdx) + 1 && f.segAddr == old(f.segAddr)
    ensures old(f.iovIdx) == 1 ==> f.hdr[..] == old(f.hdr[..])
  {
    hide DecodeHeader, AfterTurn, Fragment.Got, Fragment.Filled;
    ghost var got, cached, len := f.Got(), ep.Cached(), f.len;
    var cnt, bytes := ep.cacheLength, ep.cache[ep.cachePos..ep.cachePos + length];
    assert bytes == cached[..length];
    Store(f, bytes);
    assert ep.Cached() == cached;
    FilledUp(f);
    ep.Consume(length);
    Advance(f, ep, cnt);
    TurnDone(f, ep, sock, total, got, cached, length);
  }

  /** Lines 164-181 when the whole payload is in the cache: the segment points into the cache. */
  method PointTurn(f: Fragment, ep: Endpoint, sock: Socket, ghost total: seq<Byte>)
    requires Between(f, ep, sock, total) && f.len <= ep.cacheLength && f.iovIdx == 1 && f.len == f.Size()
    modifies f, ep
    ensures AfterTurn(f, ep, sock, total) && f.segLen == old(f.segLen) && f.iovCnt == 0 && f.iovIdx == 2
  {
    hide DecodeHeader, AfterTurn;
    ghost var got, cached, len := f.Got(), ep.Cached(), f.len;
    assert f.own[..f.Size() - len] == [] && got == f.hdr[..];
    var cnt := ep.cacheLength;
    f.segAddr := InCache(ep.cachePos);
    f.base := InCache(ep.cachePos);
    ep.Consume(f.len);
    Advance(f, ep, cnt);
    assert Visible(f, ep) == cached[..len];
    TurnDone(f, ep, sock, total, got, cached, len);
  }

  /** From label repeat to line 240, with bytes from the cache. */
  method CacheTurn(f: Fragment, ep: Endpoint, sock: Socket, dontCopy: bool, ghost total: seq<Byte>)
    requires Between(f, ep, sock, total) && ep.cacheLength > 0 && (dontCopy ==> f.iovIdx == 1 && f.len == f.Size())
    modifies f, ep, f.hdr, f.own
    ensures AfterTurn(f, ep, sock, total) && f.segLen == old(f.segLen) && (f.iovCnt == 0 || f.iovCnt == 1)
    ensures f.iovIdx + f.iovCnt == old(f.iovIdx) + 1
    ensures old(f.iovIdx) == 1 ==> f.hdr[..] == old(f.hdr[..])
    ensures old(f.iovIdx) == 0 ==> f.segAddr == old(f.segAddr)
  {
    hide DecodeHeader, AfterTurn;
    var length := if ep.cacheLength > f.len then f.len else ep.cacheLength;
    if !dontCopy || length < f.len {
      CopyTurn(f, ep, sock, length, total);
    } else {
      PointTurn(f, ep, sock, total);
    }
  }

  /** The same with bytes from the socket; cnt is 0 when there are none. */
  method SocketTurn(f: Fragment, ep: Endpoint, sock: Socket, ghost total: seq<Byte>) returns (cnt: nat)
    requires Between(f, ep, sock, total) && ep.cacheLength == 0
    modifies f, ep, f.hdr, f.own, ep.cache, sock
    ensures AfterTurn(f, ep, sock, total) && f.segLen == old(f.segLen) && f.segAddr == old(f.segAddr)
    ensures f.iovCnt == 0 || f.iovCnt == 1
    ensures f.iovIdx + f.iovCnt == old(f.iovIdx) + 1 && (cnt == 0 ==> f.iovCnt == 1)
    ensures cnt == Taken(old(sock.grants), Min(old(f.len) + ep.cache.Length, |old(sock.stream)|)) && sock.grants == Later(old(sock.grants))
    ensures |sock.stream| == |old(sock.stream)| - cnt
    ensures old(f.iovIdx) == 1 ==> f.hdr[..] == old(f.hdr[..])
  {
    hide DecodeHeader, AfterTurn;
    ghost var n, data;
    ghost var got, stream := f.Got(), sock.stream;
    cnt, n, data := FromSocket(f, ep, sock);
    ghost var filled, len := f.Filled(n), f.len;
    Advance(f, ep, cnt);
    assert len <= cnt && f.iovIdx == 2 ==> f.hdr[..] + Visible(f, ep) == filled;
    assert ep.Cached() == data[n..];
    assert got + data + sock.stream == got + (data + sock.stream);
    TurnDone(f, ep, sock, total, got, data, n);
  }

  // ---------------------------------------------------------------------------------------
  // One fragment

  /** The stream is that of message m, as far as it goes, and m fits the fragment. */
  ghost predicate Carries(f: Fragment, total: seq<Byte>, m: Message) {
    && Fits(SendHeader(m)) && |m.payload| <= f.own.Length
    && (total <= Frame(f.order, m) || Frame(f.order, m) <= total)
  }

  lemma HeaderKnown(f: Fragment, total: seq<Byte>, m: Message, hdr: seq<Byte>, rest: seq<Byte>)
    requires Carries(f, total, m) && |hdr| == HdrSize && hdr + rest == total
    ensures DecodeHeader(f.order, hdr) == SendHeader(m) && hdr == EncodeHeader(f.order, SendHeader(m))
  {
    hide DecodeHeader, EncodeHeader;
    HeaderRoundTrip(f.order, SendHeader(m));
    var e := EncodeHeader(f.order, SendHeader(m));
    var frame := Frame(f.order, m);
    assert hdr == total[..HdrSize] && e == frame[..HdrSize];
    forall i | 0 <= i < HdrSize ensures hdr[i] == e[i] {
      assert hdr[i] == total[i] && e[i] == frame[i];
    }
    assert hdr == e;
  }

  lemma PayloadKnown(f: Fragment, total: seq<Byte>, m: Message, hdr: seq<Byte>, body: seq<Byte>, rest: seq<Byte>)
    requires Carries(f, total, m) && |hdr| == HdrSize && |body| == |m.payload| && hdr + body + rest == total
    ensures body == m.payload && total == Frame(f.order, m) + rest
  {
    hide DecodeHeader, EncodeHeader;
    var e := Frame(f.order, m);
    assert |e| <= |total| && e == total[..|e|] == hdr + body;
    assert total[|e|..] == rest && total == total[..|e|] + total[|e|..];
    assert e[HdrSize..] == m.payload && (hdr + body)[HdrSize..] == body;
  }

  lemma FrameLength(o: Order, m: Message)
    ensures |Frame(o, m)| == HdrSize + |m.payload|
  {
  }

  lemma Incomplete(f: Fragment, total: seq<Byte>, m: Message, got: seq<Byte>, rest: seq<Byte>)
    requires Carries(f, total, m) && got + rest == total && |got| < |Frame(f.order, m)|
    ensures got <= Frame(f.order, m)
  {
    hide EncodeHeader;
    assert got == total[..|got|];
  }

  /** Lines 247-260: the header is complete and announces a payload. */
  method BeginPayload(f: Fragment, ep: Endpoint, sock: Socket, ghost total: seq<Byte>)
    requires AfterTurn(f, ep, sock, total) && f.iovCnt == 0 && f.iovIdx == 1 && 0 < f.Size() <= f.own.Length
    modifies f
    ensures Between(f, ep, sock, total) && f.iovIdx == 1 && f.len == f.Size()
  {
    hide DecodeHeader;
    assert f.hdr.Length == HdrSize;
    var size := DecodeHeader(f.order, f.hdr[..]).size;
    f.segAddr, f.segLen := InOwn(0), size;
    f.base, f.len, f.iovCnt := InOwn(0), size, f.iovCnt + 1;
    assert f.Got() == f.hdr[..];
  }

  /** What mca_btl_tcp2_frag_recv leaves when it returns true: message m, of which the callback sees the segment. */
  ghost predicate Complete(f: Fragment, ep: Endpoint, sock: Socket, total: seq<Byte>, m: Message)
    reads f, f.hdr, f.own, ep`cachePos, ep`cacheLength, ep.cache, sock
  {
    && f.hdr.Length == HdrSize && ep.Valid() && Apart(f, ep)
    && total == Frame(f.order, m) + (ep.Cached() + sock.stream)
    && DecodeHeader(f.order, f.hdr[..]) == SendHeader(m)
    && (m.payload != [] ==> Visible(f, ep) == m.payload && f.segLen == |m.payload| && SegOk(f, ep))
  }

  /** What it leaves when it returns false: part of message m, and an empty cache. */
  ghost predicate Partial(f: Fragment, ep: Endpoint, sock: Socket, total: seq<Byte>, m: Message)
    reads f, f.hdr, f.own, ep`cachePos, ep`cacheLength, ep.cache, sock
  {
    Between(f, ep, sock, total) && ep.cacheLength == 0 && f.Got() <= Frame(f.order, m) && f.Got() != Frame(f.order, m)
  }

  lemma PartialLeft(f: Fragment, ep: Endpoint, sock: Socket, total: seq<Byte>, m: Message)
    requires AfterTurn(f, ep, sock, total) && f.iovCnt == 1 && Carries(f, total, m)
    ensures Partial(f, ep, sock, total, m)
  {
    hide DecodeHeader, EncodeHeader, Visible, Carries, Frame;
    var got, stream := f.Got(), sock.stream;
    assert got + ep.Cached() == got;
    if f.iovIdx == 1 {
      var hdr, body := f.hdr[..], f.own[..f.Size() - f.len];
      assert hdr + (body + stream) == (hdr + body) + stream;
      HeaderKnown(f, total, m, hdr, body + stream);
    }
    FrameLength(f.order, m);
    Incomplete(f, total, m, got, stream);
  }

  lemma SegmentShown(f: Fragment, ep: Endpoint)
    ensures SegOk(f, ep) ==> |Visible(f, ep)| == f.segLen
    ensures |Visible(f, ep)| == f.segLen > 0 ==> SegOk(f, ep)
  {
  }

  lemma CompleteLeft(f: Fragment, ep: Endpoint, sock: Socket, total: seq<Byte>, m: Message)
    requires AfterTurn(f, ep, sock, total) && f.iovCnt == 0 && Carries(f, total, m)
    requires f.iovIdx == 2 || (f.iovIdx == 1 && f.Size() == 0)
    ensures Complete(f, ep, sock, total, m)
  {
    hide DecodeHeader, EncodeHeader, Visible, Carries, Frame;
    var hdr, cached, stream := f.hdr[..], ep.Cached(), sock.stream;
    var rest := cached + stream;
    var body := if f.iovIdx == 2 then Visible(f, ep) else [];
    assert hdr + body + cached + stream == total;
    assert hdr + body + cached + stream == hdr + body + rest;
    assert hdr + body + rest == hdr + (body + rest);
    HeaderKnown(f, total, m, hdr, body + rest);
    PayloadKnown(f, total, m, hdr, body, rest);
    SegmentShown(f, ep);
  }

  lemma HeaderLeft(f: Fragment, ep: Endpoint, sock: Socket, total: seq<Byte>, m: Message)
    requires AfterTurn(f, ep, sock, total) && f.iovCnt == 0 && f.iovIdx == 1 && Carries(f, total, m)
    ensures f.Size() == |m.payload| <= f.own.Length
  {
    hide DecodeHeader, EncodeHeader;
    HeaderKnown(f, total, m, f.hdr[..], ep.Cached() + sock.stream);
  }

  lemma PayloadAwaited(f: Fragment, ep: Endpoint, sock: Socket, total: seq<Byte>, m: Message)
    requires Between(f, ep, sock, total) && Carries(f, total, m)
    ensures f.iovIdx == 1 ==> m.payload != []
  {
    hide DecodeHeader, EncodeHeader;
    if f.iovIdx == 1 {
      HeaderKnown(f, total, m, f.hdr[..], f.own[..f.Size() - f.len] + ep.Cached() + sock.stream);
    }
  }

  ghost function Expected(script: seq<Message>): Message {
    if script == [] then Message(0, []) else script[0]
  }

  /** What the fragment waits for is what its place in the script says. */
  lemma AwaitedHere(f: Fragment, ep: Endpoint, sock: Socket, total: seq<Byte>, script: seq<Message>)
    requires Between(f, ep, sock, total) && Carries(f, total, Expected(script)) && (script == [] ==> total == [])
    ensures f.len == Awaited(script, |f.Got()|)
    ensures |f.Got()| + ep.cacheLength + |sock.stream| == |total| && (f.iovIdx == 1 ==> |f.Got()| >= HdrSize)
  {
    hide DecodeHeader, EncodeHeader, Frame;
    if f.iovIdx == 1 {
      HeaderKnown(f, total, Expected(script), f.hdr[..], f.own[..f.Size() - f.len] + ep.Cached() + sock.stream);
    }
  }

  /** How many bytes this receive event still takes off the socket. */
  ghost function Coming(ep: Endpoint, sock: Socket, total: seq<Byte>, script: seq<Message>): nat
    reads ep`cacheLength, sock
  {
    Ahead(ep.cache.Length, script, |total| - |sock.stream|, ep.cacheLength, |sock.stream|, sock.grants)
  }

  /** The same if no readv is due before the bytes that have arrived are in place. */
  ghost function ComingAfter(ep: Endpoint, sock: Socket, total: seq<Byte>, script: seq<Message>): nat
    reads sock
  {
    Onward(ep.cache.Length, script, |total| - |sock.stream|, |sock.stream|, sock.grants)
  }

  /** A turn in which no byte has come. */
  lemma NothingComes(room: nat, script: seq<Message>, a: int, avail: nat, grants: seq<nat>, len: nat)
    requires len == Awaited(script, a)
    ensures var n := Taken(grants, Min(len + room, avail));
            Arrive(room, script, a, avail, grants) == if n == 0 then 0 else n + Onward(room, script, a + n, avail - n, grants[1..])
  {
  }

  /** Within a header or a payload, the event is over. */
  lemma ComesNoMore(f: Fragment, ep: Endpoint, sock: Socket, total: seq<Byte>, script: seq<Message>)
    requires AfterTurn(f, ep, sock, total) && f.iovCnt == 1 && Carries(f, total, Expected(script)) && (script == [] ==> total == [])
    requires f.iovIdx == 1 ==> |total| > |sock.stream| + HdrSize
    ensures ComingAfter(ep, sock, total, script) == 0
  {
    hide DecodeHeader, EncodeHeader, Carries, Frame;
    assert f.Got() + ep.Cached() + sock.stream == f.Got() + sock.stream;
    AwaitedHere(f, ep, sock, total, script);
  }

  /** Behind a header that announces a payload, the event goes on. */
  lemma ComesOn(f: Fragment, ep: Endpoint, sock: Socket, total: seq<Byte>, script: seq<Message>)
    requires Between(f, ep, sock, total) && Carries(f, total, Expected(script)) && (script == [] ==> total == [])
    requires f.iovIdx == 1 && f.len == f.Size()
    ensures ComingAfter(ep, sock, total, script) == Coming(ep, sock, total, script)
  {
    hide DecodeHeader, EncodeHeader, Carries, Frame, Arrive;
    AwaitedHere(f, ep, sock, total, script);
    PayloadAwaited(f, ep, sock, total, Expected(script));
  }

  /** Behind a complete message, it depends on what follows. */
  lemma ComesNext(f: Fragment, ep: Endpoint, sock: Socket, total: seq<Byte>, script: seq<Message>)
    requires Complete(f, ep, sock, total, Expected(script)) && (script == [] ==> total == [])
    ensures script != []
    ensures ComingAfter(ep, sock, total, script) == Onward(ep.cache.Length, script[1..], ep.cacheLength, |sock.stream|, sock.grants)
  {
    hide DecodeHeader, EncodeHeader, Visible, Arrive;
    FrameLength(f.order, Expected(script));
  }

  /** From label repeat to line 240; cnt is 0 when there was nothing to be had. */
  method Turn(f: Fragment, ep: Endpoint, sock: Socket, dontCopy: bool, ghost total: seq<Byte>, ghost script: seq<Message>) returns (cnt: nat)
    requires Between(f, ep, sock, total) && Carries(f, total, Expected(script)) && (script == [] ==> total == [])
    requires dontCopy ==> f.iovIdx == 1 && f.len == f.Size()
    modifies f, ep, f.hdr, f.own, ep.cache, sock
    ensures AfterTurn(f, ep, sock, total) && f.segLen == old(f.segLen) && (f.iovCnt == 0 || f.iovCnt == 1)
    ensures f.iovIdx + f.iovCnt == old(f.iovIdx) + 1 && (cnt == 0 ==> f.iovCnt == 1)
    ensures old(f.iovIdx) == 1 ==> f.hdr[..] == old(f.hdr[..])
    ensures old(f.iovIdx) == 0 ==> f.segAddr == old(f.segAddr)
    ensures |old(sock.stream)| - |sock.stream| + (if f.iovCnt == 0 then ComingAfter(ep, sock, total, script) else 0) == old(Coming(ep, sock, total, script))
  {
    hide DecodeHeader, EncodeHeader, Carries, Arrive, Onward, Frame, AfterTurn, Visible;
    ghost var a, len, idx, stream, grants := |f.Got()|, f.len, f.iovIdx, |sock.stream|, sock.grants;
    AwaitedHere(f, ep, sock, total, script);
    cnt := 1;
    if ep.cacheLength != 0 {
      CacheTurn(f, ep, sock, dontCopy, total);
    } else {
      NothingComes(ep.cache.Length, script, a, stream, grants, len);
      cnt := SocketTurn(f, ep, sock, total);
    }
    hide Between, Fragment.Got;
    if cnt > 0 && f.iovCnt == 1 {
      ComesNoMore(f, ep, sock, total, script);
    }
  }

  /** mca_btl_tcp2_frag_recv on a SEND fragment: the next message of the script. */
  method FragRecv(f: Fragment, ep: Endpoint, sock: Socket, ghost total: seq<Byte>, ghost script: seq<Message>, ghost m: Message) returns (done: bool)
    requires Between(f, ep, sock, total) && Carries(f, total, m) && m == Expected(script) && (script == [] ==> total == [])
    modifies f, ep, f.hdr, f.own, ep.cache, sock
    ensures !done ==> |old(sock.stream)| - |sock.stream| == old(Coming(ep, sock, total, script))
    ensures done ==> script != []
    ensures done ==> |old(sock.stream)| - |sock.stream| + Onward(ep.cache.Length, script[1..], ep.cacheLength, |sock.stream|, sock.grants) ==
                     old(Coming(ep, sock, total, script))
    ensures done ==> Complete(f, ep, sock, total, m)
    ensures done && m.payload == [] ==> f.segLen == old(f.segLen) && f.segAddr == old(f.segAddr)
    ensures !done ==> Partial(f, ep, sock, total, m)
    ensures !done && f.iovIdx == 0 ==> f.segLen == old(f.segLen) && f.segAddr == old(f.segAddr)
  {
    hide DecodeHeader, EncodeHeader, Carries, Complete, Partial, AfterTurn, Coming, ComingAfter;
    var dontCopy := false;
    PayloadAwaited(f, ep, sock, total, m);
    ghost var coming, stream := Coming(ep, sock, total, script), |sock.stream|;
    while true
      invariant stream - |sock.stream| + Coming(ep, sock, total, script) == coming
      invariant Between(f, ep, sock, total) && (dontCopy ==> f.iovIdx == 1 && f.len == f.Size())
      invariant (f.iovIdx == 0 ==> f.segLen == old(f.segLen) && f.segAddr == old(f.segAddr)) && (f.iovIdx == 1 ==> m.payload != [])
      decreases 2 - f.iovIdx
    {
      var cnt := Turn(f, ep, sock, dontCopy, total, script);
      if cnt == 0 || f.iovCnt != 0 {
        PartialLeft(f, ep, sock, total, m);
        return false;
      }
      if f.iovIdx == 1 {
        HeaderLeft(f, ep, sock, total, m);
      }
      if f.iovIdx == 1 && DecodeHeader(f.order, f.hdr[..]).size > 0 {
        BeginPayload(f, ep, sock, total);
        ComesOn(f, ep, sock, total, script);
        dontCopy := true;
      } else {
        CompleteLeft(f, ep, sock, total, m);
        ComesNext(f, ep, sock, total, script);
        return true;
      }
    }
  }

  // ---------------------------------------------------------------------------------------
  // The receive handler

  /** Every message of the script can be framed and fits a fragment. */
  ghost predicate Suits(f: Fragment, script: seq<Message>) {
    forall i :: 0 <= i < |script| ==> Fits(SendHeader(script[i])) && |script[i].payload| <= f.own.Length
  }

  lemma PrefixOfFrames(o: Order, total: seq<Byte>, script: seq<Message>)
    requires total <= Frames(o, script)
    ensures script == [] ==> total == []
    ensures script != [] ==> total <= Frame(o, script[0]) || Frame(o, script[0]) <= total
  {
    hide Frame;
    if script != [] && |total| > |Frame(o, script[0])| {
      assert Frame(o, script[0]) <= Frames(o, script);
    }
  }

  lemma RestOfFrames(o: Order, total: seq<Byte>, script: seq<Message>, rest: seq<Byte>)
    requires script != [] && total <= Frames(o, script) && total == Frame(o, script[0]) + rest
    ensures rest <= Frames(o, script[1..])
  {
    hide Frame;
    var e, tail := Frame(o, script[0]), Frames(o, script[1..]);
    assert Frames(o, script) == e + tail;
    forall i | 0 <= i < |rest| ensures i < |tail| && rest[i] == tail[i] {
      assert total[|e| + i] == rest[i] && (e + tail)[|e| + i] == tail[i];
    }
  }

  /** The fragment, the cache and the socket hold the beginning of the script, and nothing else. */
  ghost predicate Follows(f: Fragment, ep: Endpoint, sock: Socket, total: seq<Byte>, script: seq<Message>)
    reads f, f.hdr, f.own, ep`cachePos, ep`cacheLength, ep.cache, sock
  {
    Between(f, ep, sock, total) && Suits(f, script) && total <= Frames(f.order, script)
  }

  /** The segment of the fragment lies within one of the buffers. */
  ghost predicate SegOk(f: Fragment, ep: Endpoint)
    reads f`segAddr, f`segLen
  {
    match f.segAddr
    case InOwn(off) => off + f.segLen <= f.own.Length
    case InCache(off) => off + f.segLen <= ep.cache.Length
    case InHdr(_) => f.segLen == 0
  }

  /** One fragment of the script. */
  method RecvNext(f: Fragment, ep: Endpoint, sock: Socket, ghost total: seq<Byte>, ghost script: seq<Message>)
    returns (done: bool, d: Message, ghost rest: seq<Byte>)
    requires Follows(f, ep, sock, total, script) && SegOk(f, ep)
    modifies f, ep, f.hdr, f.own, ep.cache, sock
    ensures SegOk(f, ep)
    ensures done ==> script != [] && ep.Valid() && Apart(f, ep) && f.hdr.Length == HdrSize
    ensures done ==> rest == ep.Cached() + sock.stream && total == Frame(f.order, script[0]) + rest
    ensures done ==> Suits(f, script[1..]) && rest <= Frames(f.order, script[1..])
    ensures done ==> Shows(d, script[0], old(f.segLen)) && |d.payload| == f.segLen
    ensures !done ==> Follows(f, ep, sock, total, script) && ep.cacheLength == 0
    ensures !done ==> (if script == [] then f.Got() == [] else |f.Got()| < |Frame(f.order, script[0])|)
    ensures |old(sock.stream)| - |sock.stream| + (if done then Onward(ep.cache.Length, script[1..], ep.cacheLength, |sock.stream|, sock.grants) else 0) ==
            old(Coming(ep, sock, total, script))
  {
    hide DecodeHeader, EncodeHeader, Frame, Frames, Visible, Suits, Complete, Partial, Coming, Onward;
    ghost var m := Expected(script);
    CarriesNext(f, total, script);
    ghost var stale := f.segLen;
    done := FragRecv(f, ep, sock, total, script, m);
    rest, d := [], Message(0, []);
    if done {
      CompleteNext(f, ep, sock, total, script, stale);
      rest, d := ep.Cached() + sock.stream, Message(f.hdr[0], Visible(f, ep));
    } else {
      PartialNext(f, ep, sock, total, script);
    }
  }

  lemma CarriesNext(f: Fragment, total: seq<Byte>, script: seq<Message>)
    requires Suits(f, script) && total <= Frames(f.order, script)
    ensures Carries(f, total, Expected(script)) && (script == [] ==> total == [])
  {
    hide Frame, Frames;
    PrefixOfFrames(f.order, total, script);
  }

  lemma CompleteNext(f: Fragment, ep: Endpoint, sock: Socket, total: seq<Byte>, script: seq<Message>, stale: nat)
    requires Suits(f, script) && total <= Frames(f.order, script) && Complete(f, ep, sock, total, Expected(script))
    requires Expected(script).payload == [] ==> f.segLen == stale && SegOk(f, ep)
    ensures script != [] && ep.Valid() && Apart(f, ep) && f.hdr.Length == HdrSize && SegOk(f, ep)
    ensures var rest := ep.Cached() + sock.stream;
            total == Frame(f.order, script[0]) + rest && Suits(f, script[1..]) && rest <= Frames(f.order, script[1..])
    ensures Shows(Message(f.hdr[0], Visible(f, ep)), script[0], stale) && |Visible(f, ep)| == f.segLen
  {
    hide EncodeHeader, Frame;
    FrameLength(f.order, Expected(script));
    RestOfFrames(f.order, total, script, ep.Cached() + sock.stream);
  }

  lemma PartialNext(f: Fragment, ep: Endpoint, sock: Socket, total: seq<Byte>, script: seq<Message>)
    requires Suits(f, script) && total <= Frames(f.order, script) && Partial(f, ep, sock, total, Expected(script))
    ensures Follows(f, ep, sock, total, script) && ep.cacheLength == 0
    ensures if script == [] then f.Got() == [] else |f.Got()| < |Frame(f.order, script[0])|
  {
    hide EncodeHeader, DecodeHeader, Frame, Visible, Suits;
  }

  /**
   What the receive handler leaves behind: the script without the k messages delivered, of which
   the fragment kept for the next event, if any, holds an incomplete frame.
   */
  ghost predicate Drained(f: Fragment, ep: Endpoint, sock: Socket, total: seq<Byte>, script: seq<Message>, k: nat, kept: bool)
    requires k <= |script|
    reads f, f.hdr, f.own, ep`cachePos, ep`cacheLength, ep.cache, sock
  {
    && ep.Valid() && ep.cacheLength == 0 && Apart(f, ep)
    && (kept ==> f.Waiting() && total == Frames(f.order, script[..k]) + (f.Got() + sock.stream))
    && (kept ==> (if k == |script| then f.Got() == [] else |f.Got()| < |Frame(f.order, script[k])|))
    && (!kept ==> total == Frames(f.order, script[..k]) + sock.stream)
  }

  /** The loop of lines 708-731, from label data_still_pending_on_endpoint. */
  method RecvLoop(f: Fragment, ep: Endpoint, sock: Socket, ghost total: seq<Byte>, ghost script: seq<Message>)
    returns (delivered: seq<Message>, kept: bool)
    requires Follows(f, ep, sock, total, script) && SegOk(f, ep)
    modifies f, ep, f.hdr, f.own, ep.cache, sock
    ensures |delivered| <= |script| && Drained(f, ep, sock, total, script, |delivered|, kept)
    ensures ShowsAll(delivered, script[..|delivered|], old(f.segLen)) && SegOk(f, ep)
    ensures |old(sock.stream)| - |sock.stream| == old(Coming(ep, sock, total, script))
  {
    hide EncodeHeader, Frame, Frames, Shows, Visible, Suits, ShowsAll, Apart, Follows, Drained, Coming, Onward;
    delivered, kept := [], false;
    ghost var t, stale, coming, stream := total, f.segLen, Coming(ep, sock, total, script), |sock.stream|;
    ShowsNone(f.order, script, total, stale);
    while true
      invariant |delivered| <= |script| && Follows(f, ep, sock, t, script[|delivered|..]) && SegOk(f, ep)
      invariant total == Frames(f.order, script[..|delivered|]) + t
      invariant stream - |sock.stream| + Coming(ep, sock, t, script[|delivered|..]) == coming
      invariant ShowsAll(delivered, script[..|delivered|], stale) && f.segLen == LastLength(delivered, |delivered|, stale)
      decreases |script| - |delivered|
    {
      ghost var k := |delivered|;
      ghost var rem := script[k..];
      var done, d;
      ghost var rest;
      done, d, rest := RecvNext(f, ep, sock, t, rem);
      if !done {
        kept := true;
        DrainedKept(f, ep, sock, total, t, script, k);
        return;
      }
      ShowsSnoc(delivered, d, script, k, stale);
      FramesSnoc(f.order, script, k, t, rest);
      delivered := delivered + [d];
      assert rem[1..] == script[k + 1..];
      t := rest;
      ComingNext(ep, sock, t, script[k + 1..]);
      if ep.cacheLength == 0 {
        DrainedDone(f, ep, sock, total, t, script, k + 1);
        return;
      }
      RestartFragment(f, ep, sock, t, script[k + 1..]);
    }
  }

  /** Between two messages of one event. */
  lemma ComingNext(ep: Endpoint, sock: Socket, t: seq<Byte>, script: seq<Message>)
    requires ep.Valid() && t == ep.Cached() + sock.stream
    ensures var onward := Onward(ep.cache.Length, script, ep.cacheLength, |sock.stream|, sock.grants);
            if ep.cacheLength == 0 then onward == 0 else Coming(ep, sock, t, script) == onward
  {
    hide Arrive;
  }

  lemma DrainedKept(f: Fragment, ep: Endpoint, sock: Socket, total: seq<Byte>, t: seq<Byte>, script: seq<Message>, k: nat)
    requires k <= |script| && Follows(f, ep, sock, t, script[k..]) && ep.cacheLength == 0
    requires total == Frames(f.order, script[..k]) + t
    requires if script[k..] == [] then f.Got() == [] else |f.Got()| < |Frame(f.order, script[k..][0])|
    ensures Drained(f, ep, sock, total, script, k, true)
  {
    hide Frame, Frames, Suits;
    assert f.Got() + ep.Cached() + sock.stream == f.Got() + sock.stream;
  }

  lemma DrainedDone(f: Fragment, ep: Endpoint, sock: Socket, total: seq<Byte>, t: seq<Byte>, script: seq<Message>, k: nat)
    requires k <= |script| && ep.Valid() && ep.cacheLength == 0 && Apart(f, ep)
    requires total == Frames(f.order, script[..k]) + t && t == ep.Cached() + sock.stream
    ensures Drained(f, ep, sock, total, script, k, false)
  {
    hide Frame, Frames;
    assert ep.Cached() + sock.stream == sock.stream;
  }

  /** The fragment is used again while the cache holds more. */
  method RestartFragment(f: Fragment, ep: Endpoint, sock: Socket, ghost total: seq<Byte>, ghost script: seq<Message>)
    requires f.hdr.Length == HdrSize && Apart(f, ep) && ep.Valid() && SegOk(f, ep) && Suits(f, script)
    requires total == ep.Cached() + sock.stream && total <= Frames(f.order, script)
    modifies f
    ensures Follows(f, ep, sock, total, script) && SegOk(f, ep) && f.segLen == old(f.segLen)
  {
    hide Frames, Suits;
    f.InitDst();
  }

  lemma ShowsNone(o: Order, script: seq<Message>, total: seq<Byte>, stale: nat)
    ensures ShowsAll([], script[..0], stale) && total == Frames(o, script[..0]) + total && script[0..] == script
  {
  }

  lemma ShowsSnoc(ds: seq<Message>, d: Message, script: seq<Message>, k: nat, stale: nat)
    requires k < |script| && ShowsAll(ds, script[..k], stale) && Shows(d, script[k..][0], LastLength(ds, |ds|, stale))
    ensures ShowsAll(ds + [d], script[..k + 1], stale)
  {
    hide Shows;
    var ms, longer := script[..k + 1], ds + [d];
    forall i | 0 <= i < k + 1 ensures Shows(longer[i], ms[i], LastLength(longer, i, stale)) {
      if i < k {
        assert longer[i] == ds[i] && ms[i] == script[..k][i] && LastLength(longer, i, stale) == LastLength(ds, i, stale);
      } else {
        assert LastLength(longer, k, stale) == LastLength(ds, k, stale);
      }
    }
  }

  lemma FramesSnoc(o: Order, script: seq<Message>, k: nat, t: seq<Byte>, rest: seq<Byte>)
    requires k < |script| && t == Frame(o, script[k]) + rest
    ensures Frames(o, script[..k]) + t == Frames(o, script[..k + 1]) + rest
  {
    hide Frame;
    FramesConcat(o, script[..k], [script[k]]);
    assert script[..k + 1] == script[..k] + [script[k]];
    var e := Frame(o, script[k]);
    assert Frames(o, [script[k]]) == e + [] == e;
    assert Frames(o, script[..k]) + (e + rest) == (Frames(o, script[..k]) + e) + rest;
  }

  /** The bytes of an incomplete frame that the endpoint keeps between two events. */
  ghost function Pending(ep: Endpoint): seq<Byte>
    reads ep, if ep.recvFrag == null then {} else {ep.recvFrag, ep.recvFrag.hdr, ep.recvFrag.own}
  {
    if ep.recvFrag != null && ep.recvFrag.Waiting() then ep.recvFrag.Got() else []
  }

  /** Between two events: an empty cache, and the beginning of the script in the fragment and on the socket. */
  ghost predicate Expecting(ep: Endpoint, sock: Socket, o: Order, script: seq<Message>)
    reads ep, ep.cache, sock, if ep.recvFrag == null then {} else {ep.recvFrag, ep.recvFrag.hdr, ep.recvFrag.own}
  {
    && ep.Valid() && ep.cacheLength == 0 && Pending(ep) + sock.stream <= Frames(o, script)
    && (ep.recvFrag != null ==> ep.recvFrag.order == o && ep.recvFrag.Waiting() && Apart(ep.recvFrag, ep) &&
                                SegOk(ep.recvFrag, ep) && Suits(ep.recvFrag, script))
  }

  /** A fragment from the free list can take every message of the script. */
  ghost predicate Usable(f: Fragment, ep: Endpoint, o: Order, script: seq<Message>)
    reads f, f.own, ep.cache
  {
    f.order == o && f.hdr.Length == HdrSize && Apart(f, ep) && SegOk(f, ep) && Suits(f, script)
  }

  lemma Resume(f: Fragment, ep: Endpoint, sock: Socket, o: Order, script: seq<Message>)
    requires Expecting(ep, sock, o, script) && ep.recvFrag == f
    ensures Follows(f, ep, sock, Pending(ep) + sock.stream, script) && SegOk(f, ep) && f.order == o
  {
    hide Frame, Frames, Suits, Visible;
    assert f.Got() + ep.Cached() + sock.stream == f.Got() + sock.stream;
  }

  lemma {:induction false} RestOfScript(o: Order, total: seq<Byte>, script: seq<Message>, k: nat, rest: seq<Byte>)
    requires k <= |script| && total <= Frames(o, script) && total == Frames(o, script[..k]) + rest
    ensures rest <= Frames(o, script[k..])
  {
    hide Frames;
    var front, tail := Frames(o, script[..k]), Frames(o, script[k..]);
    assert script == script[..k] + script[k..];
    FramesConcat(o, script[..k], script[k..]);
    forall i | 0 <= i < |rest| ensures i < |tail| && rest[i] == tail[i] {
      assert total[|front| + i] == rest[i] && (front + tail)[|front| + i] == tail[i];
    }
  }

  lemma NoFrameIsEmpty(o: Order, script: seq<Message>)
    ensures script != [] ==> |Frame(o, script[0])| > 0
  {
  }

  lemma LoopLeft(f: Fragment, ep: Endpoint, sock: Socket, total: seq<Byte>, script: seq<Message>, k: nat, kept: bool)
    requires k <= |script| && Drained(f, ep, sock, total, script, k, kept)
    requires total <= Frames(f.order, script) && Suits(f, script)
    ensures ep.Valid() && ep.cacheLength == 0 && Apart(f, ep) && Suits(f, script[k..]) && (kept ==> f.Waiting())
    ensures var pending := if kept then f.Got() else [];
            && total == Frames(f.order, script[..k]) + (pending + sock.stream)
            && pending + sock.stream <= Frames(f.order, script[k..])
            && (if k < |script| then |pending| < |Frame(f.order, script[k])| else pending == [])
  {
    hide Frames, EncodeHeader;
    var pending := if kept then f.Got() else [];
    assert pending + sock.stream == if kept then f.Got() + sock.stream else sock.stream;
    RestOfScript(f.order, total, script, k, pending + sock.stream);
  }

  /** k messages delivered are those that are complete within the bytes that have arrived. */
  lemma WholeDelivered(o: Order, total: seq<Byte>, script: seq<Message>, k: nat, pending: seq<Byte>, stream: seq<Byte>)
    requires k <= |script| && total == Frames(o, script[..k]) + (pending + stream)
    requires if k < |script| then |pending| < |Frame(o, script[k])| else pending == []
    ensures Whole(script, |total| - |stream|) == k
  {
    WholeAt(o, script, k, |pending|, |total| - |stream|);
  }

  lemma WholeAt(o: Order, script: seq<Message>, k: nat, pending: nat, arrived: int)
    requires k <= |script| && arrived == |Frames(o, script[..k])| + pending
    requires if k < |script| then pending < |Frame(o, script[k])| else pending == 0
    ensures Whole(script, arrived) == k
  {
    hide Frames, EncodeHeader, Whole;
    WholeFrames(o, script, k, pending);
  }

  /** What fragment and socket hold of the script before and after an event, with the bytes pending. */
  ghost predicate Left(f: Fragment, ep: Endpoint, sock: Socket, total: seq<Byte>, script: seq<Message>, k: nat, kept: bool, pending: seq<Byte>)
    requires k <= |script|
    reads f, f.hdr, f.own, ep`cachePos, ep`cacheLength, sock
  {
    && ep.Valid() && ep.cacheLength == 0 && Apart(f, ep) && Suits(f, script[k..]) && SegOk(f, ep)
    && (kept ==> f.Waiting()) && pending == (if kept then f.Got() else [])
    && total == Frames(f.order, script[..k]) + (pending + sock.stream)
    && pending + sock.stream <= Frames(f.order, script[k..])
    && (if k < |script| then |pending| < |Frame(f.order, script[k])| else pending == [])
    && Whole(script, |total| - |sock.stream|) == k
  }

  /** The receive loop, and what follows for the next event. */
  method RecvAll(f: Fragment, ep: Endpoint, sock: Socket, ghost total: seq<Byte>, ghost script: seq<Message>)
    returns (delivered: seq<Message>, kept: bool, ghost pending: seq<Byte>)
    requires Follows(f, ep, sock, total, script) && SegOk(f, ep)
    modifies f, ep, f.hdr, f.own, ep.cache, sock
    ensures |delivered| <= |script| && Left(f, ep, sock, total, script, |delivered|, kept, pending)
    ensures ShowsAll(delivered, script[..|delivered|], old(f.segLen))
    ensures |old(sock.stream)| - |sock.stream| == old(Coming(ep, sock, total, script))
  {
    hide EncodeHeader, Frame, Frames, ShowsAll, Visible, Suits, Drained, SegOk, Coming, Whole;
    FollowsScript(f, ep, sock, total, script);
    hide Follows;
    delivered, kept := RecvLoop(f, ep, sock, total, script);
    LoopLeft(f, ep, sock, total, script, |delivered|, kept);
    pending := if kept then f.Got() else [];
    WholeDelivered(f.order, total, script, |delivered|, pending, sock.stream);
  }

  lemma FollowsScript(f: Fragment, ep: Endpoint, sock: Socket, total: seq<Byte>, script: seq<Message>)
    requires Follows(f, ep, sock, total, script)
    ensures total <= Frames(f.order, script) && Suits(f, script)
  {
  }

  /**
   mca_btl_tcp2_endpoint_recv_handler on a connected socket, with the fragment that the free
   list hands out. Whatever the chunks in which the bytes arrive, the handler delivers the next
   messages of the script, keeps the bytes of an incomplete frame, and leaves the cache empty.
   */
  method RecvHandler(ep: Endpoint, sock: Socket, item: Fragment?, ghost o: Order, ghost script: seq<Message>)
    returns (delivered: seq<Message>, ghost stale: nat)
    requires Expecting(ep, sock, o, script)
    requires item != null ==> Usable(item, ep, o, script)
    modifies ep, ep.cache, sock
    modifies if ep.recvFrag == null then {} else {ep.recvFrag, ep.recvFrag.hdr, ep.recvFrag.own}
    modifies if item == null then {} else {item, item.hdr, item.own}
    ensures |delivered| <= |script| && Expecting(ep, sock, o, script[|delivered|..])
    ensures old(Pending(ep)) + old(sock.stream) == Frames(o, script[..|delivered|]) + (Pending(ep) + sock.stream)
    ensures |delivered| < |script| ==> |Pending(ep)| < |Frame(o, script[|delivered|])|
    ensures |delivered| == |script| ==> Pending(ep) == []
    ensures ShowsAll(delivered, script[..|delivered|], stale)
    ensures |old(sock.stream)| - |sock.stream| == if old(ep.recvFrag) == null && item == null then 0
                                                   else old(Arrive(ep.cache.Length, script, |Pending(ep)|, |sock.stream|, sock.grants))
    ensures |delivered| == Whole(script, old(|Pending(ep)| + |sock.stream|) - |sock.stream|)
  {
    hide EncodeHeader, Frame, Frames, Shows, ShowsAll, Visible, Suits, Follows, Drained, SegOk, Arrive, Onward, Whole;
    var frag := ep.recvFrag;
    ghost var total := Pending(ep) + sock.stream;
    ghost var coming := Arrive(ep.cache.Length, script, |Pending(ep)|, |sock.stream|, sock.grants);
    assert Coming(ep, sock, total, script) == coming;
    if frag == null {
      if item == null {
        stale := 0;
        ShowsNone(o, script, total, stale);
        NoFrameIsEmpty(o, script);
        WholeFrames(o, script, 0, 0);
        return [], stale;
      }
      RestartFragment(item, ep, sock, total, script);
      frag := item;
    } else {
      Resume(frag, ep, sock, o, script);
    }
    stale := frag.segLen;
    var kept;
    ghost var pending;
    delivered, kept, pending := RecvAll(frag, ep, sock, total, script);
    ep.recvFrag := if kept then frag else null;
  }
}
