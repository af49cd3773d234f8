/**
 The sending side: mca_btl_tcp2_send (btl_tcp2.c), mca_btl_tcp2_frag_send (btl_tcp2_frag.c),
 and the send queue of btl_tcp2_endpoint.c.
 */
module TcpSend {
  import opened Common
  import opened Bytes
  import opened TcpFrames

  function Flatten(iov: seq<seq<Byte>>): seq<Byte> {
    if iov == [] then [] else iov[0] + Flatten(iov[1..])
  }

  /** What the kernel has accepted; grants says how much each writev takes, none when it would block. */
  class OutSocket {
    var written: seq<Byte>
    var grants: seq<nat>

    method Writev(data: seq<Byte>) returns (cnt: int)
      modifies this
      ensures cnt == if old(grants) == [] then -1 else Taken(old(grants), |data|)
      ensures written == old(written) + data[..Taken(old(grants), |data|)]
      ensures grants == if old(grants) == [] then [] else old(grants)[1..]
    {
      if grants == [] {
        return -1;
      }
      cnt := if grants[0] > |data| then |data| else grants[0];
      grants := grants[1..];
      written := written + data[..cnt];
    }
  }

  /** mca_btl_tcp2_frag_t as a send fragment; iov[iovIdx..] are the iovecs still to be written. */
  class Fragment {
    var iov: seq<seq<Byte>>
    var iovIdx: nat
    var iovCnt: nat

    /** The iovec at hand has bytes left. */
    ghost predicate Valid()
      reads this
    {
      iovIdx + iovCnt == |iov| && (iovCnt > 0 ==> iov[iovIdx] != [])
    }

    function Rest(): seq<Byte>
      reads this
    {
      if iovIdx <= |iov| then Flatten(iov[iovIdx..]) else []
    }

    /** mca_btl_tcp2_send: header first, then the segments of the descriptor. */
    constructor (order: Order, tag: Byte, segments: seq<seq<Byte>>)
      ensures Valid() && Rest() == Frame(order, Message(tag, Flatten(segments))) && fresh(this)
    {
      var size := Total(segments);
      var hdr := EncodeHeader(order, Header(tag, HdrTypeSend, 0, size));
      iov, iovIdx, iovCnt := [hdr] + segments, 0, 1 + |segments|;
      TotalIsLength(segments);
      assert ([hdr] + segments)[1..] == segments;
      assert ([hdr] + segments)[0..] == [hdr] + segments;
    }
  }

  /** The sum of seg_len over the segments. */
  function Total(segments: seq<seq<Byte>>): nat {
    if segments == [] then 0 else |segments[0]| + Total(segments[1..])
  }

  lemma {:induction false} TotalIsLength(segments: seq<seq<Byte>>)
    ensures Total(segments) == |Flatten(segments)|
  {
    if segments != [] {
      TotalIsLength(segments[1..]);
    }
  }

  lemma FlattenAt(iov: seq<seq<Byte>>, i: nat)
    requires i <= |iov|
    ensures Flatten(iov[i..]) == if i < |iov| then iov[i] + Flatten(iov[i + 1..]) else []
  {
    if i < |iov| {
      assert iov[i..][1..] == iov[i + 1..];
    }
  }

  /** Cutting bytes off the front of one iovec cuts them off the front of what is left. */
  lemma FlattenCut(iov: seq<seq<Byte>>, i: nat, k: nat)
    requires i < |iov| && k <= |iov[i]|
    ensures Flatten(iov[i := iov[i][k..]][i..]) == Flatten(iov[i..])[k..]
  {
    hide Flatten;
    FlattenAt(iov, i);
    FlattenAt(iov[i := iov[i][k..]], i);
    assert iov[i := iov[i][k..]][i + 1..] == iov[i + 1..];
  }

  lemma FlattenSkip(iov: seq<seq<Byte>>, i: nat)
    requires i < |iov|
    ensures |iov[i]| <= |Flatten(iov[i..])| && Flatten(iov[i + 1..]) == Flatten(iov[i..])[|iov[i]|..]
  {
    hide Flatten;
    FlattenAt(iov, i);
  }

  /** Lines 133-146: the iovecs move past the cnt bytes that were taken. */
  method Advance(f: Fragment, taken: nat)
    requires f.iovIdx + f.iovCnt == |f.iov| && taken <= |f.Rest()|
    modifies f
    ensures f.Valid() && f.Rest() == old(f.Rest())[taken..]
  {
    hide Flatten;
    ghost var rest := f.Rest();
    var cnt, count := taken, f.iovCnt;
    for i := 0 to count
      invariant f.iovIdx + f.iovCnt == |f.iov| && f.iovCnt == count - i
      invariant 0 <= cnt <= taken && f.Rest() == rest[taken - cnt..]
    {
      ghost var iov, j := f.iov, f.iovIdx;
      FlattenSkip(iov, j);
      if cnt >= |f.iov[f.iovIdx]| {
        cnt := cnt - |f.iov[f.iovIdx]|;
        f.iovIdx := f.iovIdx + 1;
        f.iovCnt := f.iovCnt - 1;
      } else {
        FlattenCut(iov, j, cnt);
        f.iov := f.iov[f.iovIdx := f.iov[f.iovIdx][cnt..]];
        return;
      }
    }
    FlattenAt(f.iov, f.iovIdx);
  }

  lemma NothingLeft(f: Fragment)
    requires f.Valid()
    ensures f.iovCnt == 0 <==> f.Rest() == []
  {
    FlattenAt(f.iov, f.iovIdx);
  }

  /** mca_btl_tcp2_frag_send: one writev, which takes some of the bytes left; true once none are left. */
  method FragSend(f: Fragment, sock: OutSocket) returns (done: bool)
    requires f.Valid()
    modifies f, sock
    ensures f.Valid() && (done <==> f.Rest() == [] && old(sock.grants) != [])
    ensures sock.written + f.Rest() == old(sock.written) + old(f.Rest())
    ensures |f.Rest()| == old(|f.Rest()|) - Taken(old(sock.grants), old(|f.Rest()|))
    ensures sock.grants == if old(sock.grants) == [] then [] else old(sock.grants)[1..]
  {
    hide Flatten;
    ghost var rest := f.Rest();
    var cnt := sock.Writev(f.Rest());
    if cnt < 0 {
      return false;
    }
    Advance(f, cnt);
    assert rest == rest[..cnt] + rest[cnt..];
    NothingLeft(f);
    return f.iovCnt == 0;
  }

  // ---------------------------------------------------------------------------------------
  // The send queue

  datatype Connection = Closed | Connecting | ConnectAck | Connected | Failed

  datatype Status = Success | Unreachable | SentInline

  /** The send side of an endpoint. */
  class Endpoint {
    var state: Connection
    var sendFrag: Fragment?
    var frags: seq<Fragment>

    /** The fragments not completely written, in the order in which they will be. */
    function Queue(): seq<Fragment>
      reads this
    {
      (if sendFrag == null then [] else [sendFrag]) + frags
    }

    ghost predicate Valid()
      reads this, Queue()
    {
      && (state.Connected? && sendFrag == null ==> frags == [])
      && (forall i, j :: 0 <= i < j < |Queue()| ==> Queue()[i] != Queue()[j])
      && (forall f :: f in Queue() ==> f.Valid())
    }

    /** A fragment is written without waiting for the send handler: nothing is queued before it, and it has priority. */
    predicate AtOnce(priority: bool)
      reads this
    {
      state.Connected? && sendFrag == null && priority
    }

    /**
     mca_btl_tcp2_endpoint_send: the fragment goes behind all others, or straight out when there
     are none; inProgress says whether a connect that this call starts is still under way.
     */
    method Send(frag: Fragment, priority: bool, inProgress: bool, sock: OutSocket) returns (rc: Status)
      requires Valid() && frag !in Queue() && frag.Valid() && frag.Rest() != []
      modifies this, frag, sock
      ensures Valid() && (rc == Unreachable <==> old(state).Failed?)
      ensures rc == Unreachable ==> Queue() == old(Queue()) && sock.written == old(sock.written)
      ensures rc == Success ==> Queue() == old(Queue()) + [frag]
      ensures rc == SentInline ==> old(Queue()) == [] == Queue() && frag.Rest() == []
      ensures rc != Unreachable ==> sock.written + Outstanding(Queue()) == old(sock.written) + old(Outstanding(Queue())) + old(frag.Rest())
      ensures state == if old(state).Closed? then (if inProgress then Connecting else ConnectAck) else old(state)
      ensures old(AtOnce(priority)) ==> (rc == SentInline <==> old(sock.grants) != [] && old(sock.grants)[0] >= old(|frag.Rest()|))
      ensures old(AtOnce(priority)) ==> |frag.Rest()| == old(|frag.Rest()|) - Taken(old(sock.grants), old(|frag.Rest()|))
      ensures !old(AtOnce(priority)) ==> rc != SentInline && sock.written == old(sock.written) && frag.Rest() == old(frag.Rest())
    {
      hide Outstanding, Flatten, Fragment.Rest;
      OutstandingSnoc(Queue(), frag);
      OutstandingSingle(frag);
      rc := Success;
      ghost var queue := Queue();
      Associative(sock.written, Outstanding(queue), frag.Rest());
      match state {
        case Connecting | ConnectAck =>
          Append(frag);
        case Closed =>
          Append(frag);
          state := if inProgress then Connecting else ConnectAck;
          assert Queue() == queue + [frag];
        case Failed =>
          rc := Unreachable;
        case Connected =>
          if sendFrag == null {
            rc := SendAtOnce(frag, priority, sock);
          } else {
            Append(frag);
          }
      }
    }

    method Append(frag: Fragment)
      requires Valid() && frag !in Queue() && frag.Valid() && (state.Connected? ==> sendFrag != null)
      modifies this
      ensures Valid() && Queue() == old(Queue()) + [frag] && state == old(state)
    {
      ghost var queue := Queue();
      frags := frags + [frag];
      assert Queue() == queue + [frag];
    }

    /** Lines 256-272: nothing is queued; a priority fragment is written right away as far as possible. */
    method SendAtOnce(frag: Fragment, priority: bool, sock: OutSocket) returns (rc: Status)
      requires Valid() && state.Connected? && Queue() == [] && frag.Valid() && frag.Rest() != []
      modifies this, frag, sock
      ensures Valid() && state.Connected? && (rc == Success || rc == SentInline)
      ensures rc == Success ==> Queue() == [frag]
      ensures rc == SentInline ==> Queue() == [] && frag.Rest() == []
      ensures sock.written + Outstanding(Queue()) == old(sock.written) + old(frag.Rest())
      ensures priority ==> (rc == SentInline <==> old(sock.grants) != [] && old(sock.grants)[0] >= old(|frag.Rest()|))
      ensures priority ==> |frag.Rest()| == old(|frag.Rest()|) - Taken(old(sock.grants), old(|frag.Rest()|))
      ensures !priority ==> rc == Success && sock.written == old(sock.written) && frag.Rest() == old(frag.Rest())
    {
      hide Outstanding, Flatten, Fragment.Rest;
      var done := false;
      if priority {
        done := FragSend(frag, sock);
      }
      OutstandingSingle(frag);
      if done {
        rc := SentInline;
        assert Queue() == [];
      } else {
        sendFrag := frag;
        rc := Success;
        assert Queue() == [frag];
      }
    }

    /** mca_btl_tcp2_endpoint_connected: nothing queued so far is lost or reordered. */
    method Connect()
      requires Valid()
      modifies this
      ensures Valid() && state == Connected && Queue() == old(Queue())
    {
      ghost var queue := Queue();
      state := Connected;
      if |frags| > 0 {
        if sendFrag == null {
          sendFrag := frags[0];
          frags := frags[1..];
        }
      }
      assert Queue() == queue;
    }

    /** mca_btl_tcp2_endpoint_close, as far as the queue is concerned; without a socket it does nothing. */
    method Close(hasSocket: bool)
      requires Valid()
      modifies this
      ensures Valid() && state == (if hasSocket then Closed else old(state)) && Queue() == old(Queue())
    {
      if !hasSocket {
        return;
      }
      ghost var queue := Queue();
      state := Closed;
      assert Queue() == queue;
    }

    /** One turn of the send handler: write the fragment at hand, and take the next once it is complete. */
    method SendCurrent(sock: OutSocket) returns (done: bool)
      requires Valid() && state.Connected? && sendFrag != null
      modifies this, sendFrag, sock
      ensures Valid() && state.Connected? && Queue() == if done then old(Queue())[1..] else old(Queue())
      ensures sock.written + Outstanding(Queue()) == old(sock.written) + old(Outstanding(Queue()))
      ensures done <==> old(sock.grants) != [] && old(sock.grants)[0] >= old(Lengths(Queue()))[0]
      ensures Lengths(Queue()) == if done then old(Lengths(Queue()))[1..]
                                  else var lens := old(Lengths(Queue())); lens[0 := lens[0] - Taken(old(sock.grants), lens[0])]
      ensures sock.grants == if old(sock.grants) == [] then [] else old(sock.grants)[1..]
    {
      hide Flatten, Outstanding, Fragment.Rest;
      var frag := sendFrag;
      ghost var queue, rest, written, bytes := Queue(), frags, sock.written, frag.Rest();
      OutstandingHead(queue, rest);
      ghost var lens := Lengths(queue);
      ghost var later := Outstanding(rest);
      done := FragSend(frag, sock);
      assert Outstanding(rest) == later && Lengths(rest) == lens[1..];
      OutstandingHead(queue, rest);
      assert (written + bytes) + later == written + (bytes + later);
      assert (sock.written + frag.Rest()) + later == sock.written + (frag.Rest() + later);
      assert Queue() == queue && Valid();
      if done {
        TakeNext();
      }
    }

    /** The first of the list becomes the fragment at hand. */
    method TakeNext()
      requires Valid() && state.Connected? && sendFrag != null
      modifies this`sendFrag, this`frags
      ensures Valid() && Queue() == old(Queue())[1..]
    {
      ghost var queue, rest := Queue(), frags;
      forall i, j | 0 <= i < j < |rest| ensures rest[i] != rest[j] {
        assert queue[i + 1] != queue[j + 1];
      }
      sendFrag, frags := if frags == [] then null else frags[0], if frags == [] then [] else frags[1..];
      assert Queue() == rest;
    }

    /**
     mca_btl_tcp2_endpoint_send_handler once connected: fragments leave in order, each completely, and it
     goes on until none is left or a writev takes less than it is offered. k fragments have left.
     */
    method SendHandler(sock: OutSocket) returns (ghost k: nat)
      requires Valid() && state.Connected?
      modifies this, Queue(), sock
      ensures k + |Queue()| == |old(Queue())| && SentUpTo(old(Lengths(Queue())), old(sock.grants), k, Lengths(Queue()))
      ensures Valid() && state.Connected? && |Queue()| <= |old(Queue())| && Queue() == old(Queue())[|old(Queue())| - |Queue()|..]
      ensures sock.written + Outstanding(Queue()) == old(sock.written) + old(Outstanding(Queue()))
    {
      hide Flatten, Outstanding, Fragment.Rest, Lengths, Valid, Queue, Sending, SentUpTo;
      ghost var all, bytes, grants, lens := Queue(), sock.written + Outstanding(Queue()), sock.grants, Lengths(Queue());
      k := 0;
      HeadOfQueue();
      SendingStart(lens, grants);
      while sendFrag != null
        invariant Valid() && state.Connected? && k <= |all| && Queue() == all[k..]
        invariant (sendFrag != null ==> Queue() != [] && sendFrag == Queue()[0]) && (sendFrag == null ==> Queue() == [])
        invariant sock.written + Outstanding(Queue()) == bytes && Sending(lens, grants, k, Lengths(Queue()), sock.grants)
        decreases |Queue()|
      {
        SendingNext(lens, grants, k, Lengths(Queue()), sock.grants);
        var done := SendCurrent(sock);
        if !done {
          break;
        }
        assert all[k..][1..] == all[k + 1..];
        k := k + 1;
        HeadOfQueue();
      }
      SendingDone(lens, grants, k, Lengths(Queue()), sock.grants);
    }

    lemma HeadOfQueue()
      requires Valid() && state.Connected?
      ensures (sendFrag != null ==> Queue() != [] && sendFrag == Queue()[0]) && (sendFrag == null ==> Queue() == [])
    {
    }
  }

  lemma OutstandingSingle(f: Fragment)
    ensures Outstanding([]) == [] && Outstanding([f]) == f.Rest() && [] + [f] == [f]
  {
    assert Outstanding([f]) == f.Rest() + Outstanding([f][1..]);
  }

  lemma OutstandingHead(queue: seq<Fragment>, rest: seq<Fragment>)
    requires queue != [] && rest == queue[1..]
    ensures Outstanding(queue) == queue[0].Rest() + Outstanding(rest)
    ensures Lengths(queue) == [|queue[0].Rest()|] + Lengths(rest)
  {
  }

  /** How many bytes each of the fragments still has to write. */
  ghost function Lengths(queue: seq<Fragment>): (r: seq<nat>)
    ensures |r| == |queue|
    reads queue
  {
    if queue == [] then [] else [|queue[0].Rest()|] + Lengths(queue[1..])
  }

  /**
   The first k fragments have been written, each by a writev of its own that took it whole; then none is
   left, or the next writev took less than all of its fragment.
   */
  ghost predicate SentUpTo(lens: seq<nat>, grants: seq<nat>, k: nat, left: seq<nat>) {
    && k <= |lens| && k <= |grants| && (forall i :: 0 <= i < k ==> grants[i] >= lens[i])
    && if k == |lens| then left == []
       else
         var taken := if k < |grants| then grants[k] else 0;
         (k < |grants| ==> taken < lens[k]) && taken <= lens[k] && left == lens[k..][0 := lens[k] - taken]
  }

  /** k fragments have left, and the others have not been touched. */
  ghost predicate Sending(lens: seq<nat>, grants: seq<nat>, k: nat, now: seq<nat>, later: seq<nat>) {
    && k <= |lens| && k <= |grants| && now == lens[k..] && later == grants[k..]
    && forall i :: 0 <= i < k ==> grants[i] >= lens[i]
  }

  lemma SendingStart(lens: seq<nat>, grants: seq<nat>)
    ensures Sending(lens, grants, 0, lens, grants)
  {
  }

  /** One more writev: either it takes a whole fragment, or it is the last one. */
  lemma SendingNext(lens: seq<nat>, grants: seq<nat>, k: nat, now: seq<nat>, later: seq<nat>)
    requires Sending(lens, grants, k, now, later) && now != []
    ensures if later != [] && later[0] >= now[0] then Sending(lens, grants, k + 1, now[1..], later[1..])
            else SentUpTo(lens, grants, k, now[0 := now[0] - Taken(later, now[0])])
  {
  }

  lemma SendingDone(lens: seq<nat>, grants: seq<nat>, k: nat, now: seq<nat>, later: seq<nat>)
    ensures Sending(lens, grants, k, now, later) && now == [] ==> SentUpTo(lens, grants, k, now)
  {
  }

  /** The bytes that the fragments still have to write. */
  ghost function Outstanding(queue: seq<Fragment>): seq<Byte>
    reads queue
  {
    if queue == [] then [] else queue[0].Rest() + Outstanding(queue[1..])
  }

  lemma {:induction false} OutstandingSnoc(queue: seq<Fragment>, f: Fragment)
    ensures Outstanding(queue + [f]) == Outstanding(queue) + f.Rest()
  {
    hide Flatten, Fragment.Rest;
    if queue != [] {
      OutstandingSnoc(queue[1..], f);
      assert (queue + [f])[1..] == queue[1..] + [f];
      assert queue[0].Rest() + (Outstanding(queue[1..]) + f.Rest()) == Outstanding(queue) + f.Rest();
    } else {
      assert queue + [f] == [f] && Outstanding([f]) == f.Rest() + [];
    }
  }
}
