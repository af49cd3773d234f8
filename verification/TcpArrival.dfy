/**
 How far one receive event gets, in numbers of bytes: which bytes of the stream it takes off the
 socket, given what each readv is granted, and how many messages are complete then.
 */
module TcpArrival {
  import opened Common
  import opened Bytes
  import opened TcpFrames

  function FrameSize(m: Message): nat {
    HdrSize + |m.payload|
  }

  /** What the iovec at hand waits for once a bytes of the script have arrived: the rest of a header, or of a payload. */
  function Awaited(script: seq<Message>, a: int): nat {
    if a < HdrSize then HdrSize - a
    else if script != [] && a < FrameSize(script[0]) then FrameSize(script[0]) - a
    else 0
  }

  /**
   The bytes that are read from the socket while the cache is empty and a bytes of the script have
   arrived: one readv, with `room` bytes of cache behind the iovec, and whatever comes after it.
   */
  function Arrive(room: nat, script: seq<Message>, a: int, avail: nat, grants: seq<nat>): (n: nat)
    ensures n <= avail
    decreases avail, 0, 0
  {
    var n := Taken(grants, Min(Awaited(script, a) + room, avail));
    if n == 0 then 0 else n + Onward(room, script, a + n, avail - n, grants[1..])
  }

  /** After a readv there is another one in the same event only if it stopped right behind the header of a message that has a payload. */
  function Onward(room: nat, script: seq<Message>, a: int, avail: nat, grants: seq<nat>): (n: nat)
    ensures n <= avail
    decreases avail, 1, |script|
  {
    if script == [] then 0
    else if a >= FrameSize(script[0]) then Onward(room, script[1..], a - FrameSize(script[0]), avail, grants)
    else if a == HdrSize then Arrive(room, script, a, avail, grants)
    else 0
  }

  /** The same at any moment: with bytes in the cache, these come first. */
  function Ahead(room: nat, script: seq<Message>, a: int, cached: nat, avail: nat, grants: seq<nat>): nat {
    if cached == 0 then Arrive(room, script, a, avail, grants) else Onward(room, script, a, avail, grants)
  }

  /** How many messages are complete within the first n bytes. */
  function Whole(script: seq<Message>, n: int): nat {
    if script == [] || n < FrameSize(script[0]) then 0 else 1 + Whole(script[1..], n - FrameSize(script[0]))
  }

  /** Complete messages and part of the next one. */
  lemma {:induction false} WholeFrames(o: Order, script: seq<Message>, k: nat, part: nat)
    requires k <= |script| && (if k < |script| then part < FrameSize(script[k]) else part == 0)
    ensures Whole(script, |Frames(o, script[..k])| + part) == k
  {
    hide Frame;
    if k > 0 {
      WholeFrames(o, script[1..], k - 1, part);
      assert script[..k][1..] == script[1..][..k - 1];
      assert |Frames(o, script[..k])| == FrameSize(script[0]) + |Frames(o, script[1..][..k - 1])|;
    }
  }

  lemma {:induction false} WholeMore(script: seq<Message>, n: int, more: int)
    requires n <= more
    ensures Whole(script, n) <= Whole(script, more)
  {
    if script != [] && n >= FrameSize(script[0]) {
      WholeMore(script[1..], n - FrameSize(script[0]), more - FrameSize(script[0]));
    }
  }

  /** Whatever arrives with the first readv is delivered in the same event, as far as messages are complete. */
  lemma FirstReadCounts(room: nat, script: seq<Message>, a: nat, avail: nat, grants: seq<nat>)
    ensures var n := Arrive(room, script, a, avail, grants); var first := Taken(grants, Min(Awaited(script, a) + room, avail));
            n >= first && Whole(script, a + n) >= Whole(script, a + first)
  {
    hide Onward, Whole;
    var n, first := Arrive(room, script, a, avail, grants), Taken(grants, Min(Awaited(script, a) + room, avail));
    WholeMore(script, a + first, a + n);
  }

  /**
   Two readvs bring any message in: if the first may read all of what is missing or the header
   exactly, and in that case the second all of the payload, the message is delivered.
   */
  lemma FrameGetsThrough(room: nat, script: seq<Message>, a: nat, avail: nat, grants: seq<nat>)
    requires script != [] && a < FrameSize(script[0]) <= a + avail && grants != []
    requires || FrameSize(script[0]) - a <= Min(grants[0], Awaited(script, a) + room)
             || (|grants| > 1 && a < HdrSize && a + Min(grants[0], Awaited(script, a) + room) == HdrSize && |script[0].payload| <= grants[1])
    ensures Whole(script, a + Arrive(room, script, a, avail, grants)) >= 1
  {
    hide Whole;
    var size := FrameSize(script[0]);
    var first := Taken(grants, Min(Awaited(script, a) + room, avail));
    if a + first < size {
      assert Onward(room, script, HdrSize, avail - first, grants[1..]) == Arrive(room, script, HdrSize, avail - first, grants[1..]);
      assert Arrive(room, script, HdrSize, avail - first, grants[1..]) >= |script[0].payload|;
    }
    WholeOne(script, a + Arrive(room, script, a, avail, grants));
  }

  lemma WholeOne(script: seq<Message>, n: int)
    ensures Whole(script, n) >= 1 <==> script != [] && n >= FrameSize(script[0])
  {
  }
}
