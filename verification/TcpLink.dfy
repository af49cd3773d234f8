/**
 Both ends of a connected TCP link together: every interleaving of sends, partial writes and
 receive events, with the contracts of the two sides (TcpSend.Endpoint, TcpReceive.RecvHandler)
 as the steps.
 */
module TcpLink {
  import opened Bytes
  import opened TcpFrames

  /**
   sent: messages given to mca_btl_tcp2_endpoint_send; outstanding: bytes queued at the sender;
   stream: bytes written and not yet read; pending: bytes of an incomplete frame at the receiver;
   delivered: what the receive callbacks have been shown.
   */
  datatype Link = Link(sent: seq<Message>, outstanding: seq<Byte>, stream: seq<Byte>, pending: seq<Byte>, delivered: seq<Message>)

  ghost predicate Init(s: Link) {
    s == Link([], [], [], [], [])
  }

  datatype Step = Send(m: Message, chunk: seq<Byte>) | Write(chunk: seq<Byte>) | Receive(shown: seq<Message>, stale: nat)

  /** A message is queued behind what is outstanding, and a chunk of the queue may be written. */
  ghost predicate SendStep(o: Order, s: Link, s': Link, m: Message, chunk: seq<Byte>) {
    && s'.sent == s.sent + [m] && chunk + s'.outstanding == s.outstanding + Frame(o, m)
    && s'.stream == s.stream + chunk && s'.pending == s.pending && s'.delivered == s.delivered
  }

  ghost predicate WriteStep(s: Link, s': Link, chunk: seq<Byte>) {
    && s'.sent == s.sent && chunk + s'.outstanding == s.outstanding
    && s'.stream == s.stream + chunk && s'.pending == s.pending && s'.delivered == s.delivered
  }

  /** The first messages of the rest of the script, and part of the next one. */
  ghost predicate Unfinished(o: Order, pending: seq<Byte>, script: seq<Message>) {
    if script == [] then pending == [] else |pending| < |Frame(o, script[0])|
  }

  ghost predicate ReceiveStep(o: Order, s: Link, s': Link, shown: seq<Message>, stale: nat) {
    && s'.sent == s.sent && s'.outstanding == s.outstanding && |s.delivered| + |shown| <= |s.sent|
    && var script := s.sent[|s.delivered|..];
       && s.pending + s.stream == Frames(o, script[..|shown|]) + (s'.pending + s'.stream)
       && Unfinished(o, s'.pending, script[|shown|..])
       && ShowsAll(shown, script[..|shown|], stale) && s'.delivered == s.delivered + shown
  }

  ghost predicate Next(o: Order, s: Link, step: Step, s': Link) {
    match step
    case Send(m, chunk) => SendStep(o, s, s', m, chunk)
    case Write(chunk) => WriteStep(s, s', chunk)
    case Receive(shown, stale) => ReceiveStep(o, s, s', shown, stale)
  }

  ghost predicate IsRun(o: Order, states: seq<Link>, steps: seq<Step>) {
    && |states| == |steps| + 1 && Init(states[0])
    && forall i :: 0 <= i < |steps| ==> Next(o, states[i], steps[i], states[i + 1])
  }

  /** Delivery i carries the tag of message i, and its payload unless that is empty. */
  predicate Faithful(d: Message, m: Message) {
    d.tag == m.tag && (m.payload != [] ==> d.payload == m.payload)
  }

  /** No byte is lost, repeated or reordered between the two ends. */
  ghost predicate Inv(o: Order, s: Link) {
    && |s.delivered| <= |s.sent|
    && s.pending + s.stream + s.outstanding == Frames(o, s.sent[|s.delivered|..])
    && Unfinished(o, s.pending, s.sent[|s.delivered|..])
    && forall i :: 0 <= i < |s.delivered| ==> Faithful(s.delivered[i], s.sent[i])
  }

  lemma SendInv(o: Order, s: Link, s': Link, m: Message, chunk: seq<Byte>)
    requires Inv(o, s) && SendStep(o, s, s', m, chunk)
    ensures Inv(o, s')
  {
    hide Frame, Frames;
    var k := |s.delivered|;
    assert s'.sent[k..] == s.sent[k..] + [m];
    FramesConcat(o, s.sent[k..], [m]);
    SingleFrame(o, m);
    calc {
      s'.pending + s'.stream + s'.outstanding;
      s.pending + s.stream + (chunk + s'.outstanding);
      s.pending + s.stream + s.outstanding + Frame(o, m);
    }
  }

  lemma SingleFrame(o: Order, m: Message)
    ensures Frames(o, [m]) == Frame(o, m) && |Frame(o, m)| > 0
  {
    assert Frames(o, [m]) == Frame(o, m) + Frames(o, []);
  }

  lemma WriteInv(o: Order, s: Link, s': Link, chunk: seq<Byte>)
    requires Inv(o, s) && WriteStep(s, s', chunk)
    ensures Inv(o, s')
  {
    hide Frame, Frames;
    assert s'.pending + s'.stream + s'.outstanding == s.pending + s.stream + (chunk + s'.outstanding);
  }

  lemma ReceiveInv(o: Order, s: Link, s': Link, shown: seq<Message>, stale: nat)
    requires Inv(o, s) && ReceiveStep(o, s, s', shown, stale)
    ensures Inv(o, s')
  {
    hide Frame, Frames;
    var k, n := |s.delivered|, |shown|;
    var script := s.sent[k..];
    assert script == script[..n] + script[n..] && script[n..] == s'.sent[k + n..];
    FramesConcat(o, script[..n], script[n..]);
    var front, rest := Frames(o, script[..n]), s'.pending + s'.stream + s'.outstanding;
    assert front + (s'.pending + s'.stream) + s.outstanding == front + rest;
    Cancel(front, rest, Frames(o, script[n..]));
    forall i | 0 <= i < k + n ensures Faithful(s'.delivered[i], s'.sent[i]) {
      if i >= k {
        assert Shows(shown[i - k], script[..n][i - k], LastLength(shown, i - k, stale));
      }
    }
  }

  lemma Cancel(a: seq<Byte>, b: seq<Byte>, c: seq<Byte>)
    requires a + b == a + c
    ensures b == c
  {
    assert (a + b)[|a|..] == b && (a + c)[|a|..] == c;
  }

  lemma StartInv(o: Order, s: Link)
    requires Init(s)
    ensures Inv(o, s)
  {
  }

  lemma {:induction false} RunInv(o: Order, states: seq<Link>, steps: seq<Step>, i: nat)
    requires IsRun(o, states, steps) && i < |states|
    ensures Inv(o, states[i])
  {
    hide Inv, Frame, Frames, SendStep, WriteStep, ReceiveStep;
    if i == 0 {
      StartInv(o, states[0]);
    } else {
      RunInv(o, states, steps, i - 1);
      assert Next(o, states[i - 1], steps[i - 1], states[i]);
      match steps[i - 1] {
        case Send(m, chunk) => SendInv(o, states[i - 1], states[i], m, chunk);
        case Write(chunk) => WriteInv(o, states[i - 1], states[i], chunk);
        case Receive(shown, stale) => ReceiveInv(o, states[i - 1], states[i], shown, stale);
      }
    }
  }

  /** The bytes at the receiver always are the beginning of what it has to expect: its precondition holds. */
  lemma ReceiverMayRun(o: Order, states: seq<Link>, steps: seq<Step>, i: nat)
    requires IsRun(o, states, steps) && i < |states|
    ensures var s := states[i]; |s.delivered| <= |s.sent| && s.pending + s.stream <= Frames(o, s.sent[|s.delivered|..])
  {
    hide Frame, Frames;
    RunInv(o, states, steps, i);
  }

  /** In every run the deliveries are the messages sent, in order, none lost, repeated or mixed. */
  lemma DeliveredInOrder(o: Order, states: seq<Link>, steps: seq<Step>, i: nat, j: nat)
    requires IsRun(o, states, steps) && i < |states| && j < |states[i].delivered|
    ensures j < |states[i].sent| && Faithful(states[i].delivered[j], states[i].sent[j])
  {
    hide Frame, Frames;
    RunInv(o, states, steps, i);
  }

  lemma FirstFrameFits(o: Order, script: seq<Message>)
    ensures script != [] ==> |Frame(o, script[0])| <= |Frames(o, script)|
  {
  }

  /** Once every byte has been written and read, every message has been delivered. */
  lemma EverythingDelivered(o: Order, states: seq<Link>, steps: seq<Step>, i: nat)
    requires IsRun(o, states, steps) && i < |states| && states[i].outstanding == [] && states[i].stream == []
    ensures |states[i].delivered| == |states[i].sent| && states[i].pending == []
  {
    RunInv(o, states, steps, i);
    var s := states[i];
    var script := s.sent[|s.delivered|..];
    assert s.pending + s.stream + s.outstanding == s.pending;
    FirstFrameFits(o, script);
  }

  // ---------------------------------------------------------------------------------------
  // When the deliveries are the messages

  /** The messages that a receive event hands to the callbacks. */
  ghost function Handled(s: Link, n: nat): seq<Message>
    requires |s.delivered| + n <= |s.sent|
  {
    s.sent[|s.delivered|..|s.delivered| + n]
  }

  /** In this event, an empty message finds a fragment of length 0. */
  ghost predicate Harmless(s: Link, step: Step) {
    step.Receive? && |s.delivered| + |step.shown| <= |s.sent| ==> EmptyFirst(Handled(s, |step.shown|), step.stale)
  }

  /** In a given run the deliveries are the messages, exactly when every event was harmless. */
  lemma {:induction false} DeliveredExactly(o: Order, states: seq<Link>, steps: seq<Step>, i: nat)
    requires IsRun(o, states, steps) && i < |states|
    ensures states[i].delivered <= states[i].sent <==> forall k :: 0 <= k < i ==> Harmless(states[k], steps[k])
  {
    hide Frame, Frames, Next, Harmless;
    if i > 0 {
      DeliveredExactly(o, states, steps, i - 1);
      RunInv(o, states, steps, i - 1);
      assert Next(o, states[i - 1], steps[i - 1], states[i]);
      EventExactly(o, states[i - 1], steps[i - 1], states[i]);
    }
  }

  lemma EventExactly(o: Order, s: Link, step: Step, s': Link)
    requires Next(o, s, step, s') && |s.delivered| <= |s.sent|
    ensures s'.delivered <= s'.sent <==> s.delivered <= s.sent && Harmless(s, step)
  {
    hide Frame, Frames, EmptyFirst, ShowsAll;
    match step
    case Send(m, _) => assert s'.sent[..|s.sent|] == s.sent;
    case Write(_) =>
    case Receive(shown, stale) =>
      var n := |s.delivered|;
      assert s.sent[n..][..|shown|] == Handled(s, |shown|);
      ShownExactly(shown, Handled(s, |shown|), stale);
      assert s.sent[..n + |shown|] == s.sent[..n] + Handled(s, |shown|);
  }

  predicate NoneEmpty(ms: seq<Message>) {
    forall i :: 0 <= i < |ms| ==> ms[i].payload != []
  }

  /** A run that sends these messages and nothing else. */
  ghost predicate RunOf(o: Order, states: seq<Link>, steps: seq<Step>, ms: seq<Message>) {
    IsRun(o, states, steps) && states[|steps|].sent == ms
  }

  /** Every message is written at once. */
  lemma {:induction false} SendAll(o: Order, ms: seq<Message>) returns (states: seq<Link>, steps: seq<Step>)
    ensures IsRun(o, states, steps) && states[|steps|] == Link(ms, [], Frames(o, ms), [], [])
  {
    hide Frame, Frames;
    if ms == [] {
      states, steps := [Link([], [], [], [], [])], [];
      NoFrames(o);
    } else {
      var init, m := ms[..|ms| - 1], ms[|ms| - 1];
      states, steps := SendAll(o, init);
      assert ms == init + [m];
      FramesConcat(o, init, [m]);
      SingleFrame(o, m);
      var last := Link(ms, [], Frames(o, ms), [], []);
      assert SendStep(o, states[|steps|], last, m, Frame(o, m));
      states, steps := states + [last], steps + [Send(m, Frame(o, m))];
    }
  }

  lemma NoFrames(o: Order)
    ensures Frames(o, []) == []
  {
  }

  /** What a fragment of that length shows of the messages. */
  function Shown(ms: seq<Message>, stale: nat): (ds: seq<Message>)
    ensures |ds| == |ms|
  {
    if ms == [] then []
    else
      var front, m := Shown(ms[..|ms| - 1], stale), ms[|ms| - 1];
      front + [if m.payload != [] then m else Message(m.tag, seq(LastLength(front, |front|, stale), _ => 0))]
  }

  lemma {:induction false} ShownShows(ms: seq<Message>, stale: nat)
    ensures ShowsAll(Shown(ms, stale), ms, stale)
  {
    if ms != [] {
      var n := |ms| - 1;
      ShownShows(ms[..n], stale);
      var front, ds := Shown(ms[..n], stale), Shown(ms, stale);
      forall i | 0 <= i < |ds| ensures Shows(ds[i], ms[i], LastLength(ds, i, stale)) {
        if i < n {
          assert Shows(front[i], ms[..n][i], LastLength(front, i, stale));
        }
      }
    }
  }

  /** All of them are read and handled in one event, with a fragment that was used before. */
  lemma DirtyRun(o: Order, ms: seq<Message>) returns (states: seq<Link>, steps: seq<Step>)
    requires !NoneEmpty(ms)
    ensures RunOf(o, states, steps, ms) && !(states[|steps|].delivered <= ms)
  {
    hide Frame, Frames, Shown, ShowsAll, EmptyFirst, ReceiveStep, NoneEmpty;
    states, steps := SendAll(o, ms);
    var ds := Shown(ms, 1);
    ShownShows(ms, 1);
    ReceiveAll(o, ms, ds, 1);
    ShownExactly(ds, ms, 1);
    NeverFirst(ms);
    states, steps := states + [Link(ms, [], [], [], ds)], steps + [Receive(ds, 1)];
  }

  lemma ReceiveAll(o: Order, ms: seq<Message>, ds: seq<Message>, stale: nat)
    requires ShowsAll(ds, ms, stale)
    ensures ReceiveStep(o, Link(ms, [], Frames(o, ms), [], []), Link(ms, [], [], [], ds), ds, stale)
  {
    hide Frame, Frames, Shows;
    assert ms[0..] == ms && ms[..|ds|] == ms && ms[|ds|..] == [];
    assert [] + Frames(o, ms) == Frames(o, ms) == Frames(o, ms) + ([] + []);
  }

  lemma {:induction false} NeverFirst(ms: seq<Message>)
    ensures EmptyFirst(ms, 1) <==> NoneEmpty(ms)
  {
    if i :| 0 <= i < |ms| && ms[i].payload == [] {
      FirstEmpty(ms, i);
    }
  }

  /** The first empty message finds a fragment that is not. */
  lemma {:induction false} FirstEmpty(ms: seq<Message>, i: nat)
    requires i < |ms| && ms[i].payload == []
    ensures !EmptyFirst(ms, 1)
  {
    if i > 0 && ms[i - 1].payload == [] {
      FirstEmpty(ms, i - 1);
    } else {
      assert LastLength(ms, i, 1) != 0;
    }
  }

  /** The deliveries are the messages sent in every schedule if and only if no message is empty. */
  lemma EveryScheduleExact(o: Order, ms: seq<Message>)
    ensures (forall states: seq<Link>, steps: seq<Step> :: RunOf(o, states, steps, ms) ==> states[|steps|].delivered <= ms) <==> NoneEmpty(ms)
  {
    hide Frame, Frames;
    if NoneEmpty(ms) {
      forall states: seq<Link>, steps: seq<Step> | RunOf(o, states, steps, ms) ensures states[|steps|].delivered <= ms {
        RunInv(o, states, steps, |steps|);
      }
    } else {
      var states, steps := DirtyRun(o, ms);
    }
  }
}
