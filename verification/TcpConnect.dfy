/**
 Connection set-up between two processes (btl_tcp2_endpoint.c): either may connect to the other
 at any time, and when both do, the connection of the process with the lower name stays.

 A run is any interleaving of sends, connect completions, accepts and acknowledgements, without
 socket errors. Connections are numbered as they are started.
 */
module TcpConnect {

  /** The process with the lower name and the one with the higher name. */
  datatype Side = Low | High

  function Other(x: Side): Side {
    if x.Low? then High else Low
  }

  /** What the accepting process made of a connection. */
  datatype Verdict = Unseen | Accepted | Rejected

  /** Who started it, whether its process identifier has been sent, and the verdict. */
  datatype Conn = Conn(origin: Side, named: bool, verdict: Verdict)

  /** endpoint_state, with the connection that endpoint_sd belongs to. */
  datatype State = Closed | Connecting(c: nat) | ConnectAck(c: nat) | Connected(c: nat)

  type Frag(==)

  /** Fragments given to endpoint_send, fragments written, and the connection they were written to, in order. */
  datatype End = End(state: State, queue: seq<Frag>, given: seq<Frag>, written: seq<(nat, Frag)>)

  datatype World = World(low: End, high: End, conns: seq<Conn>)

  function At(w: World, x: Side): End {
    if x.Low? then w.low else w.high
  }

  function With(w: World, x: Side, e: End): World {
    if x.Low? then w.(low := e) else w.(high := e)
  }

  // ---------------------------------------------------------------------------------------
  // Steps

  datatype Step =
    | Send(x: Side, f: Frag, inProgress: bool)
    | CompleteConnect(x: Side)
    | Accept(x: Side, conn: nat)
    | RecvAck(x: Side)
    | RecvEof(x: Side)
    | WriteFrag(x: Side)

  /** mca_btl_tcp2_endpoint_accept takes the connection: none of its own, or the peer has the lower name. */
  predicate Takes(w: World, x: Side) {
    At(w, x).state.Closed? || (!At(w, x).state.Connected? && x.High?)
  }

  predicate Enabled(w: World, step: Step) {
    match step
    case Send(_, _, _) => true
    case CompleteConnect(x) => At(w, x).state.Connecting? && At(w, x).state.c < |w.conns|
    case Accept(x, c) => c < |w.conns| && w.conns[c].origin == Other(x) && w.conns[c].named && w.conns[c].verdict.Unseen?
    case RecvAck(x) => At(w, x).state.ConnectAck? && At(w, x).state.c < |w.conns| && w.conns[At(w, x).state.c].verdict.Accepted?
    case RecvEof(x) => At(w, x).state.ConnectAck? && At(w, x).state.c < |w.conns| && w.conns[At(w, x).state.c].verdict.Rejected?
    case WriteFrag(x) => At(w, x).state.Connected? && At(w, x).queue != []
  }

  function Apply(w: World, step: Step): World
    requires Enabled(w, step)
  {
    var e := At(w, step.x);
    match step
    case Send(x, f, inProgress) =>
      var e1 := e.(queue := e.queue + [f], given := e.given + [f]);
      if e.state.Closed? then
        var c := |w.conns|;
        With(w, x, e1.(state := if inProgress then Connecting(c) else ConnectAck(c))).(conns := w.conns + [Conn(x, !inProgress, Unseen)])
      else With(w, x, e1)
    case CompleteConnect(x) =>
      var c := e.state.c;
      With(w, x, e.(state := ConnectAck(c))).(conns := w.conns[c := w.conns[c].(named := true)])
    case Accept(x, c) =>
      if Takes(w, x) then
        With(w, x, e.(state := Connected(c))).(conns := w.conns[c := w.conns[c].(verdict := Accepted)])
      else w.(conns := w.conns[c := w.conns[c].(verdict := Rejected)])
    case RecvAck(x) => With(w, x, e.(state := Connected(e.state.c)))
    case RecvEof(x) => With(w, x, e.(state := Closed))
    case WriteFrag(x) => With(w, x, e.(queue := e.queue[1..], written := e.written + [(e.state.c, e.queue[0])]))
  }

  predicate Init(w: World) {
    w == World(End(Closed, [], [], []), End(Closed, [], [], []), [])
  }

  ghost predicate IsRun(states: seq<World>, steps: seq<Step>) {
    && |states| == |steps| + 1 && Init(states[0])
    && forall i :: 0 <= i < |steps| ==> Enabled(states[i], steps[i]) && states[i + 1] == Apply(states[i], steps[i])
  }

  // ---------------------------------------------------------------------------------------
  // The invariant

  /** The only connection that the lower process ever starts is c. */
  predicate OnlyLow(w: World, c: nat) {
    c < |w.conns| && w.conns[c].origin.Low? && forall d :: 0 <= d < |w.conns| && w.conns[d].origin.Low? ==> d == c
  }

  /** Nothing that the higher process started has been accepted. */
  predicate NoneTaken(w: World) {
    forall d :: 0 <= d < |w.conns| && w.conns[d].origin.High? ==> !w.conns[d].verdict.Accepted?
  }

  /** A process that is still connecting does so on a connection of its own. */
  predicate OwnConn(w: World, x: Side) {
    var s := At(w, x).state;
    && (s.Connecting? ==> s.c < |w.conns| && w.conns[s.c] == Conn(x, false, Unseen))
    && (s.ConnectAck? ==> s.c < |w.conns| && w.conns[s.c].origin == x && w.conns[s.c].named)
  }

  /** As long as the lower process is closed, the higher one has at most the connection it is on. */
  predicate WhileClosed(w: World) {
    && !w.high.state.Connected? && |w.conns| <= 1
    && (w.conns == [] ==> w.high.state.Closed?)
    && (w.conns != [] ==> (w.high.state.Connecting? || w.high.state.ConnectAck?) && w.high.state.c == 0 &&
                          w.conns[0].origin.High? && w.conns[0].verdict.Unseen?)
  }

  predicate LinkInv(w: World) {
    match w.low.state
    case Closed => WhileClosed(w)
    case Connecting(c) => OnlyLow(w, c) && NoneTaken(w) && !w.high.state.Connected?
    case ConnectAck(c) =>
      && OnlyLow(w, c) && NoneTaken(w)
      && (w.conns[c].verdict.Unseen? ==> !w.high.state.Connected?)
      && (w.conns[c].verdict.Accepted? ==> w.high.state == Connected(c))
      && !w.conns[c].verdict.Rejected?
    case Connected(c) =>
      if c < |w.conns| && w.conns[c].origin.Low? then
        OnlyLow(w, c) && NoneTaken(w) && w.conns[c].verdict.Accepted? && w.high.state == Connected(c)
      else
        |w.conns| == 1 && c == 0 && w.conns[0].verdict.Accepted? && w.conns[0].origin.High? &&
        (w.high.state == ConnectAck(0) || w.high.state == Connected(0))
  }

  /** Nothing given is lost or reordered, and all of it goes to one connection. */
  predicate QueueInv(e: End) {
    && e.given == Fragments(e.written) + e.queue
    && (!e.state.Connected? ==> e.written == [])
    && (e.state.Connected? ==> forall i :: 0 <= i < |e.written| ==> e.written[i].0 == e.state.c)
  }

  function Fragments(written: seq<(nat, Frag)>): (r: seq<Frag>)
    ensures |r| == |written|
  {
    seq(|written|, i requires 0 <= i < |written| => written[i].1)
  }

  predicate Inv(w: World) {
    LinkInv(w) && OwnConn(w, Low) && OwnConn(w, High) && QueueInv(w.low) && QueueInv(w.high)
  }

  lemma StepLink(w: World, step: Step)
    requires LinkInv(w) && OwnConn(w, Low) && OwnConn(w, High) && Enabled(w, step)
    ensures LinkInv(Apply(w, step)) && OwnConn(Apply(w, step), Low) && OwnConn(Apply(w, step), High)
  {
    if step.x.Low? {
      LowStep(w, step);
    } else {
      HighStep(w, step);
    }
  }

  lemma LowStep(w: World, step: Step)
    requires LinkInv(w) && OwnConn(w, Low) && OwnConn(w, High) && Enabled(w, step) && step.x.Low?
    ensures LinkInv(Apply(w, step)) && OwnConn(Apply(w, step), Low) && OwnConn(Apply(w, step), High)
  {
  }

  lemma HighStep(w: World, step: Step)
    requires LinkInv(w) && OwnConn(w, Low) && OwnConn(w, High) && Enabled(w, step) && step.x.High?
    ensures LinkInv(Apply(w, step)) && OwnConn(Apply(w, step), Low) && OwnConn(Apply(w, step), High)
  {
  }

  lemma QueueWrite(e: End)
    requires QueueInv(e) && e.state.Connected? && e.queue != []
    ensures QueueInv(e.(queue := e.queue[1..], written := e.written + [(e.state.c, e.queue[0])]))
  {
    assert Fragments(e.written + [(e.state.c, e.queue[0])]) == Fragments(e.written) + [e.queue[0]];
    assert e.queue == [e.queue[0]] + e.queue[1..];
  }

  lemma QueueGiven(e: End, f: Frag)
    requires QueueInv(e)
    ensures QueueInv(e.(queue := e.queue + [f], given := e.given + [f]))
  {
    assert e.given + [f] == Fragments(e.written) + (e.queue + [f]);
  }

  /** An end that is not connected has written nothing, so its state may change freely. */
  lemma QueueState(e: End, s: State)
    requires QueueInv(e) && !e.state.Connected?
    ensures QueueInv(e.(state := s))
  {
  }

  lemma StepQueue(w: World, step: Step, x: Side)
    requires Enabled(w, step) && QueueInv(At(w, x))
    ensures QueueInv(At(Apply(w, step), x))
  {
    hide QueueInv, Fragments;
    var e, e' := At(w, x), At(Apply(w, step), x);
    if step.x == x {
      match step {
        case Send(_, f, _) =>
          QueueGiven(e, f);
          if e.state.Closed? {
            QueueState(e.(queue := e.queue + [f], given := e.given + [f]), e'.state);
          }
        case WriteFrag(_) =>
          QueueWrite(e);
        case Accept(_, _) =>
          if Takes(w, x) {
            QueueState(e, e'.state);
          }
        case _ =>
          QueueState(e, e'.state);
      }
    }
  }

  lemma {:induction false} RunInv(states: seq<World>, steps: seq<Step>, i: nat)
    requires IsRun(states, steps) && i < |states|
    ensures Inv(states[i])
  {
    if i > 0 {
      RunInv(states, steps, i - 1);
      assert Enabled(states[i - 1], steps[i - 1]);
      StepLink(states[i - 1], steps[i - 1]);
      StepQueue(states[i - 1], steps[i - 1], Low);
      StepQueue(states[i - 1], steps[i - 1], High);
    }
  }

  // ---------------------------------------------------------------------------------------
  // What every run guarantees

  /** The two ends are never connected on different sockets. */
  lemma NeverSplit(states: seq<World>, steps: seq<Step>, i: nat)
    requires IsRun(states, steps) && i < |states|
    requires states[i].low.state.Connected? && states[i].high.state.Connected?
    ensures states[i].low.state == states[i].high.state
  {
    RunInv(states, steps, i);
  }

  /** Whenever the lower process has started a connection, that is the one it ends up on. */
  lemma LowerNameWins(states: seq<World>, steps: seq<Step>, i: nat, c: nat)
    requires IsRun(states, steps) && i < |states| && c < |states[i].conns| && states[i].conns[c].origin.Low?
    ensures !states[i].low.state.Closed? && states[i].low.state.c == c
    ensures states[i].high.state.Connected? ==> states[i].high.state.c == c
  {
    RunInv(states, steps, i);
  }

  /** What was given to the send queue is what was written followed by what is still queued, all on one connection. */
  lemma NothingLostOrReordered(states: seq<World>, steps: seq<Step>, i: nat, x: Side)
    requires IsRun(states, steps) && i < |states|
    ensures var e := At(states[i], x);
            && e.given == Fragments(e.written) + e.queue
            && forall j, k :: 0 <= j < k < |e.written| ==> e.written[j].0 == e.written[k].0
  {
    RunInv(states, steps, i);
  }

  /** A connected end stays on its connection for the rest of the run. */
  lemma {:induction false} ConnectedStays(states: seq<World>, steps: seq<Step>, i: nat, j: nat, x: Side)
    requires IsRun(states, steps) && i <= j < |states| && At(states[i], x).state.Connected?
    ensures At(states[j], x).state == At(states[i], x).state
  {
    if i < j {
      ConnectedStays(states, steps, i, j - 1, x);
      assert Enabled(states[j - 1], steps[j - 1]);
    }
  }

  predicate Moves(step: Step) {
    step.CompleteConnect? || step.Accept? || step.RecvAck? || step.RecvEof?
  }

  /** Set-up never gets stuck: once anything has been started, some step of it is possible until both ends are connected. */
  lemma SetUpMoves(states: seq<World>, steps: seq<Step>, i: nat) returns (step: Step)
    requires IsRun(states, steps) && i < |states|
    requires states[i].conns != [] && !(states[i].low.state.Connected? && states[i].high.state.Connected?)
    ensures Moves(step) && Enabled(states[i], step)
  {
    RunInv(states, steps, i);
    var w := states[i];
    match w.low.state {
      case Closed =>
        step := if w.high.state.Connecting? then CompleteConnect(High) else Accept(Low, 0);
      case Connecting(c) =>
        step := CompleteConnect(Low);
      case ConnectAck(c) =>
        step := if w.conns[c].verdict.Unseen? then Accept(High, c) else RecvAck(Low);
      case Connected(c) =>
        step := RecvAck(High);
    }
  }

  // ---------------------------------------------------------------------------------------
  // Set-up ends

  function Seen(c: Conn): nat {
    (if c.named then 1 else 0) + if c.verdict.Unseen? then 0 else 1
  }

  function SeenAll(conns: seq<Conn>): nat {
    if conns == [] then 0 else SeenAll(conns[..|conns| - 1]) + Seen(conns[|conns| - 1])
  }

  function Waiting(e: End): int {
    if e.state.Connecting? || e.state.ConnectAck? then 1 else 0
  }

  /** Identifiers sent, verdicts given, and connections whose starter waits no longer. */
  function Progress(w: World): int {
    SeenAll(w.conns) + |w.conns| - Waiting(w.low) - Waiting(w.high)
  }

  lemma {:induction false} SeenUpdate(conns: seq<Conn>, i: nat, c: Conn)
    requires i < |conns|
    ensures SeenAll(conns[i := c]) == SeenAll(conns) - Seen(conns[i]) + Seen(c)
  {
    var n := |conns| - 1;
    if i < n {
      SeenUpdate(conns[..n], i, c);
      assert conns[i := c][..n] == conns[..n][i := c];
    } else {
      assert conns[i := c][..n] == conns[..n];
    }
  }

  lemma {:induction false} SeenBounded(conns: seq<Conn>)
    ensures SeenAll(conns) <= 2 * |conns|
  {
    if conns != [] {
      SeenBounded(conns[..|conns| - 1]);
    }
  }

  function Count(steps: seq<Step>, moving: bool): nat {
    if steps == [] then 0
    else
      var last := steps[|steps| - 1];
      Count(steps[..|steps| - 1], moving) + if (moving && Moves(last)) || (!moving && last.Send?) then 1 else 0
  }

  lemma StepProgress(w: World, step: Step)
    requires OwnConn(w, Low) && OwnConn(w, High) && Enabled(w, step)
    ensures var w' := Apply(w, step);
            && Progress(w') >= Progress(w) + (if Moves(step) then 1 else 0)
            && |w'.conns| <= |w.conns| + (if step.Send? then 1 else 0)
  {
    hide SeenAll, LinkInv, QueueInv;
    match step
    case Send(x, f, inProgress) =>
      SeenMore(w.conns, Conn(x, !inProgress, Unseen));
    case CompleteConnect(x) =>
      SeenUpdate(w.conns, At(w, x).state.c, w.conns[At(w, x).state.c].(named := true));
    case Accept(x, c) =>
      SeenUpdate(w.conns, c, w.conns[c].(verdict := if Takes(w, x) then Accepted else Rejected));
    case RecvAck(x) =>
    case RecvEof(x) =>
    case WriteFrag(x) =>
  }

  lemma SeenMore(conns: seq<Conn>, c: Conn)
    ensures SeenAll(conns + [c]) == SeenAll(conns) + Seen(c)
  {
    assert (conns + [c])[..|conns|] == conns;
  }

  lemma {:induction false} MovesWithinProgress(states: seq<World>, steps: seq<Step>, i: nat)
    requires IsRun(states, steps) && i < |states|
    ensures Count(steps[..i], true) <= Progress(states[i]) && |states[i].conns| <= Count(steps[..i], false)
  {
    if i > 0 {
      MovesWithinProgress(states, steps, i - 1);
      assert steps[..i][..i - 1] == steps[..i - 1];
      RunInv(states, steps, i - 1);
      assert Enabled(states[i - 1], steps[i - 1]);
      StepProgress(states[i - 1], steps[i - 1]);
    }
  }

  /** In every run, set-up takes at most three steps per send. */
  lemma SetUpEnds(states: seq<World>, steps: seq<Step>)
    requires IsRun(states, steps)
    ensures Count(steps, true) <= 3 * Count(steps, false)
  {
    var n := |steps|;
    assert steps[..n] == steps;
    MovesWithinProgress(states, steps, n);
    SeenBounded(states[n].conns);
  }
}
