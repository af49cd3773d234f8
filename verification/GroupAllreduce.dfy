/**
 ompi_comm_allreduce_group (ompi/communicator/comm_cid.c:1451-1521): a reduction up and a
 broadcast down the binary tree in which the children of rank r are 2r+1 and 2r+2.

 Any number of ranks make any number of calls one after the other, all with the same tag.
 Messages between two ranks arrive in the order sent. A send returns once at most `window`
 messages of its channel are unread, so window 0 is a synchronous send.
 */
module TreeFold {
  import opened Common

  /** An associative and commutative reduction operator. */
  ghost predicate Reduction<V(!new)>(op: (V, V) -> V) {
    && (forall x, y :: op(x, y) == op(y, x))
    && (forall x, y, z :: op(op(x, y), z) == op(x, op(y, z)))
  }

  /** The reduction of all inputs in rank order. */
  function Fold<V>(op: (V, V) -> V, xs: seq<V>): V
    requires xs != []
  {
    if |xs| == 1 then xs[0] else op(Fold(op, xs[..|xs| - 1]), xs[|xs| - 1])
  }

  function Left(r: nat): nat { 2 * r + 1 }

  function Right(r: nat): nat { 2 * r + 2 }

  function Parent(r: nat): nat
    requires r > 0
  {
    (r - 1) / 2
  }

  /** What rank r sends to its parent: its own input, reduced with what its children send. */
  function Total<V>(op: (V, V) -> V, xs: seq<V>, r: nat): V
    requires r < |xs|
    decreases |xs| - r
  {
    var own := xs[r];
    var half := if Left(r) < |xs| then op(Total(op, xs, Left(r)), own) else own;
    if Right(r) < |xs| then op(Total(op, xs, Right(r)), half) else half
  }

  lemma FoldLast<V>(op: (V, V) -> V, xs: seq<V>, y: V)
    requires xs != []
    ensures Fold(op, xs + [y]) == op(Fold(op, xs), y)
  {
    assert (xs + [y])[..|xs|] == xs;
  }

  lemma Regroup<V(!new)>(op: (V, V) -> V, x: V, y: V, z: V)
    requires Reduction(op)
    ensures op(op(x, y), z) == op(x, op(y, z)) == op(op(x, z), y)
  {
    assert op(y, z) == op(z, y);
  }

  /** Moving the last input into any other one does not change the reduction. */
  lemma {:induction false} FoldAbsorb<V(!new)>(op: (V, V) -> V, xs: seq<V>, y: V, p: nat)
    requires Reduction(op) && p < |xs|
    ensures Fold(op, xs + [y]) == Fold(op, xs[p := op(xs[p], y)])
  {
    hide Reduction;
    var n := |xs| - 1;
    var init, last, merged := xs[..n], xs[n], xs[p := op(xs[p], y)];
    assert xs == init + [last];
    FoldLast(op, xs, y);
    if p < n {
      FoldAbsorb(op, init, y, p);
      assert merged == init[p := op(init[p], y)] + [last];
      FoldLast(op, init, y);
      FoldLast(op, init, last);
      FoldLast(op, init[p := op(init[p], y)], last);
      Regroup(op, Fold(op, init), last, y);
    } else if n > 0 {
      assert merged == init + [op(last, y)];
      FoldLast(op, init, last);
      FoldLast(op, init, op(last, y));
      Regroup(op, Fold(op, init), last, y);
    }
  }

  /** Neither does it change what the tree computes, if the last rank is absorbed by its parent. */
  lemma {:induction false} TotalAbsorb<V(!new)>(op: (V, V) -> V, xs: seq<V>, y: V, r: nat)
    requires Reduction(op) && r < |xs|
    ensures Total(op, xs + [y], r) == Total(op, xs[Parent(|xs|) := op(xs[Parent(|xs|)], y)], r)
    decreases |xs| - r
  {
    var n, p := |xs|, Parent(|xs|);
    if Left(r) < n {
      TotalAbsorb(op, xs, y, Left(r));
    }
    if Right(r) < n {
      TotalAbsorb(op, xs, y, Right(r));
    }
    if r == p {
      assert Total(op, xs + [y], n) == y;
      if Right(r) == n {
        var l := Total(op, xs + [y], Left(r));
        assert op(y, op(l, xs[r])) == op(op(l, xs[r]), y) == op(l, op(xs[r], y));
      } else {
        assert op(y, xs[r]) == op(xs[r], y);
      }
    }
  }

  /** The tree computes the reduction of all inputs, for any number of ranks. */
  lemma {:induction false} TotalIsFold<V(!new)>(op: (V, V) -> V, xs: seq<V>)
    requires Reduction(op) && xs != []
    ensures Total(op, xs, 0) == Fold(op, xs)
    decreases |xs|
  {
    if |xs| > 1 {
      var n := |xs| - 1;
      var init, y := xs[..n], xs[n];
      assert xs == init + [y];
      var merged := init[Parent(n) := op(init[Parent(n)], y)];
      TotalAbsorb(op, init, y, 0);
      FoldAbsorb(op, init, y, Parent(n));
      TotalIsFold(op, merged);
    }
  }

  lemma {:induction false} MaxFold(xs: seq<int>)
    requires xs != []
    ensures Fold(Max, xs) in xs && forall x :: x in xs ==> x <= Fold(Max, xs)
  {
    var n := |xs| - 1;
    if n > 0 {
      var init := xs[..n];
      MaxFold(init);
      assert forall x :: x in xs ==> x in init || x == xs[n];
      assert Fold(Max, xs) == Max(Fold(Max, init), xs[n]);
    }
  }

  lemma {:induction false} MinFold(xs: seq<int>)
    requires xs != []
    ensures Fold(Min, xs) in xs && forall x :: x in xs ==> Fold(Min, xs) <= x
  {
    var n := |xs| - 1;
    if n > 0 {
      var init := xs[..n];
      MinFold(init);
      assert forall x :: x in xs ==> x in init || x == xs[n];
      assert Fold(Min, xs) == Min(Fold(Min, init), xs[n]);
    }
  }

  /** Both operators that context-id allocation uses reduce along the tree, to the largest and the least input. */
  lemma TreeExtremes(xs: seq<int>)
    requires xs != []
    ensures Total(Max, xs, 0) in xs && forall x :: x in xs ==> x <= Total(Max, xs, 0)
    ensures Total(Min, xs, 0) in xs && forall x :: x in xs ==> Total(Min, xs, 0) <= x
  {
    TotalIsFold(Max, xs);
    TotalIsFold(Min, xs);
    MaxFold(xs);
    MinFold(xs);
  }
}

module GroupAllreduce {
  import opened TreeFold

  type Value(!new, ==)

  /** Where a rank stands within one call. */
  datatype Pc = RecvLeft | RecvRight | SendUp | WaitUp | RecvDown | SendLeft | WaitLeft | SendRight | WaitRight

  /** calls finished, position, outbuf, and the results of the finished calls. */
  datatype Rank = Rank(call: nat, pc: Pc, buf: Value, results: seq<Value>)

  /** inputs[k][r] is what rank r passes to call k. */
  datatype Config = Config(size: nat, window: nat, op: (Value, Value) -> Value, inputs: seq<seq<Value>>)

  /** up[c] and down[c] hold the unread messages between rank c and its parent. */
  datatype State = State(ranks: seq<Rank>, up: seq<seq<Value>>, down: seq<seq<Value>>)

  ghost predicate Proper(cfg: Config) {
    && cfg.size > 0 && Reduction(cfg.op)
    && forall k :: 0 <= k < |cfg.inputs| ==> |cfg.inputs[k]| == cfg.size
  }

  predicate Sized(cfg: Config, s: State) {
    |s.ranks| == |s.up| == |s.down| == cfg.size
  }

  predicate Present(cfg: Config, c: nat) {
    c < cfg.size
  }

  /** The input of rank r to its current call; arbitrary once all calls are made. */
  function Input(cfg: Config, k: nat, r: nat, otherwise: Value): Value {
    if k < |cfg.inputs| && r < |cfg.inputs[k]| then cfg.inputs[k][r] else otherwise
  }

  predicate Enabled(cfg: Config, s: State, r: nat)
    requires Sized(cfg, s)
  {
    && r < cfg.size && s.ranks[r].call < |cfg.inputs|
    && match s.ranks[r].pc {
         case RecvLeft => Present(cfg, Left(r)) ==> s.up[Left(r)] != []
         case RecvRight => Present(cfg, Right(r)) ==> s.up[Right(r)] != []
         case SendUp => true
         case WaitUp => r > 0 ==> |s.up[r]| <= cfg.window
         case RecvDown => r > 0 ==> s.down[r] != []
         case SendLeft => true
         case WaitLeft => Present(cfg, Left(r)) ==> |s.down[Left(r)]| <= cfg.window
         case SendRight => true
         case WaitRight => Present(cfg, Right(r)) ==> |s.down[Right(r)]| <= cfg.window
       }
  }

  function MoveTo(s: State, r: nat, pc: Pc): State
    requires r < |s.ranks|
  {
    s.(ranks := s.ranks[r := s.ranks[r].(pc := pc)])
  }

  /** Reduces the oldest message of child c into the buffer. */
  function Reduce(cfg: Config, s: State, r: nat, c: nat, pc: Pc): State
    requires Sized(cfg, s) && r < cfg.size && (Present(cfg, c) ==> s.up[c] != [])
  {
    if !Present(cfg, c) then MoveTo(s, r, pc)
    else s.(ranks := s.ranks[r := s.ranks[r].(pc := pc, buf := cfg.op(s.up[c][0], s.ranks[r].buf))],
            up := s.up[c := s.up[c][1..]])
  }

  function Forward(cfg: Config, s: State, r: nat, c: nat, pc: Pc): State
    requires Sized(cfg, s) && r < cfg.size
  {
    if !Present(cfg, c) then MoveTo(s, r, pc)
    else MoveTo(s, r, pc).(down := s.down[c := s.down[c] + [s.ranks[r].buf]])
  }

  /** The call returns and the next one starts. */
  function Return(cfg: Config, l: Rank, r: nat): Rank {
    Rank(l.call + 1, RecvLeft, Input(cfg, l.call + 1, r, l.buf), l.results + [l.buf])
  }

  function Step(cfg: Config, s: State, r: nat): State
    requires Sized(cfg, s) && Enabled(cfg, s, r)
  {
    var l := s.ranks[r];
    match l.pc
    case RecvLeft => Reduce(cfg, s, r, Left(r), RecvRight)
    case RecvRight => Reduce(cfg, s, r, Right(r), SendUp)
    case SendUp => if r == 0 then MoveTo(s, r, WaitUp) else MoveTo(s, r, WaitUp).(up := s.up[r := s.up[r] + [l.buf]])
    case WaitUp => MoveTo(s, r, RecvDown)
    case RecvDown =>
      if r == 0 then MoveTo(s, r, SendLeft)
      else s.(ranks := s.ranks[r := l.(pc := SendLeft, buf := s.down[r][0])], down := s.down[r := s.down[r][1..]])
    case SendLeft => Forward(cfg, s, r, Left(r), WaitLeft)
    case WaitLeft => MoveTo(s, r, SendRight)
    case SendRight => Forward(cfg, s, r, Right(r), WaitRight)
    case WaitRight => s.(ranks := s.ranks[r := Return(cfg, l, r)])
  }

  ghost predicate Init(cfg: Config, s: State) {
    && Sized(cfg, s)
    && forall r :: 0 <= r < cfg.size ==>
         && s.up[r] == [] && s.down[r] == []
         && s.ranks[r].call == 0 && s.ranks[r].pc == RecvLeft && s.ranks[r].results == []
         && (cfg.inputs != [] ==> s.ranks[r].buf == Input(cfg, 0, r, s.ranks[r].buf))
  }

  /** A schedule: which rank moves next, each time one that can. */
  ghost predicate IsRun(cfg: Config, states: seq<State>, schedule: seq<nat>) {
    && |states| == |schedule| + 1 && (forall i :: 0 <= i < |states| ==> Sized(cfg, states[i]))
    && forall i :: 0 <= i < |schedule| ==> Enabled(cfg, states[i], schedule[i]) && states[i + 1] == Step(cfg, states[i], schedule[i])
  }

  // ---------------------------------------------------------------------------------------
  // How many messages each rank has sent and received

  function Index(pc: Pc): nat {
    match pc
    case RecvLeft => 0 case RecvRight => 1 case SendUp => 2 case WaitUp => 3 case RecvDown => 4
    case SendLeft => 5 case WaitLeft => 6 case SendRight => 7 case WaitRight => 8
  }

  function CountAfter(l: Rank, pc: Pc): nat {
    l.call + if Index(l.pc) > Index(pc) then 1 else 0
  }

  function SentUp(s: State, c: nat): nat
    requires c < |s.ranks|
  {
    CountAfter(s.ranks[c], SendUp)
  }

  function ReadDown(s: State, c: nat): nat
    requires c < |s.ranks|
  {
    CountAfter(s.ranks[c], RecvDown)
  }

  function ReadUp(s: State, c: nat): nat
    requires 0 < c < |s.ranks|
  {
    CountAfter(s.ranks[Parent(c)], if c == Left(Parent(c)) then RecvLeft else RecvRight)
  }

  function SentDown(s: State, c: nat): nat
    requires 0 < c < |s.ranks|
  {
    CountAfter(s.ranks[Parent(c)], if c == Left(Parent(c)) then SendLeft else SendRight)
  }

  /** The part of the call of rank r that is held in its buffer. */
  function Expected(cfg: Config, r: nat, l: Rank): Value
    requires l.call < |cfg.inputs| && r < |cfg.inputs[l.call]|
  {
    var xs := cfg.inputs[l.call];
    match l.pc
    case RecvLeft => xs[r]
    case RecvRight => if Left(r) < |xs| then cfg.op(Total(cfg.op, xs, Left(r)), xs[r]) else xs[r]
    case SendUp => Total(cfg.op, xs, r)
    case WaitUp => Total(cfg.op, xs, r)
    case RecvDown => Total(cfg.op, xs, r)
    case _ => Total(cfg.op, xs, 0)
  }

  /** The unread messages are the contributions of the calls read next, in order. */
  ghost predicate Carries(cfg: Config, channel: seq<Value>, first: nat, next: nat, origin: nat) {
    && origin < cfg.size && first + |channel| == next <= |cfg.inputs|
    && (forall k :: 0 <= k < |cfg.inputs| ==> |cfg.inputs[k]| == cfg.size)
    && forall i :: 0 <= i < |channel| ==> channel[i] == Total(cfg.op, cfg.inputs[first + i], origin)
  }

  ghost predicate EdgeInv(cfg: Config, s: State, c: nat)
    requires Sized(cfg, s) && 0 < c < cfg.size
  {
    Carries(cfg, s.up[c], ReadUp(s, c), SentUp(s, c), c) && Carries(cfg, s.down[c], ReadDown(s, c), SentDown(s, c), 0)
  }

  ghost predicate RankInv(cfg: Config, s: State, r: nat)
    requires Proper(cfg) && Sized(cfg, s) && r < cfg.size
  {
    var l := s.ranks[r];
    && l.call <= |cfg.inputs| && (l.call == |cfg.inputs| ==> l.pc == RecvLeft)
    && (l.call < |cfg.inputs| ==> l.buf == Expected(cfg, r, l))
    && |l.results| == l.call && forall k :: 0 <= k < l.call ==> l.results[k] == Total(cfg.op, cfg.inputs[k], 0)
  }

  ghost predicate Inv(cfg: Config, s: State)
    requires Proper(cfg)
  {
    && Sized(cfg, s)
    && (forall r :: 0 <= r < cfg.size ==> RankInv(cfg, s, r))
    && (forall c :: 0 < c < cfg.size ==> EdgeInv(cfg, s, c))
  }

  lemma InitInv(cfg: Config, s: State)
    requires Proper(cfg) && Init(cfg, s)
    ensures Inv(cfg, s)
  {
  }

  lemma CarriesRead(cfg: Config, channel: seq<Value>, first: nat, next: nat, origin: nat)
    requires Carries(cfg, channel, first, next, origin) && channel != []
    ensures first < |cfg.inputs| && origin < |cfg.inputs[first]| && channel[0] == Total(cfg.op, cfg.inputs[first], origin)
    ensures Carries(cfg, channel[1..], first + 1, next, origin)
  {
    hide Total;
    forall i | 0 <= i < |channel| - 1 ensures channel[1..][i] == Total(cfg.op, cfg.inputs[first + 1 + i], origin) {
      assert channel[1..][i] == channel[1 + i];
    }
  }

  lemma CarriesSent(cfg: Config, channel: seq<Value>, first: nat, next: nat, origin: nat, v: Value)
    requires Carries(cfg, channel, first, next, origin) && next < |cfg.inputs|
    requires |cfg.inputs[next]| == cfg.size && v == Total(cfg.op, cfg.inputs[next], origin)
    ensures Carries(cfg, channel + [v], first, next + 1, origin)
  {
    hide Total;
  }

  lemma TotalParts(op: (Value, Value) -> Value, xs: seq<Value>, r: nat)
    requires r < |xs|
    ensures Total(op, xs, r) ==
            var half := if Left(r) < |xs| then op(Total(op, xs, Left(r)), xs[r]) else xs[r];
            if Right(r) < |xs| then op(Total(op, xs, Right(r)), half) else half
  {
  }

  /** The rank that moves keeps its own part of the invariant. */
  lemma StepRank(cfg: Config, s: State, r: nat)
    requires Proper(cfg) && Inv(cfg, s) && Enabled(cfg, s, r)
    ensures RankInv(cfg, Step(cfg, s, r), r)
  {
    hide Reduction, Fold, Carries, Total, Left, Right, Parent;
    var l := s.ranks[r];
    Children(r);
    assert RankInv(cfg, s, r);
    TotalParts(cfg.op, cfg.inputs[l.call], r);
    if l.pc == RecvLeft && Present(cfg, Left(r)) {
      assert EdgeInv(cfg, s, Left(r));
      CarriesRead(cfg, s.up[Left(r)], l.call, SentUp(s, Left(r)), Left(r));
    } else if l.pc == RecvRight && Present(cfg, Right(r)) {
      assert EdgeInv(cfg, s, Right(r));
      CarriesRead(cfg, s.up[Right(r)], l.call, SentUp(s, Right(r)), Right(r));
    } else if l.pc == RecvDown && r > 0 {
      assert EdgeInv(cfg, s, r);
      CarriesRead(cfg, s.down[r], l.call, SentDown(s, r), 0);
    }
  }

  lemma Children(r: nat)
    ensures Left(r) > 0 && Right(r) > 0 && Parent(Left(r)) == r && Parent(Right(r)) == r && Left(r) != Right(r)
  {
  }

  lemma Kin(r: nat, c: nat)
    requires c > 0
    ensures r == Parent(c) <==> c == Left(r) || c == Right(r)
    ensures Left(r) != Right(r) && Parent(c) < c && r < Left(r) && r < Right(r)
  {
  }

  /** What a step does to the channel up from rank c: whether it sends there, or reads from it. */
  lemma UpChannel(cfg: Config, s: State, r: nat, c: nat)
    requires Sized(cfg, s) && Enabled(cfg, s, r) && 0 < c < cfg.size
    ensures var s', l := Step(cfg, s, r), s.ranks[r];
            && Sized(cfg, s') && (TakesUp(s, r, c) ==> s.up[c] != [])
            && s'.up[c] == if GivesUp(s, r, c) then s.up[c] + [l.buf] else if TakesUp(s, r, c) then s.up[c][1..] else s.up[c]
  {
    hide Left, Right, Parent;
    Kin(r, c);
  }

  predicate GivesUp(s: State, r: nat, c: nat)
    requires r < |s.ranks|
  {
    r == c && s.ranks[r].pc == SendUp
  }

  predicate TakesUp(s: State, r: nat, c: nat)
    requires r < |s.ranks| && c > 0
  {
    r == Parent(c) && s.ranks[r].pc == if c == Left(r) then RecvLeft else RecvRight
  }

  /** and to the counts of its two ends. */
  lemma UpCounts(cfg: Config, s: State, r: nat, c: nat)
    requires Sized(cfg, s) && Enabled(cfg, s, r) && 0 < c < cfg.size
    ensures var s' := Step(cfg, s, r);
            && Sized(cfg, s') && !(GivesUp(s, r, c) && TakesUp(s, r, c))
            && ReadUp(s', c) == ReadUp(s, c) + (if TakesUp(s, r, c) then 1 else 0)
            && SentUp(s', c) == SentUp(s, c) + (if GivesUp(s, r, c) then 1 else 0)
  {
    hide Left, Right, Parent, Step, Enabled;
    Kin(r, c);
    StepRanks(cfg, s, r);
  }

  /** A step moves the rank that takes it one position on, or to the next call. */
  lemma StepRanks(cfg: Config, s: State, r: nat)
    requires Sized(cfg, s) && Enabled(cfg, s, r)
    ensures var s', l := Step(cfg, s, r), s.ranks[r];
            && Sized(cfg, s') && (forall q :: 0 <= q < cfg.size && q != r ==> s'.ranks[q] == s.ranks[q])
            && (l.pc != WaitRight ==> s'.ranks[r].call == l.call && Index(s'.ranks[r].pc) == Index(l.pc) + 1)
            && (l.pc == WaitRight ==> s'.ranks[r].call == l.call + 1 && s'.ranks[r].pc == RecvLeft)
  {
  }

  lemma DownChannel(cfg: Config, s: State, r: nat, c: nat)
    requires Sized(cfg, s) && Enabled(cfg, s, r) && 0 < c < cfg.size
    ensures var s', l := Step(cfg, s, r), s.ranks[r];
            && Sized(cfg, s') && (TakesDown(s, r, c) ==> s.down[c] != [])
            && s'.down[c] == if GivesDown(s, r, c) then s.down[c] + [l.buf] else if TakesDown(s, r, c) then s.down[c][1..] else s.down[c]
  {
    hide Left, Right, Parent;
    Kin(r, c);
  }

  predicate TakesDown(s: State, r: nat, c: nat)
    requires r < |s.ranks|
  {
    r == c && s.ranks[r].pc == RecvDown
  }

  predicate GivesDown(s: State, r: nat, c: nat)
    requires r < |s.ranks| && c > 0
  {
    r == Parent(c) && s.ranks[r].pc == if c == Left(r) then SendLeft else SendRight
  }

  lemma DownCounts(cfg: Config, s: State, r: nat, c: nat)
    requires Sized(cfg, s) && Enabled(cfg, s, r) && 0 < c < cfg.size
    ensures var s' := Step(cfg, s, r);
            && Sized(cfg, s') && !(GivesDown(s, r, c) && TakesDown(s, r, c))
            && ReadDown(s', c) == ReadDown(s, c) + (if TakesDown(s, r, c) then 1 else 0)
            && SentDown(s', c) == SentDown(s, c) + (if GivesDown(s, r, c) then 1 else 0)
  {
    hide Left, Right, Parent, Step, Enabled;
    Kin(r, c);
    StepRanks(cfg, s, r);
  }

  /** So do the messages on their way up, */
  lemma StepUp(cfg: Config, s: State, r: nat, c: nat)
    requires Proper(cfg) && Inv(cfg, s) && Enabled(cfg, s, r) && 0 < c < cfg.size
    ensures var s' := Step(cfg, s, r); Carries(cfg, s'.up[c], ReadUp(s', c), SentUp(s', c), c)
  {
    hide Reduction, Fold, Total, Carries, Left, Right, Parent, Step;
    var l := s.ranks[r];
    UpChannel(cfg, s, r, c);
    UpCounts(cfg, s, r, c);
    assert RankInv(cfg, s, r) && EdgeInv(cfg, s, c);
    if GivesUp(s, r, c) {
      CarriesSent(cfg, s.up[c], ReadUp(s, c), SentUp(s, c), c, l.buf);
    } else if TakesUp(s, r, c) {
      CarriesRead(cfg, s.up[c], ReadUp(s, c), SentUp(s, c), c);
    }
  }

  /** and the messages on their way down. */
  lemma StepDown(cfg: Config, s: State, r: nat, c: nat)
    requires Proper(cfg) && Inv(cfg, s) && Enabled(cfg, s, r) && 0 < c < cfg.size
    ensures var s' := Step(cfg, s, r); Carries(cfg, s'.down[c], ReadDown(s', c), SentDown(s', c), 0)
  {
    hide Reduction, Fold, Total, Carries, Left, Right, Parent, Step;
    var l := s.ranks[r];
    DownChannel(cfg, s, r, c);
    DownCounts(cfg, s, r, c);
    assert RankInv(cfg, s, r) && EdgeInv(cfg, s, c);
    if TakesDown(s, r, c) {
      CarriesRead(cfg, s.down[c], ReadDown(s, c), SentDown(s, c), 0);
    } else if GivesDown(s, r, c) {
      CarriesSent(cfg, s.down[c], ReadDown(s, c), SentDown(s, c), 0, l.buf);
    }
  }

  lemma StepInv(cfg: Config, s: State, r: nat)
    requires Proper(cfg) && Inv(cfg, s) && Enabled(cfg, s, r)
    ensures Inv(cfg, Step(cfg, s, r))
  {
    var s' := Step(cfg, s, r);
    forall q | 0 <= q < cfg.size ensures RankInv(cfg, s', q) {
      if q == r {
        StepRank(cfg, s, r);
      } else {
        assert RankInv(cfg, s, q) && s'.ranks[q] == s.ranks[q];
      }
    }
    forall c | 0 < c < cfg.size ensures EdgeInv(cfg, s', c) {
      StepUp(cfg, s, r, c);
      StepDown(cfg, s, r, c);
    }
  }

  lemma {:induction false} RunInv(cfg: Config, states: seq<State>, schedule: seq<nat>, i: nat)
    requires Proper(cfg) && IsRun(cfg, states, schedule) && Init(cfg, states[0]) && i < |states|
    ensures Inv(cfg, states[i])
  {
    if i == 0 {
      InitInv(cfg, states[0]);
    } else {
      RunInv(cfg, states, schedule, i - 1);
      assert Enabled(cfg, states[i - 1], schedule[i - 1]);
      StepInv(cfg, states[i - 1], schedule[i - 1]);
    }
  }

  // ---------------------------------------------------------------------------------------
  // What every schedule guarantees

  /** Whenever a rank has finished a call, its result is the reduction of the inputs of that very call. */
  lemma EveryResultIsTheFold(cfg: Config, states: seq<State>, schedule: seq<nat>, i: nat, r: nat, k: nat)
    requires Proper(cfg) && IsRun(cfg, states, schedule) && Init(cfg, states[0])
    requires i < |states| && r < cfg.size && k < states[i].ranks[r].call
    ensures |states[i].ranks[r].results| == states[i].ranks[r].call && k < |cfg.inputs| && |cfg.inputs[k]| == cfg.size
    ensures states[i].ranks[r].results[k] == Fold(cfg.op, cfg.inputs[k])
  {
    RunInv(cfg, states, schedule, i);
    assert RankInv(cfg, states[i], r);
    TotalIsFold(cfg.op, cfg.inputs[k]);
  }

  /** Each tree edge carries at most one message at any time, in one direction, even across calls. */
  lemma OneMessagePerEdge(cfg: Config, states: seq<State>, schedule: seq<nat>, i: nat, c: nat)
    requires Proper(cfg) && IsRun(cfg, states, schedule) && Init(cfg, states[0]) && i < |states| && 0 < c < cfg.size
    ensures |states[i].up[c]| + |states[i].down[c]| <= 1
  {
    RunInv(cfg, states, schedule, i);
    assert EdgeInv(cfg, states[i], c);
  }

  ghost predicate Unfinished(cfg: Config, s: State, r: nat)
    requires Sized(cfg, s)
  {
    r < cfg.size && s.ranks[r].call < |cfg.inputs|
  }

  ghost predicate SomeStep(cfg: Config, s: State)
    requires Sized(cfg, s)
  {
    exists r :: 0 <= r < cfg.size && Enabled(cfg, s, r)
  }

  /** A rank that waits for a child to take the broadcast waits for one that can take it now. */
  lemma BroadcastMoves(cfg: Config, s: State, r: nat)
    requires Proper(cfg) && Inv(cfg, s) && Unfinished(cfg, s, r) && Index(s.ranks[r].pc) >= Index(SendLeft)
    ensures SomeStep(cfg, s)
  {
    hide Reduction, Total;
    if !Enabled(cfg, s, r) {
      var c := if s.ranks[r].pc == WaitLeft then Left(r) else Right(r);
      assert Parent(c) == r && EdgeInv(cfg, s, c) && RankInv(cfg, s, c);
      assert Enabled(cfg, s, c);
    }
  }

  /** A rank that waits for a child to send its part waits for a subtree in which someone can move. */
  lemma {:induction false} ReduceMoves(cfg: Config, s: State, r: nat)
    requires Proper(cfg) && Inv(cfg, s) && Unfinished(cfg, s, r) && Index(s.ranks[r].pc) <= Index(RecvRight)
    ensures SomeStep(cfg, s)
    decreases cfg.size - r
  {
    hide Reduction, Total;
    if !Enabled(cfg, s, r) {
      var c := if s.ranks[r].pc == RecvLeft then Left(r) else Right(r);
      assert Parent(c) == r && EdgeInv(cfg, s, c) && RankInv(cfg, s, c);
      if Index(s.ranks[c].pc) <= Index(RecvRight) {
        ReduceMoves(cfg, s, c);
      } else if Index(s.ranks[c].pc) >= Index(SendLeft) {
        BroadcastMoves(cfg, s, c);
      } else {
        assert Enabled(cfg, s, c);
      }
    }
  }

  /** As long as some rank has not finished all its calls, some rank can move, even with synchronous sends. */
  lemma {:induction false} UnfinishedMoves(cfg: Config, s: State, r: nat)
    requires Proper(cfg) && Inv(cfg, s) && Unfinished(cfg, s, r)
    ensures SomeStep(cfg, s)
    decreases r
  {
    hide Reduction, Total;
    if Index(s.ranks[r].pc) <= Index(RecvRight) {
      ReduceMoves(cfg, s, r);
    } else if Index(s.ranks[r].pc) >= Index(SendLeft) {
      BroadcastMoves(cfg, s, r);
    } else if !Enabled(cfg, s, r) {
      assert EdgeInv(cfg, s, r) && RankInv(cfg, s, Parent(r));
      UnfinishedMoves(cfg, s, Parent(r));
    }
  }

  // ---------------------------------------------------------------------------------------
  // Termination

  function Progress(l: Rank): nat {
    9 * l.call + Index(l.pc)
  }

  function TotalProgress(ranks: seq<Rank>): nat {
    if ranks == [] then 0 else TotalProgress(ranks[..|ranks| - 1]) + Progress(ranks[|ranks| - 1])
  }

  lemma {:induction false} ProgressUpdate(ranks: seq<Rank>, r: nat, l: Rank)
    requires r < |ranks|
    ensures TotalProgress(ranks[r := l]) == TotalProgress(ranks) - Progress(ranks[r]) + Progress(l)
  {
    var n := |ranks| - 1;
    if r < n {
      ProgressUpdate(ranks[..n], r, l);
      assert ranks[r := l][..n] == ranks[..n][r := l];
    } else {
      assert ranks[r := l][..n] == ranks[..n];
    }
  }

  lemma {:induction false} ProgressBounded(ranks: seq<Rank>, bound: nat)
    requires forall r :: 0 <= r < |ranks| ==> Progress(ranks[r]) <= bound
    ensures TotalProgress(ranks) <= |ranks| * bound
  {
    if ranks != [] {
      var n := |ranks| - 1;
      ProgressBounded(ranks[..n], bound);
      assert Progress(ranks[n]) <= bound;
      calc {
        |ranks| * bound;
        (n + 1) * bound;
        n * bound + bound;
      }
    }
  }

  lemma StepProgress(cfg: Config, s: State, r: nat)
    requires Sized(cfg, s) && Enabled(cfg, s, r)
    ensures TotalProgress(Step(cfg, s, r).ranks) == TotalProgress(s.ranks) + 1
  {
    ProgressUpdate(s.ranks, r, Step(cfg, s, r).ranks[r]);
    assert Step(cfg, s, r).ranks == s.ranks[r := Step(cfg, s, r).ranks[r]];
  }

  lemma {:induction false} RunLength(cfg: Config, states: seq<State>, schedule: seq<nat>, i: nat)
    requires IsRun(cfg, states, schedule) && Init(cfg, states[0]) && i < |states|
    ensures TotalProgress(states[i].ranks) == i
  {
    if i == 0 {
      ProgressBounded(states[0].ranks, 0);
    } else {
      RunLength(cfg, states, schedule, i - 1);
      assert Enabled(cfg, states[i - 1], schedule[i - 1]);
      StepProgress(cfg, states[i - 1], schedule[i - 1]);
    }
  }

  /** Every schedule has at most nine steps per rank and call. */
  lemma EveryScheduleEnds(cfg: Config, states: seq<State>, schedule: seq<nat>)
    requires Proper(cfg) && IsRun(cfg, states, schedule) && Init(cfg, states[0])
    ensures |schedule| <= cfg.size * (9 * |cfg.inputs|)
  {
    var s := states[|schedule|];
    RunInv(cfg, states, schedule, |schedule|);
    RunLength(cfg, states, schedule, |schedule|);
    forall r | 0 <= r < cfg.size ensures Progress(s.ranks[r]) <= 9 * |cfg.inputs| {
      assert RankInv(cfg, s, r);
    }
    ProgressBounded(s.ranks, 9 * |cfg.inputs|);
  }

  /**
   The allreduce as a whole: a schedule that cannot be continued has completed every call on
   every rank, each with the reduction of all inputs to that call.
   */
  lemma AllreduceCompletes(cfg: Config, states: seq<State>, schedule: seq<nat>, r: nat)
    requires Proper(cfg) && IsRun(cfg, states, schedule) && Init(cfg, states[0])
    requires !SomeStep(cfg, states[|schedule|]) && r < cfg.size
    ensures states[|schedule|].ranks[r].results == seq(|cfg.inputs|, k requires 0 <= k < |cfg.inputs| => Fold(cfg.op, cfg.inputs[k]))
  {
    var s := states[|schedule|];
    RunInv(cfg, states, schedule, |schedule|);
    assert RankInv(cfg, s, r);
    if Unfinished(cfg, s, r) {
      UnfinishedMoves(cfg, s, r);
    }
    forall k | 0 <= k < |cfg.inputs| ensures s.ranks[r].results[k] == Fold(cfg.op, cfg.inputs[k]) {
      EveryResultIsTheFold(cfg, states, schedule, |schedule|, r, k);
    }
  }
}
