/**
 A blocking context-id allocation when no id is free at all participants: the rounds are
 determined by the tables alone, and the tables decide whether all participants end with maxCid
 or some fail while the others wait for ever.
 */
module CidExhaustion {
  import opened CidProtocol
  import opened CidTheorems
  import opened CidQuiet

  /** What process p proposes from `start` on, in the original tables. */
  function Offer(cfg: Config, s0: State, p: nat, start: nat): nat {
    Candidate(TableOf(s0, p), start, cfg.maxCid)
  }

  /** v is the largest offer of the group. */
  ghost predicate IsTop(cfg: Config, s0: State, a: nat, start: nat, v: nat)
    requires a < |cfg.allocs|
  {
    && (forall p :: p in cfg.allocs[a].group ==> Offer(cfg, s0, p, start) <= v)
    && (exists p :: p in cfg.allocs[a].group && Offer(cfg, s0, p, start) == v)
  }

  lemma TopExists(cfg: Config, s0: State, a: nat, start: nat, g: set<nat>) returns (q: nat)
    requires g != {}
    ensures q in g && forall p :: p in g ==> Offer(cfg, s0, p, start) <= Offer(cfg, s0, q, start)
    decreases g
  {
    q :| q in g;
    if o :| o in g && o != q {
      assert o in g - {q};
      var p := TopExists(cfg, s0, a, start, g - {q});
      if Offer(cfg, s0, q, start) < Offer(cfg, s0, p, start) {
        q := p;
      }
    }
  }

  ghost predicate Group(cfg: Config, a: nat) {
    a < |cfg.allocs| && cfg.allocs[a].group != {} && cfg.allocs[a].mode.Blocking?
  }

  ghost function TopOffer(cfg: Config, s0: State, a: nat, start: nat): (v: nat)
    requires Group(cfg, a)
    ensures IsTop(cfg, s0, a, start, v)
  {
    assert exists v: nat :: IsTop(cfg, s0, a, start, v) by {
      var q := TopExists(cfg, s0, a, start, cfg.allocs[a].group);
      assert IsTop(cfg, s0, a, start, Offer(cfg, s0, q, start));
    }
    var v: nat :| IsTop(cfg, s0, a, start, v);
    v
  }

  /** Where round r starts to look, as long as every round before it was rejected. */
  ghost function RoundStart(cfg: Config, s0: State, a: nat, r: nat): nat
    requires Group(cfg, a)
  {
    if r == 0 then 0 else TopOffer(cfg, s0, a, RoundStart(cfg, s0, a, r - 1)) + 1
  }

  /** Some participant has no free id from `start` on; every participant has none. */
  ghost predicate SomeOut(cfg: Config, s0: State, a: nat, start: nat)
    requires a < |cfg.allocs|
  {
    exists p :: p in cfg.allocs[a].group && Offer(cfg, s0, p, start) == cfg.maxCid
  }

  ghost predicate AllOut(cfg: Config, s0: State, a: nat, start: nat)
    requires a < |cfg.allocs|
  {
    forall p :: p in cfg.allocs[a].group ==> Offer(cfg, s0, p, start) == cfg.maxCid
  }

  lemma TopRises(cfg: Config, s0: State, a: nat, start: nat)
    requires Group(cfg, a) && !SomeOut(cfg, s0, a, start)
    ensures start <= TopOffer(cfg, s0, a, start) < cfg.maxCid
  {
    var v := TopOffer(cfg, s0, a, start);
    var p :| p in cfg.allocs[a].group && Offer(cfg, s0, p, start) == v;
  }

  /** Going up from the largest offer each time, all participants run out at once. */
  ghost predicate Together(cfg: Config, s0: State, a: nat, start: nat)
    requires Group(cfg, a)
    decreases cfg.maxCid - start
  {
    AllOut(cfg, s0, a, start) ||
    (!SomeOut(cfg, s0, a, start) && (TopRises(cfg, s0, a, start); Together(cfg, s0, a, TopOffer(cfg, s0, a, start) + 1)))
  }

  /** A blocking allocation of two processes. */
  function Pair(maxCid: nat): Config {
    Config(maxCid, [Alloc({0, 1}, 0, Blocking)])
  }

  lemma PairTop(cfg: Config, s0: State, start: nat)
    requires cfg == Pair(cfg.maxCid)
    ensures var x, y := Offer(cfg, s0, 0, start), Offer(cfg, s0, 1, start);
            && TopOffer(cfg, s0, 0, start) == (if x < y then y else x)
            && (SomeOut(cfg, s0, 0, start) <==> x == cfg.maxCid || y == cfg.maxCid)
            && (AllOut(cfg, s0, 0, start) <==> x == cfg.maxCid && y == cfg.maxCid)
  {
    assert IsTop(cfg, s0, 0, start, TopOffer(cfg, s0, 0, start));
    assert 0 in cfg.allocs[0].group && 1 in cfg.allocs[0].group;
  }

  /** Two rounds: both propose, with maximum v, and then the tables from v + 1 on decide. */
  lemma PairDecided(cfg: Config, s0: State, v: nat)
    requires cfg == Pair(cfg.maxCid) && Offer(cfg, s0, 0, 0) <= v == Offer(cfg, s0, 1, 0) < cfg.maxCid
    requires Offer(cfg, s0, 0, v + 1) == cfg.maxCid
    ensures Together(cfg, s0, 0, 0) <==> Offer(cfg, s0, 1, v + 1) == cfg.maxCid
  {
    hide Offer;
    PairTop(cfg, s0, 0);
    PairTop(cfg, s0, v + 1);
    assert Together(cfg, s0, 0, 0) <==> Together(cfg, s0, 0, v + 1);
  }

  predicate NotFirst(i: nat) {
    i != 0
  }

  /** Of n ids, process 0 has only id 0 free and process 1 all the others. */
  function Split(n: nat): State {
    State(map[0 := map i: nat | i < n && NotFirst(i) :: Live(0), 1 := map[0 := Live(0)]], map[], map[], map[])
  }

  /** With two ids they run out together, with more they do not, although each has a free id. */
  lemma TogetherOrApart(n: nat)
    requires n >= 2
    ensures Init(Split(n)) && NoCommonId(Pair(n), Split(n), 0)
    ensures Offer(Pair(n), Split(n), 0, 0) == 0 && Offer(Pair(n), Split(n), 1, 0) == 1
    ensures Together(Pair(n), Split(n), 0, 0) <==> n == 2
  {
    hide Together, Candidate;
    SplitFree(n);
    PairDecided(Pair(n), Split(n), 1);
    assert 0 in Pair(n).allocs[0].group && 1 in Pair(n).allocs[0].group;
  }

  lemma SplitFree(n: nat)
    requires n >= 2
    ensures Offer(Pair(n), Split(n), 0, 0) == 0 && Offer(Pair(n), Split(n), 1, 0) == 1
    ensures Offer(Pair(n), Split(n), 0, 2) == n && Offer(Pair(n), Split(n), 1, 2) == 2
  {
    hide Candidate;
    var c, d := Offer(Pair(n), Split(n), 0, 0), Offer(Pair(n), Split(n), 1, 0);
    var e, f := Offer(Pair(n), Split(n), 0, 2), Offer(Pair(n), Split(n), 1, 2);
    assert 0 !in TableOf(Split(n), 0) && 1 !in TableOf(Split(n), 1) && 2 !in TableOf(Split(n), 1);
  }

  // ---------------------------------------------------------------------------------------
  // The rounds follow the tables

  /** Contributions are the offers of the round, and nobody fails except against somebody who has run out. */
  ghost predicate RoundsInv(cfg: Config, s0: State, s: State, a: nat)
    requires Group(cfg, a)
  {
    && (forall r: nat, p :: Key(a, r, p) in s.maxIn ==> s.maxIn[Key(a, r, p)] == Offer(cfg, s0, p, RoundStart(cfg, s0, a, r)))
    && (forall p :: OnTrack(cfg, s0, s, a, p))
  }

  ghost predicate OnTrack(cfg: Config, s0: State, s: State, a: nat, p: nat)
    requires Group(cfg, a)
  {
    var l := LocalOf(s, p, a);
    && (l.phase.Top? ==> Offer(cfg, s0, p, l.phase.start) == Offer(cfg, s0, p, RoundStart(cfg, s0, a, l.round)))
    && (l.phase.Failed? ==> IsMax(cfg, s, a, l.round, cfg.maxCid) && Key(a, l.round, p) in s.maxIn && s.maxIn[Key(a, l.round, p)] < cfg.maxCid)
  }

  /** Taken ids at the start do not matter. */
  lemma {:induction false} OfferSkips(t: Table, start: nat, maxCid: nat, c: nat)
    requires c <= start && forall i :: c <= i < start ==> i in t
    ensures Candidate(t, c, maxCid) == Candidate(t, start, maxCid)
    decreases start - c
  {
    if c < start {
      OfferSkips(t, start, maxCid, c + 1);
    }
  }

  /** The maximum of a complete round is the largest offer. */
  lemma MaxIsTop(cfg: Config, s0: State, s: State, a: nat, r: nat, v: nat)
    requires Group(cfg, a) && RoundsInv(cfg, s0, s, a) && IsMax(cfg, s, a, r, v)
    ensures v == TopOffer(cfg, s0, a, RoundStart(cfg, s0, a, r))
  {
    hide Offer, OnTrack;
    var start := RoundStart(cfg, s0, a, r);
    var w := TopOffer(cfg, s0, a, start);
    var p :| p in cfg.allocs[a].group && Offer(cfg, s0, p, start) == w;
    var q :| q in cfg.allocs[a].group && s.maxIn[Key(a, r, q)] == v;
    assert s.maxIn[Key(a, r, p)] == w && Offer(cfg, s0, q, start) == v;
  }

  lemma {:induction false} RoundsRun(cfg: Config, states: seq<State>, steps: seq<Step>, a: nat, i: nat)
    requires Quiet(cfg, states, steps, a) && Group(cfg, a) && i < |states|
    ensures RoundsInv(cfg, states[0], states[i], a)
  {
    if i == 0 {
      QuietStart(cfg, states, steps, a);
    } else {
      RoundsRun(cfg, states, steps, a, i - 1);
      QuietRun(cfg, states, steps, a, i - 1);
      assert Enabled(cfg, states[i - 1], steps[i - 1]);
      RoundsStep(cfg, states[0], states[i - 1], steps[i - 1], a);
    }
  }

  lemma RoundsStep(cfg: Config, s0: State, s: State, step: Step, a: nat)
    requires Group(cfg, a) && QuietInv(cfg, s0, s, a) && RoundsInv(cfg, s0, s, a) && Enabled(cfg, s, step) && IsStepOf(step, a)
    ensures RoundsInv(cfg, s0, Apply(cfg, s, step), a)
  {
    hide Offer, RoundStart, Inv, TableIs, Verdict;
    var s' := Apply(cfg, s, step);
    forall r: nat, p | Key(a, r, p) in s'.maxIn ensures s'.maxIn[Key(a, r, p)] == Offer(cfg, s0, p, RoundStart(cfg, s0, a, r)) {
      if Key(a, r, p) !in s.maxIn || s'.maxIn[Key(a, r, p)] != s.maxIn[Key(a, r, p)] {
        ProposedOffer(cfg, s0, s, step, a, p);
      }
    }
    forall p ensures OnTrack(cfg, s0, s', a, p) {
      assert OnTrack(cfg, s0, s, a, p);
      TrackStep(cfg, s0, s, step, a, p);
    }
  }

  lemma ProposedOffer(cfg: Config, s0: State, s: State, step: Step, a: nat, p: nat)
    requires Group(cfg, a) && QuietInv(cfg, s0, s, a) && RoundsInv(cfg, s0, s, a) && Enabled(cfg, s, step) && step == Propose(p, a)
    ensures Candidate(TableOf(s, p), LocalOf(s, p, a).phase.start, cfg.maxCid) == Offer(cfg, s0, p, RoundStart(cfg, s0, a, LocalOf(s, p, a).round))
  {
    assert OnTrack(cfg, s0, s, a, p) && TableAt(cfg, s0, s, a, p);
  }

  lemma TrackStep(cfg: Config, s0: State, s: State, step: Step, a: nat, p: nat)
    requires Group(cfg, a) && QuietInv(cfg, s0, s, a) && RoundsInv(cfg, s0, s, a) && Enabled(cfg, s, step) && IsStepOf(step, a)
    requires OnTrack(cfg, s0, s, a, p)
    ensures OnTrack(cfg, s0, Apply(cfg, s, step), a, p)
  {
    hide RoundStart, TableIs, Verdict, OnTrack, Inv, Apply, Candidate;
    if step.proc != p {
      OtherTrack(cfg, s0, s, step, a, p);
    } else {
      match step {
        case Start(_, _, start) => StartTrack(cfg, s0, s, a, p, start);
        case Propose(_, _) => ProposeTrack(cfg, s0, s, a, p);
        case CompleteMax(_, _, next) => FailTrack(cfg, s0, s, a, p, next);
        case CompleteMin(_, _, accept) => RejectTrack(cfg, s0, s, a, p, accept);
      }
    }
  }

  lemma OtherTrack(cfg: Config, s0: State, s: State, step: Step, a: nat, p: nat)
    requires Group(cfg, a) && Inv(cfg, s) && Enabled(cfg, s, step) && IsStepOf(step, a) && step.proc != p && OnTrack(cfg, s0, s, a, p)
    ensures OnTrack(cfg, s0, Apply(cfg, s, step), a, p)
  {
    hide Inv, Apply, Enabled, IsMax, RoundStart, Offer;
    StepExtends(cfg, s, step);
    LocalUntouched(cfg, s, step, p, a);
    ResultsStable(cfg, s, Apply(cfg, s, step), a, LocalOf(s, p, a).round);
  }

  lemma ProposeTrack(cfg: Config, s0: State, s: State, a: nat, p: nat)
    requires Group(cfg, a) && CanPropose(cfg, s, p, a)
    ensures OnTrack(cfg, s0, Apply(cfg, s, Propose(p, a)), a, p)
  {
    hide RoundStart, Offer, IsMax;
  }

  lemma StartTrack(cfg: Config, s0: State, s: State, a: nat, p: nat, start: nat)
    requires Group(cfg, a) && QuietInv(cfg, s0, s, a) && CanStart(cfg, s, p, a, start)
    ensures OnTrack(cfg, s0, Apply(cfg, s, Start(p, a, start)), a, p)
  {
    hide Inv, IsMax;
    assert TableAt(cfg, s0, s, a, p);
    OfferSkips(TableOf(s0, p), start, cfg.maxCid, 0);
  }

  lemma FailTrack(cfg: Config, s0: State, s: State, a: nat, p: nat, next: nat)
    requires Group(cfg, a) && Inv(cfg, s) && CanCompleteMax(cfg, s, p, a, next)
    ensures OnTrack(cfg, s0, Apply(cfg, s, CompleteMax(p, a, next)), a, p)
  {
    hide RoundStart, Offer;
    assert ActorInv(cfg, s, p, a);
  }

  lemma RejectTrack(cfg: Config, s0: State, s: State, a: nat, p: nat, accept: bool)
    requires Group(cfg, a) && Inv(cfg, s) && RoundsInv(cfg, s0, s, a) && CanCompleteMin(cfg, s, p, a, accept)
    ensures OnTrack(cfg, s0, Apply(cfg, s, CompleteMin(p, a, accept)), a, p)
  {
    hide Offer, RoundStart, Inv, IsMax, RoundsInv, Accepted, Rejected;
    if !accept {
      NextStart(cfg, s0, s, a, p);
    }
  }

  lemma NextStart(cfg: Config, s0: State, s: State, a: nat, p: nat)
    requires Group(cfg, a) && Inv(cfg, s) && RoundsInv(cfg, s0, s, a) && CanCompleteMin(cfg, s, p, a, false)
    ensures LocalOf(s, p, a).phase.next + 1 == RoundStart(cfg, s0, a, LocalOf(s, p, a).round + 1)
  {
    hide Offer;
    assert ActorInv(cfg, s, p, a);
    MaxIsTop(cfg, s0, s, a, LocalOf(s, p, a).round, LocalOf(s, p, a).phase.next);
  }

  // ---------------------------------------------------------------------------------------
  // The outcome

  /** Rejected rounds lead from the first start to the one at hand. */
  lemma {:induction false} TogetherStays(cfg: Config, s0: State, s: State, a: nat, r: nat)
    requires Group(cfg, a) && Inv(cfg, s) && RoundsInv(cfg, s0, s, a) && forall i: nat :: i < r ==> Rejected(cfg, s, a, i)
    ensures Together(cfg, s0, a, 0) <==> Together(cfg, s0, a, RoundStart(cfg, s0, a, r))
  {
    hide Offer, OnTrack;
    if r > 0 {
      TogetherStays(cfg, s0, s, a, r - 1);
      assert Rejected(cfg, s, a, r - 1);
      NobodyOut(cfg, s0, s, a, r - 1);
    }
  }

  lemma NobodyOut(cfg: Config, s0: State, s: State, a: nat, r: nat)
    requires Group(cfg, a) && Inv(cfg, s) && RoundsInv(cfg, s0, s, a) && Rejected(cfg, s, a, r)
    ensures !SomeOut(cfg, s0, a, RoundStart(cfg, s0, a, r)) && !AllOut(cfg, s0, a, RoundStart(cfg, s0, a, r))
  {
    hide Offer, OnTrack, RoundStart;
    RejectedBelowMax(cfg, s, a, r);
    var v := MaxExists(cfg, s, a, r);
    MaxInRange(cfg, s, a, r, v);
    forall p | p in cfg.allocs[a].group ensures Offer(cfg, s0, p, RoundStart(cfg, s0, a, r)) != cfg.maxCid {
      assert s.maxIn[Key(a, r, p)] <= v;
    }
    var p :| p in cfg.allocs[a].group;
  }

  /** A round whose maximum is maxCid: whether all had run out tells whether all run out together. */
  lemma LastRound(cfg: Config, s0: State, s: State, a: nat, r: nat)
    requires Group(cfg, a) && Inv(cfg, s) && RoundsInv(cfg, s0, s, a) && IsMax(cfg, s, a, r, cfg.maxCid)
    requires forall i: nat :: i < r ==> Rejected(cfg, s, a, i)
    ensures SomeOut(cfg, s0, a, RoundStart(cfg, s0, a, r))
    ensures Together(cfg, s0, a, 0) <==> AllOut(cfg, s0, a, RoundStart(cfg, s0, a, r))
  {
    hide Offer, OnTrack, RoundStart;
    TogetherStays(cfg, s0, s, a, r);
    var p :| p in cfg.allocs[a].group && s.maxIn[Key(a, r, p)] == cfg.maxCid;
    assert Offer(cfg, s0, p, RoundStart(cfg, s0, a, r)) == cfg.maxCid;
  }

  /**
   Without a common free id, a blocking participant that finishes holds maxCid and all run out
   together; one that fails has its table back, and they do not.
   */
  lemma OutcomeFromTables(cfg: Config, states: seq<State>, steps: seq<Step>, a: nat, p: nat)
    requires Quiet(cfg, states, steps, a) && Group(cfg, a) && NoCommonId(cfg, states[0], a)
    ensures var s0, s := states[0], states[|steps|]; var phase := LocalOf(s, p, a).phase;
            && (phase.Done? ==> phase.id == cfg.maxCid && Together(cfg, s0, a, 0))
            && (phase.Failed? ==> TableOf(s, p) == TableOf(s0, p) && !Together(cfg, s0, a, 0))
  {
    hide Offer, RoundStart, Together, TableIs;
    var s0, s := states[0], states[|steps|];
    var l := LocalOf(s, p, a);
    QuietRun(cfg, states, steps, a, |steps|);
    RoundsRun(cfg, states, steps, a, |steps|);
    EarlierRejected(cfg, s, a, p);
    if l.phase.Done? {
      FinishedBelowMaxCid(cfg, states, steps, a, p);
      DoneTogether(cfg, s0, s, a, p);
    } else if l.phase.Failed? {
      assert OnTrack(cfg, s0, s, a, p) && ActorInv(cfg, s, p, a);
      LastRound(cfg, s0, s, a, l.round);
      FailedTable(cfg, s0, s, a, p);
      assert Offer(cfg, s0, p, RoundStart(cfg, s0, a, l.round)) < cfg.maxCid;
    }
  }

  lemma FailedTable(cfg: Config, s0: State, s: State, a: nat, p: nat)
    requires a < |cfg.allocs| && QuietInv(cfg, s0, s, a) && LocalOf(s, p, a).phase.Failed?
    ensures TableOf(s, p) == TableOf(s0, p) && p in cfg.allocs[a].group
  {
    assert TableAt(cfg, s0, s, a, p) && ActorInv(cfg, s, p, a);
  }

  lemma DoneTogether(cfg: Config, s0: State, s: State, a: nat, p: nat)
    requires Group(cfg, a) && QuietInv(cfg, s0, s, a) && RoundsInv(cfg, s0, s, a)
    requires LocalOf(s, p, a).phase.Done? && LocalOf(s, p, a).phase.id >= cfg.maxCid
    ensures LocalOf(s, p, a).phase.id == cfg.maxCid && Together(cfg, s0, a, 0)
  {
    hide Offer, RoundStart, TableIs, Together, OnTrack;
    var l := LocalOf(s, p, a);
    assert ActorInv(cfg, s, p, a);
    EarlierRejected(cfg, s, a, p);
    MaxInRange(cfg, s, a, l.round, l.phase.id);
    LastRound(cfg, s0, s, a, l.round);
    forall q | q in cfg.allocs[a].group ensures Offer(cfg, s0, q, RoundStart(cfg, s0, a, l.round)) == cfg.maxCid {
      assert ActorInv(cfg, s, q, a);
      assert MinInv(cfg, s, a, l.round, q);
    }
  }

  /** If all run out together, an allocation that cannot go on has given maxCid to every participant. */
  lemma EndsWithMaxCid(cfg: Config, states: seq<State>, steps: seq<Step>, a: nat, p: nat)
    requires Quiet(cfg, states, steps, a) && Group(cfg, a) && NoCommonId(cfg, states[0], a) && Together(cfg, states[0], a, 0)
    requires Ended(cfg, states[|steps|], a) && p in cfg.allocs[a].group
    ensures LocalOf(states[|steps|], p, a).phase == Done(cfg.maxCid)
    ensures TableOf(states[|steps|], p) == TableOf(states[0], p)[cfg.maxCid := Installed(a)]
  {
    hide Offer, Together, TableIs;
    var s := states[|steps|];
    QuietRun(cfg, states, steps, a, |steps|);
    forall q | q in cfg.allocs[a].group ensures !LocalOf(s, q, a).phase.Failed? {
      OutcomeFromTables(cfg, states, steps, a, q);
    }
    OutcomeFromTables(cfg, states, steps, a, p);
    if Registered(cfg, s, p, a) {
      LowestMoves(cfg, s, a, p);
    }
    DoneTable(cfg, states[0], s, a, p);
  }

  lemma DoneTable(cfg: Config, s0: State, s: State, a: nat, p: nat)
    requires a < |cfg.allocs| && QuietInv(cfg, s0, s, a)
    ensures LocalOf(s, p, a).phase.Done? ==> TableOf(s, p) == TableOf(s0, p)[LocalOf(s, p, a).phase.id := Installed(a)]
  {
    assert TableAt(cfg, s0, s, a, p);
  }

  /** Where a participant is left for good when the group does not run out together. */
  predicate LeftBehind(cfg: Config, l: Local, offer: nat) {
    if offer < cfg.maxCid then l.phase.Failed? else l.phase.Checked? && l.phase.next == cfg.maxCid && l.phase.flag
  }

  /**
   If they do not, an allocation that cannot go on has failed at exactly the participants that still
   had an id to offer in the last round, and the others, which had none, wait for ever.
   */
  lemma EndsApart(cfg: Config, states: seq<State>, steps: seq<Step>, a: nat) returns (start: nat)
    requires Quiet(cfg, states, steps, a) && Group(cfg, a) && NoCommonId(cfg, states[0], a) && !Together(cfg, states[0], a, 0)
    requires Ended(cfg, states[|steps|], a)
    ensures SomeOut(cfg, states[0], a, start) && !AllOut(cfg, states[0], a, start)
    ensures forall q :: q in cfg.allocs[a].group ==> LeftBehind(cfg, LocalOf(states[|steps|], q, a), Offer(cfg, states[0], q, start))
  {
    hide Offer, Together, TableIs, RoundStart;
    var s0, s := states[0], states[|steps|];
    QuietRun(cfg, states, steps, a, |steps|);
    RoundsRun(cfg, states, steps, a, |steps|);
    var f := SomebodyFailed(cfg, states, steps, a);
    var r := LocalOf(s, f, a).round;
    start := RoundStart(cfg, s0, a, r);
    assert OnTrack(cfg, s0, s, a, f);
    EarlierRejected(cfg, s, a, f);
    LastRound(cfg, s0, s, a, r);
    forall q | q in cfg.allocs[a].group ensures LeftBehind(cfg, LocalOf(s, q, a), Offer(cfg, s0, q, start)) {
      OutcomeFromTables(cfg, states, steps, a, q);
      StuckAt(cfg, s0, s, a, r, q);
    }
  }

  lemma SomebodyFailed(cfg: Config, states: seq<State>, steps: seq<Step>, a: nat) returns (f: nat)
    requires Quiet(cfg, states, steps, a) && Group(cfg, a) && NoCommonId(cfg, states[0], a) && !Together(cfg, states[0], a, 0)
    requires Ended(cfg, states[|steps|], a)
    ensures f in cfg.allocs[a].group && LocalOf(states[|steps|], f, a).phase.Failed?
  {
    hide Offer, Together, TableIs;
    var s := states[|steps|];
    QuietRun(cfg, states, steps, a, |steps|);
    f :| f in cfg.allocs[a].group;
    if g :| g in cfg.allocs[a].group && LocalOf(s, g, a).phase.Failed? {
      f := g;
    } else {
      OutcomeFromTables(cfg, states, steps, a, f);
      LowestMoves(cfg, s, a, f);
    }
  }

  /** In a round whose maximum is maxCid, whoever cannot move has failed or waits for the MIN-allreduce. */
  lemma StuckAt(cfg: Config, s0: State, s: State, a: nat, r: nat, q: nat)
    requires Group(cfg, a) && Inv(cfg, s) && RoundsInv(cfg, s0, s, a) && IsMax(cfg, s, a, r, cfg.maxCid)
    requires q in cfg.allocs[a].group && !LocalOf(s, q, a).phase.Done? && Ended(cfg, s, a)
    ensures LeftBehind(cfg, LocalOf(s, q, a), Offer(cfg, s0, q, RoundStart(cfg, s0, a, r)))
  {
    hide Offer, RoundStart;
    var l := LocalOf(s, q, a);
    assert ActorInv(cfg, s, q, a) && OnTrack(cfg, s0, s, a, q);
    assert Key(a, r, q) in s.maxIn && PastMax(l, r);
    if l.round > r {
      assert Rejected(cfg, s, a, r);
      RejectedBelowMax(cfg, s, a, r);
    }
    if l.phase.Proposed? && l.round == r {
      MaximumMoves(cfg, s, a, q, cfg.maxCid);
    }
    MaxUnique(cfg, s, a, r);
    if l.phase.Checked? {
      assert PastMin(l, r) && MinInv(cfg, s, a, r, q);
    }
  }
}
