/**
 What every run of the context-id protocol guarantees: agreement, exclusive slots, strictly
 rising proposals, a bound on the steps of every participant, absence of deadlock, and
 the least common id when nobody else touches the tables.
 */
module CidTheorems {
  import opened CidProtocol

  // ---------------------------------------------------------------------------------------
  // Safety over every interleaving

  /** All participants that finish one allocation hold the same id. */
  lemma Agreement(cfg: Config, states: seq<State>, steps: seq<Step>, a: nat, p: nat, q: nat, i: nat, j: nat)
    requires IsRun(cfg, states, steps) && Init(states[0]) && i <= j < |states|
    requires a < |cfg.allocs|
    requires LocalOf(states[i], p, a).phase.Done? && LocalOf(states[j], q, a).phase.Done?
    ensures LocalOf(states[i], p, a).phase.id == LocalOf(states[j], q, a).phase.id
  {
    DoneIsFinal(cfg, states, steps, p, a, i, j);
    RunInv(cfg, states, steps, j);
    AgreementInState(cfg, states[j], a, p, q);
  }

  lemma AgreementInState(cfg: Config, s: State, a: nat, p: nat, q: nat)
    requires Inv(cfg, s) && a < |cfg.allocs|
    requires LocalOf(s, p, a).phase.Done? && LocalOf(s, q, a).phase.Done?
    ensures LocalOf(s, p, a) == LocalOf(s, q, a)
  {
    assert ActorInv(cfg, s, p, a) && ActorInv(cfg, s, q, a);
    var lp, lq := LocalOf(s, p, a), LocalOf(s, q, a);
    assert !(Accepted(cfg, s, a, lp.round) && Rejected(cfg, s, a, lp.round));
    assert !(Accepted(cfg, s, a, lq.round) && Rejected(cfg, s, a, lq.round));
    MaxUnique(cfg, s, a, lp.round);
  }

  lemma {:induction false} DoneIsFinal(cfg: Config, states: seq<State>, steps: seq<Step>, p: nat, a: nat, i: nat, j: nat)
    requires IsRun(cfg, states, steps) && i <= j < |states| && a < |cfg.allocs|
    requires LocalOf(states[i], p, a).phase.Done?
    ensures LocalOf(states[j], p, a) == LocalOf(states[i], p, a)
  {
    hide Apply, Enabled, Progress;
    if i < j {
      DoneIsFinal(cfg, states, steps, p, a, i, j - 1);
      OwnStep(cfg, states[j - 1], steps[j - 1], p, a);
    }
  }

  /** Only its own steps move a participant; they move it forward, and there are none once it has finished or failed. */
  lemma OwnStep(cfg: Config, s: State, step: Step, p: nat, a: nat)
    requires Enabled(cfg, s, step) && a < |cfg.allocs|
    ensures var l, l' := LocalOf(s, p, a), LocalOf(Apply(cfg, s, step), p, a);
            if IsStepOf(step, a) && step.proc == p then
              !l.phase.Done? && !l.phase.Failed? && Progress(l) < Progress(l') &&
              (step.Start? ==> l.phase.Idle? && l'.phase.Top?) && (!step.Start? ==> Registered(cfg, s, p, a))
            else l' == l
  {
    hide Apply;
    if IsStepOf(step, a) && step.proc == p {
      hide IsMax, Accepted, Rejected, Lowest, Candidate;
      StepEffects(cfg, s, step);
    } else {
      LocalUntouched(cfg, s, step, p, a);
    }
  }

  /**
   A slot below maxCid changes hands only by its owner: a reservation is changed only by the
   process and allocation that made it, a communicator only by being freed, a free slot only
   by becoming a reservation of the allocation that takes the step.
   */
  lemma SlotExclusive(cfg: Config, states: seq<State>, steps: seq<Step>, i: nat, p: nat, c: nat)
    requires IsRun(cfg, states, steps) && Init(states[0]) && i < |steps| && c < cfg.maxCid
    ensures var t, t' := TableOf(states[i], p), TableOf(states[i + 1], p);
            && (c in t && t[c].Reserved? && !(c in t' && t'[c] == t[c]) ==>
                  !steps[i].Release? && steps[i].proc == p && steps[i].alloc == t[c].alloc)
            && (c in t && !t[c].Reserved? && !(c in t' && t'[c] == t[c]) ==> steps[i] == Release(p, c))
            && (c !in t && c in t' ==>
                  !steps[i].Release? && steps[i].proc == p && t'[c] == Reserved(steps[i].alloc))
  {
    RunInv(cfg, states, steps, i);
    var s, step := states[i], steps[i];
    assert Enabled(cfg, s, step);
    if !step.Release? {
      if step.proc != p || (c in TableOf(s, p) && TableOf(s, p)[c] != Reserved(step.alloc)) {
        OnlyOwnSlots(cfg, s, step, p, c);
      }
      if step.proc == p {
        assert ActorInv(cfg, s, p, step.alloc);
        assert Holds(LocalOf(s, p, step.alloc), c) <==> Owns(s, p, c, Reserved(step.alloc));
        if step.CompleteMin? && step.accept && LocalOf(s, p, step.alloc).phase.next == c {
          assert s.minIn[Key(step.alloc, LocalOf(s, p, step.alloc).round, p)];
        }
      }
    }
  }

  /** No process ever counts one slot below maxCid as reserved by two allocations. */
  lemma ReservationsDisjoint(cfg: Config, states: seq<State>, steps: seq<Step>, i: nat, p: nat, a: nat, b: nat, c: nat)
    requires IsRun(cfg, states, steps) && Init(states[0]) && i < |states|
    requires a < |cfg.allocs| && b < |cfg.allocs| && c < cfg.maxCid
    requires Holds(LocalOf(states[i], p, a), c) && Holds(LocalOf(states[i], p, b), c)
    ensures a == b && c in TableOf(states[i], p) && TableOf(states[i], p)[c] == Reserved(a)
  {
    RunInv(cfg, states, steps, i);
    assert ActorInv(cfg, states[i], p, a) && ActorInv(cfg, states[i], p, b);
    assert Owns(states[i], p, c, Reserved(a)) && Owns(states[i], p, c, Reserved(b));
  }

  /** Whoever finishes with an id below maxCid has just installed the new communicator in a slot it had reserved. */
  lemma FinishInstalls(cfg: Config, states: seq<State>, steps: seq<Step>, i: nat, p: nat, a: nat)
    requires IsRun(cfg, states, steps) && Init(states[0]) && i < |steps| && a < |cfg.allocs|
    requires !LocalOf(states[i], p, a).phase.Done? && LocalOf(states[i + 1], p, a).phase.Done?
    requires LocalOf(states[i + 1], p, a).phase.id < cfg.maxCid
    ensures var id := LocalOf(states[i + 1], p, a).phase.id;
            Owns(states[i], p, id, Reserved(a)) && TableOf(states[i + 1], p) == TableOf(states[i], p)[id := Installed(a)]
  {
    RunInv(cfg, states, steps, i);
    var s := states[i];
    assert Enabled(cfg, s, steps[i]);
    assert steps[i] == CompleteMin(p, a, true);
    assert ActorInv(cfg, s, p, a);
    assert s.minIn[Key(a, LocalOf(s, p, a).round, p)];
    assert Holds(LocalOf(s, p, a), LocalOf(s, p, a).phase.next);
  }

  // ---------------------------------------------------------------------------------------
  // Termination over every interleaving

  /** The maximum of each round is strictly above the maximum of the round before. */
  lemma MaximumRises(cfg: Config, s: State, a: nat, r: nat, v: nat, w: nat)
    requires Inv(cfg, s) && a < |cfg.allocs|
    requires IsMax(cfg, s, a, r, v) && IsMax(cfg, s, a, r + 1, w)
    ensures v < w
  {
    var q :| q in cfg.allocs[a].group && s.maxIn[Key(a, r, q)] == v;
    assert ActorInv(cfg, s, q, a);
    assert Key(a, r + 1, q) in s.maxIn;
    assert PastMax(LocalOf(s, q, a), r + 1);
    assert PastMin(LocalOf(s, q, a), r);
    assert MinInv(cfg, s, a, r, q) && AdvanceInv(cfg, s, a, r, q);
  }

  lemma {:induction false} MaximumAtLeastRound(cfg: Config, s: State, a: nat, r: nat, v: nat)
    requires Inv(cfg, s) && a < |cfg.allocs| && IsMax(cfg, s, a, r, v)
    ensures r <= v
    decreases r
  {
    hide TableInv, ValueInv, MinInv, AdvanceInv;
    if r > 0 {
      var q :| q in cfg.allocs[a].group && s.maxIn[Key(a, r, q)] == v;
      assert ActorInv(cfg, s, q, a);
      assert PastMax(LocalOf(s, q, a), r);
      assert Rejected(cfg, s, a, r - 1);
      RejectedBelowMax(cfg, s, a, r - 1);
      var u := MaxExists(cfg, s, a, r - 1);
      MaximumAtLeastRound(cfg, s, a, r - 1, u);
      MaximumRises(cfg, s, a, r - 1, u, v);
    }
  }

  lemma MaxExists(cfg: Config, s: State, a: nat, r: nat) returns (v: nat)
    requires a < |cfg.allocs| && cfg.allocs[a].group != {} && AllMax(cfg, s, a, r)
    ensures IsMax(cfg, s, a, r, v)
  {
    var g := cfg.allocs[a].group;
    var q := LargestContributor(s, a, r, g);
    v := s.maxIn[Key(a, r, q)];
  }

  lemma {:induction false} LargestContributor(s: State, a: nat, r: nat, g: set<nat>) returns (q: nat)
    requires g != {} && forall p :: p in g ==> Key(a, r, p) in s.maxIn
    ensures q in g && forall p :: p in g ==> s.maxIn[Key(a, r, p)] <= s.maxIn[Key(a, r, q)]
    decreases g
  {
    q :| q in g;
    if o :| o in g && o != q {
      assert o in g - {q};
      var p := LargestContributor(s, a, r, g - {q});
      if s.maxIn[Key(a, r, q)] < s.maxIn[Key(a, r, p)] {
        q := p;
      }
    }
  }

  /** Nobody is ever in a round beyond maxCid. */
  lemma RoundBounded(cfg: Config, s: State, p: nat, a: nat)
    requires Inv(cfg, s) && a < |cfg.allocs|
    ensures LocalOf(s, p, a).round <= cfg.maxCid
  {
    assert ActorInv(cfg, s, p, a);
    var round := LocalOf(s, p, a).round;
    if round > 0 {
      assert Rejected(cfg, s, a, round - 1);
      RejectedBelowMax(cfg, s, a, round - 1);
      var v := MaxExists(cfg, s, a, round - 1);
      MaximumAtLeastRound(cfg, s, a, round - 1, v);
      MaxInRange(cfg, s, a, round - 1, v);
    }
  }

  /** How far a participant has come; every step of it adds at least one. */
  function Progress(l: Local): nat {
    match l.phase
    case Idle => 0
    case Top(_) => 3 * l.round + 1
    case Proposed(_, _) => 3 * l.round + 2
    case Checked(_, _, _) => 3 * l.round + 3
    case Done(_) => 3 * l.round + 4
    case Failed => 3 * l.round + 4
  }

  function StepsBy(steps: seq<Step>, p: nat, a: nat): nat {
    if steps == [] then 0
    else
      var last := steps[|steps| - 1];
      StepsBy(steps[..|steps| - 1], p, a) + if !last.Release? && last.proc == p && last.alloc == a then 1 else 0
  }

  lemma {:induction false} StepsWithinProgress(cfg: Config, states: seq<State>, steps: seq<Step>, p: nat, a: nat)
    requires IsRun(cfg, states, steps) && a < |cfg.allocs|
    ensures StepsBy(steps, p, a) <= Progress(LocalOf(states[|steps|], p, a))
    decreases |steps|
  {
    hide Apply, Enabled, Progress;
    if steps != [] {
      var n := |steps| - 1;
      StepsWithinProgress(cfg, states[..n + 1], steps[..n], p, a);
      OwnStep(cfg, states[n], steps[n], p, a);
    }
  }

  /** In every interleaving each participant takes at most 3 * maxCid + 4 steps: the loop ends. */
  lemma StepsBounded(cfg: Config, states: seq<State>, steps: seq<Step>, p: nat, a: nat)
    requires IsRun(cfg, states, steps) && Init(states[0]) && a < |cfg.allocs|
    ensures StepsBy(steps, p, a) <= 3 * cfg.maxCid + 4
  {
    StepsWithinProgress(cfg, states, steps, p, a);
    RunInv(cfg, states, steps, |steps|);
    RoundBounded(cfg, states[|steps|], p, a);
  }

  // ---------------------------------------------------------------------------------------
  // Absence of deadlock

  /** Every participant has entered the allocation and none has given up. */
  ghost predicate Joined(cfg: Config, s: State, a: nat)
    requires a < |cfg.allocs|
  {
    forall p :: p in cfg.allocs[a].group ==> !LocalOf(s, p, a).phase.Idle? && !LocalOf(s, p, a).phase.Failed?
  }

  ghost predicate SomeStep(cfg: Config, s: State, a: nat) {
    exists step: Step :: !step.Release? && !step.Start? && step.alloc == a && Enabled(cfg, s, step)
  }

  lemma TopMoves(cfg: Config, s: State, a: nat, p: nat)
    requires a < |cfg.allocs| && p in cfg.allocs[a].group && LocalOf(s, p, a).phase.Top? && Lowest(cfg, s, p, a)
    ensures SomeStep(cfg, s, a)
  {
    assert Enabled(cfg, s, Propose(p, a));
  }

  lemma MaximumMoves(cfg: Config, s: State, a: nat, p: nat, v: nat)
    requires a < |cfg.allocs| && p in cfg.allocs[a].group && LocalOf(s, p, a).phase.Proposed?
    requires IsMax(cfg, s, a, LocalOf(s, p, a).round, v)
    ensures SomeStep(cfg, s, a)
  {
    assert Enabled(cfg, s, CompleteMax(p, a, v));
  }

  lemma RejectionMoves(cfg: Config, s: State, a: nat, p: nat)
    requires a < |cfg.allocs| && p in cfg.allocs[a].group && LocalOf(s, p, a).phase.Checked?
    requires Rejected(cfg, s, a, LocalOf(s, p, a).round)
    ensures SomeStep(cfg, s, a)
  {
    assert Enabled(cfg, s, CompleteMin(p, a, false));
  }

  /** A participant cannot have fallen behind a round that others have left, unless it can move now. */
  lemma LaggardMoves(cfg: Config, s: State, a: nat, p: nat, q: nat)
    requires Inv(cfg, s) && a < |cfg.allocs| && p in cfg.allocs[a].group && q in cfg.allocs[a].group
    requires Joined(cfg, s, a) && !LocalOf(s, q, a).phase.Top?
    requires LocalOf(s, q, a).round < LocalOf(s, p, a).round
    ensures SomeStep(cfg, s, a)
  {
    assert ActorInv(cfg, s, p, a) && ActorInv(cfg, s, q, a);
    var r := LocalOf(s, q, a).round;
    assert Rejected(cfg, s, a, r);
    assert Key(a, r, q) in s.minIn && PastMin(LocalOf(s, q, a), r);
    assert !LocalOf(s, q, a).phase.Done?;
    assert Enabled(cfg, s, CompleteMin(q, a, false));
  }

  lemma ProposedMoves(cfg: Config, s: State, a: nat, p: nat)
    requires Inv(cfg, s) && a < |cfg.allocs| && p in cfg.allocs[a].group && Joined(cfg, s, a)
    requires forall q :: q in cfg.allocs[a].group ==> !LocalOf(s, q, a).phase.Top?
    requires LocalOf(s, p, a).phase.Proposed?
    ensures SomeStep(cfg, s, a)
  {
    var r := LocalOf(s, p, a).round;
    if q :| q in cfg.allocs[a].group && LocalOf(s, q, a).round < r {
      LaggardMoves(cfg, s, a, p, q);
    } else {
      forall q | q in cfg.allocs[a].group ensures Key(a, r, q) in s.maxIn {
        assert ActorInv(cfg, s, q, a);
        assert PastMax(LocalOf(s, q, a), r);
      }
      var v := MaxExists(cfg, s, a, r);
      assert Enabled(cfg, s, CompleteMax(p, a, v));
    }
  }

  lemma CheckedMoves(cfg: Config, s: State, a: nat, p: nat)
    requires Inv(cfg, s) && a < |cfg.allocs| && p in cfg.allocs[a].group && Joined(cfg, s, a)
    requires forall q :: q in cfg.allocs[a].group ==> LocalOf(s, q, a).phase.Checked? || LocalOf(s, q, a).phase.Done?
    requires LocalOf(s, p, a).phase.Checked?
    ensures SomeStep(cfg, s, a)
  {
    var r := LocalOf(s, p, a).round;
    if q :| q in cfg.allocs[a].group && LocalOf(s, q, a).round < r {
      LaggardMoves(cfg, s, a, p, q);
    } else {
      forall q | q in cfg.allocs[a].group ensures Key(a, r, q) in s.minIn {
        assert ActorInv(cfg, s, q, a);
        assert PastMin(LocalOf(s, q, a), r);
      }
      if Accepted(cfg, s, a, r) {
        assert Enabled(cfg, s, CompleteMin(p, a, true));
      } else {
        assert Rejected(cfg, s, a, r);
        assert Enabled(cfg, s, CompleteMin(p, a, false));
      }
    }
  }

  /** An unfinished allocation with the lowest parent id everywhere can always move. */
  lemma LowestMoves(cfg: Config, s: State, a: nat, p: nat)
    requires Inv(cfg, s) && a < |cfg.allocs| && Joined(cfg, s, a)
    requires p in cfg.allocs[a].group && Registered(cfg, s, p, a)
    requires forall q :: q in cfg.allocs[a].group ==> Lowest(cfg, s, q, a)
    ensures SomeStep(cfg, s, a)
  {
    if q :| q in cfg.allocs[a].group && LocalOf(s, q, a).phase.Top? {
      assert Enabled(cfg, s, Propose(q, a));
    } else if q :| q in cfg.allocs[a].group && LocalOf(s, q, a).phase.Proposed? {
      ProposedMoves(cfg, s, a, q);
    } else {
      CheckedMoves(cfg, s, a, p);
    }
  }

  ghost predicate Active(cfg: Config, s: State, a: nat) {
    a < |cfg.allocs| && exists p :: p in cfg.allocs[a].group && Registered(cfg, s, p, a)
  }

  lemma {:induction false} LowestActive(cfg: Config, s: State, n: nat) returns (a: nat)
    requires n <= |cfg.allocs| && exists b :: 0 <= b < n && Active(cfg, s, b)
    ensures a < n && Active(cfg, s, a)
    ensures forall b :: 0 <= b < n && Active(cfg, s, b) ==> cfg.allocs[a].parent <= cfg.allocs[b].parent
  {
    if b :| 0 <= b < n - 1 && Active(cfg, s, b) {
      a := LowestActive(cfg, s, n - 1);
      if Active(cfg, s, n - 1) && cfg.allocs[n - 1].parent < cfg.allocs[a].parent {
        a := n - 1;
      }
    } else {
      a := n - 1;
    }
  }

  /**
   The registered-list ordering never deadlocks: as long as some allocation is under way, and
   every allocation under way has been entered by its whole group without anyone running out
   of ids, one of them can take a step.
   */
  lemma NoDeadlock(cfg: Config, states: seq<State>, steps: seq<Step>)
    requires IsRun(cfg, states, steps) && Init(states[0])
    requires exists a :: Active(cfg, states[|steps|], a)
    requires forall a :: Active(cfg, states[|steps|], a) ==> Joined(cfg, states[|steps|], a)
    ensures exists a :: Active(cfg, states[|steps|], a) && SomeStep(cfg, states[|steps|], a)
  {
    var s := states[|steps|];
    RunInv(cfg, states, steps, |steps|);
    var a := LowestActive(cfg, s, |cfg.allocs|);
    var p :| p in cfg.allocs[a].group && Registered(cfg, s, p, a);
    forall q | q in cfg.allocs[a].group ensures Lowest(cfg, s, q, a) {
      forall b | 0 <= b < |cfg.allocs| && Registered(cfg, s, q, b) ensures cfg.allocs[a].parent <= cfg.allocs[b].parent {
        assert ActorInv(cfg, s, q, b);
        assert Active(cfg, s, b);
      }
    }
    LowestMoves(cfg, s, a, p);
  }

  // ---------------------------------------------------------------------------------------
  // Where that hypothesis fails

  /** No process has two allocations with one parent on its list. */
  ghost predicate ParentsDistinct(cfg: Config, s: State) {
    forall p: nat, b: nat, c: nat :: b < |cfg.allocs| && c < |cfg.allocs| && b != c && Registered(cfg, s, p, b) && Registered(cfg, s, p, c) ==>
      cfg.allocs[b].parent != cfg.allocs[c].parent
  }

  lemma {:induction false} RunDistinct(cfg: Config, states: seq<State>, steps: seq<Step>, i: nat)
    requires IsRun(cfg, states, steps) && Init(states[0]) && i < |states|
    ensures ParentsDistinct(cfg, states[i])
  {
    hide Apply, Enabled;
    if i > 0 {
      RunDistinct(cfg, states, steps, i - 1);
      DistinctStep(cfg, states[i - 1], steps[i - 1]);
    }
  }

  lemma DistinctStep(cfg: Config, s: State, step: Step)
    requires ParentsDistinct(cfg, s) && Enabled(cfg, s, step)
    ensures ParentsDistinct(cfg, Apply(cfg, s, step))
  {
    hide Apply, Progress;
    var s' := Apply(cfg, s, step);
    forall p: nat, b: nat, c: nat |
      b < |cfg.allocs| && c < |cfg.allocs| && b != c && Registered(cfg, s', p, b) && Registered(cfg, s', p, c)
      ensures cfg.allocs[b].parent != cfg.allocs[c].parent
    {
      OwnStep(cfg, s, step, p, b);
      OwnStep(cfg, s, step, p, c);
      if Starts(step, p, b) {
        assert CanStart(cfg, s, p, b, step.start) && Registered(cfg, s, p, c);
      } else if Starts(step, p, c) {
        assert CanStart(cfg, s, p, c, step.start) && Registered(cfg, s, p, b);
      } else {
        assert Registered(cfg, s, p, b) && Registered(cfg, s, p, c);
      }
    }
  }

  predicate Starts(step: Step, p: nat, a: nat) {
    step.Start? && step.proc == p && step.alloc == a
  }

  /**
   Once a non-blocking allocation b has run out of ids at p, its parent stays listed: no other
   allocation with a parent that is not lower proposes at p ever again, and none with the same
   parent even enters.
   */
  lemma {:induction false} FailureBlocks(cfg: Config, states: seq<State>, steps: seq<Step>, i: nat, j: nat, p: nat, b: nat, a: nat)
    requires IsRun(cfg, states, steps) && Init(states[0]) && i <= j < |steps| && a < |cfg.allocs| && b < |cfg.allocs| && a != b
    requires cfg.allocs[b].mode.NonBlocking? && cfg.allocs[b].parent <= cfg.allocs[a].parent
    requires LocalOf(states[i], p, b).phase.Failed?
    ensures LocalOf(states[j], p, b).phase.Failed? && steps[j] != Propose(p, a)
    ensures cfg.allocs[b].parent == cfg.allocs[a].parent ==> !Starts(steps[j], p, a)
  {
    hide Apply, Progress;
    if i < j {
      FailureBlocks(cfg, states, steps, i, j - 1, p, b, a);
      OwnStep(cfg, states[j - 1], steps[j - 1], p, b);
    }
    assert Registered(cfg, states[j], p, b);
    assert Enabled(cfg, states[j], steps[j]);
    RunDistinct(cfg, states, steps, j);
  }

  /** To an allocation with a lower parent it makes no difference. */
  lemma FailureHarmless(cfg: Config, s: State, p: nat, b: nat, a: nat, start: nat)
    requires a < |cfg.allocs| && b < |cfg.allocs| && cfg.allocs[a].parent < cfg.allocs[b].parent
    ensures Lowest(cfg, s, p, a) <==>
            forall c :: 0 <= c < |cfg.allocs| && c != b && Registered(cfg, s, p, c) ==> cfg.allocs[a].parent <= cfg.allocs[c].parent
    ensures CanStart(cfg, s, p, a, start) <==>
            (p in cfg.allocs[a].group && LocalOf(s, p, a).phase.Idle? && (forall c :: 0 <= c < start ==> c in TableOf(s, p)) &&
             forall c :: 0 <= c < |cfg.allocs| && c != b && Registered(cfg, s, p, c) ==> cfg.allocs[c].parent != cfg.allocs[a].parent)
  {
  }

  /** One process with one id, a non-blocking allocation, then another one with a higher parent. */
  function TwoOnOneId(): Config {
    Config(1, [Alloc({0}, 0, NonBlocking), Alloc({0}, 1, Blocking)])
  }

  lemma EnterFirst(s: State)
    requires s == State(map[0 := map[0 := Live(0)]], map[], map[], map[])
    ensures Enabled(TwoOnOneId(), s, Start(0, 0, 1))
    ensures Apply(TwoOnOneId(), s, Start(0, 0, 1)) == s.(locals := map[Actor(0, 0) := Local(0, Top(1))])
  {
  }

  lemma RunOut(s: State)
    requires LocalOf(s, 0, 0) == Local(0, Top(1)) && LocalOf(s, 0, 1) == Local(0, Idle)
    ensures Enabled(TwoOnOneId(), s, Propose(0, 0))
    ensures var s' := Apply(TwoOnOneId(), s, Propose(0, 0));
            LocalOf(s', 0, 0) == Local(0, Failed) && LocalOf(s', 0, 1) == Local(0, Idle) && TableOf(s', 0) == TableOf(s, 0)
  {
  }

  lemma EnterSecond(s: State)
    requires LocalOf(s, 0, 0) == Local(0, Failed) && LocalOf(s, 0, 1) == Local(0, Idle) && 0 in TableOf(s, 0)
    ensures Enabled(TwoOnOneId(), s, Start(0, 1, 1))
    ensures var s' := Apply(TwoOnOneId(), s, Start(0, 1, 1));
            LocalOf(s', 0, 1) == Local(0, Top(1)) && !Enabled(TwoOnOneId(), s', Propose(0, 1))
  {
    var s' := Apply(TwoOnOneId(), s, Start(0, 1, 1));
    assert Registered(TwoOnOneId(), s', 0, 0);
  }

  /** A run that gets there: the only id is in use. */
  lemma FailureHappens() returns (cfg: Config, states: seq<State>, steps: seq<Step>)
    ensures IsRun(cfg, states, steps) && Init(states[0]) && |steps| == 3 && |cfg.allocs| == 2
    ensures cfg.allocs[0].mode.NonBlocking? && cfg.allocs[0].parent < cfg.allocs[1].parent
    ensures LocalOf(states[2], 0, 0).phase.Failed? && LocalOf(states[3], 0, 1).phase.Top? && !Enabled(cfg, states[3], Propose(0, 1))
  {
    hide Apply, Enabled;
    cfg := TwoOnOneId();
    var s0 := State(map[0 := map[0 := Live(0)]], map[], map[], map[]);
    EnterFirst(s0);
    states, steps := Append(cfg, [s0], [], Start(0, 0, 1));
    RunOut(states[1]);
    states, steps := Append(cfg, states, steps, Propose(0, 0));
    EnterSecond(states[2]);
    states, steps := Append(cfg, states, steps, Start(0, 1, 1));
  }

  // ---------------------------------------------------------------------------------------
  // Running out of ids

  /**
   A finished allocation has an id below maxCid exactly when no participant was out of ids in
   the final round; otherwise all of them were, and maxCid itself was accepted. The
   non-blocking form never accepts maxCid.
   */
  lemma ExhaustionAllOrNone(cfg: Config, states: seq<State>, steps: seq<Step>, a: nat, p: nat, q: nat)
    requires IsRun(cfg, states, steps) && Init(states[0]) && a < |cfg.allocs| && q in cfg.allocs[a].group
    requires LocalOf(states[|steps|], p, a).phase.Done?
    ensures var s := states[|steps|]; var l := LocalOf(s, p, a); var k := Key(a, l.round, q);
            && k in s.maxIn
            && (l.phase.id < cfg.maxCid <==> s.maxIn[k] < cfg.maxCid)
            && (cfg.allocs[a].mode.NonBlocking? ==> l.phase.id < cfg.maxCid)
  {
    var s := states[|steps|];
    RunInv(cfg, states, steps, |steps|);
    assert ActorInv(cfg, s, p, a) && ActorInv(cfg, s, q, a);
    var l := LocalOf(s, p, a);
    MaxInRange(cfg, s, a, l.round, l.phase.id);
    assert MinInv(cfg, s, a, l.round, q);
    var w :| w in cfg.allocs[a].group && s.maxIn[Key(a, l.round, w)] == l.phase.id;
    assert ActorInv(cfg, s, w, a);
    assert MinInv(cfg, s, a, l.round, w);
  }

  /** A single participant that finds every id in use goes through its first round unopposed. */
  predicate Alone(cfg: Config, a: nat) {
    a < |cfg.allocs| && cfg.allocs[a].group == {0} && cfg.allocs[a].mode.Blocking?
  }

  function At(s: State, a: nat, phase: Phase): State {
    s.(tables := s.tables[0 := TableOf(s, 0)], locals := s.locals[Actor(0, a) := Local(0, phase)])
  }

  lemma ExhaustedPropose(cfg: Config, s: State, a: nat)
    requires Alone(cfg, a) && LocalOf(s, 0, a) == Local(0, Top(cfg.maxCid))
    requires forall b :: 0 <= b < |cfg.allocs| && b != a ==> !Registered(cfg, s, 0, b)
    ensures Enabled(cfg, s, Propose(0, a))
    ensures Apply(cfg, s, Propose(0, a)) ==
            At(s, a, Proposed(cfg.maxCid, cfg.maxCid)).(maxIn := s.maxIn[Key(a, 0, 0) := cfg.maxCid])
  {
  }

  lemma ExhaustedMax(cfg: Config, s: State, a: nat)
    requires Alone(cfg, a) && LocalOf(s, 0, a) == Local(0, Proposed(cfg.maxCid, cfg.maxCid))
    requires Key(a, 0, 0) in s.maxIn && s.maxIn[Key(a, 0, 0)] == cfg.maxCid
    ensures Enabled(cfg, s, CompleteMax(0, a, cfg.maxCid))
    ensures Apply(cfg, s, CompleteMax(0, a, cfg.maxCid)) ==
            At(s, a, Checked(cfg.maxCid, cfg.maxCid, true)).(minIn := s.minIn[Key(a, 0, 0) := true])
  {
    assert 0 in cfg.allocs[a].group;
  }

  lemma ExhaustedMin(cfg: Config, s: State, a: nat)
    requires Alone(cfg, a) && LocalOf(s, 0, a) == Local(0, Checked(cfg.maxCid, cfg.maxCid, true))
    requires Key(a, 0, 0) in s.minIn && s.minIn[Key(a, 0, 0)]
    ensures Enabled(cfg, s, CompleteMin(0, a, true))
    ensures Apply(cfg, s, CompleteMin(0, a, true)) ==
            At(s, a, Done(cfg.maxCid)).(tables := s.tables[0 := TableOf(s, 0)[cfg.maxCid := Installed(a)]])
  {
  }

  lemma ExhaustedRound(cfg: Config, s: State, a: nat) returns (states: seq<State>, steps: seq<Step>)
    requires Alone(cfg, a) && LocalOf(s, 0, a) == Local(0, Idle)
    requires forall b :: 0 <= b < |cfg.allocs| ==> !Registered(cfg, s, 0, b)
    requires forall c :: 0 <= c < cfg.maxCid ==> c in TableOf(s, 0)
    ensures IsRun(cfg, states, steps) && states[0] == s && |steps| == 4
    ensures forall i :: 0 <= i < 4 ==> IsStepOf(steps[i], a)
    ensures states[4].locals == s.locals[Actor(0, a) := Local(0, Done(cfg.maxCid))]
    ensures states[4].tables == s.tables[0 := TableOf(s, 0)[cfg.maxCid := Installed(a)]]
  {
    hide Apply, Enabled, Registered;
    var n := cfg.maxCid;
    ExhaustedStart(cfg, s, a);
    states, steps := Append(cfg, [s], [], Start(0, a, n));
    ExhaustedPropose(cfg, states[1], a);
    states, steps := Append(cfg, states, steps, Propose(0, a));
    AtAgain(s, a, Top(n), Proposed(n, n));
    states, steps := ExhaustedVerdict(cfg, states, steps, a);
  }

  lemma AtAgain(s: State, a: nat, phase: Phase, phase': Phase)
    ensures At(At(s, a, phase), a, phase') == At(s, a, phase')
    ensures TableOf(At(s, a, phase'), 0) == TableOf(s, 0) && LocalOf(At(s, a, phase'), 0, a) == Local(0, phase')
  {
    var s', s'' := At(At(s, a, phase), a, phase'), At(s, a, phase');
    assert s'.tables == s''.tables && s'.locals == s''.locals;
  }

  lemma ExhaustedStart(cfg: Config, s: State, a: nat)
    requires Alone(cfg, a) && LocalOf(s, 0, a) == Local(0, Idle)
    requires forall b :: 0 <= b < |cfg.allocs| ==> !Registered(cfg, s, 0, b)
    requires forall c :: 0 <= c < cfg.maxCid ==> c in TableOf(s, 0)
    ensures Enabled(cfg, s, Start(0, a, cfg.maxCid))
    ensures Apply(cfg, s, Start(0, a, cfg.maxCid)) == At(s, a, Top(cfg.maxCid))
    ensures forall b :: 0 <= b < |cfg.allocs| && b != a ==> !Registered(cfg, At(s, a, Top(cfg.maxCid)), 0, b)
  {
    forall b | 0 <= b < |cfg.allocs| && b != a ensures !Registered(cfg, At(s, a, Top(cfg.maxCid)), 0, b) {
      assert LocalOf(At(s, a, Top(cfg.maxCid)), 0, b) == LocalOf(s, 0, b) && !Registered(cfg, s, 0, b);
    }
  }

  lemma ExhaustedVerdict(cfg: Config, states: seq<State>, steps: seq<Step>, a: nat)
    returns (longer: seq<State>, longerSteps: seq<Step>)
    requires IsRun(cfg, states, steps) && Alone(cfg, a)
    requires var s := states[|steps|];
             && LocalOf(s, 0, a) == Local(0, Proposed(cfg.maxCid, cfg.maxCid))
             && Key(a, 0, 0) in s.maxIn && s.maxIn[Key(a, 0, 0)] == cfg.maxCid
    ensures IsRun(cfg, longer, longerSteps) && states <= longer
    ensures longerSteps == steps + [CompleteMax(0, a, cfg.maxCid), CompleteMin(0, a, true)]
    ensures longer[|longerSteps|].locals == states[|steps|].locals[Actor(0, a) := Local(0, Done(cfg.maxCid))]
    ensures longer[|longerSteps|].tables ==
            states[|steps|].tables[0 := TableOf(states[|steps|], 0)[cfg.maxCid := Installed(a)]]
  {
    ExhaustedMax(cfg, states[|steps|], a);
    longer, longerSteps := Append(cfg, states, steps, CompleteMax(0, a, cfg.maxCid));
    ExhaustedMin(cfg, longer[|longerSteps|], a);
    longer, longerSteps := Append(cfg, longer, longerSteps, CompleteMin(0, a, true));
  }

  lemma Append(cfg: Config, states: seq<State>, steps: seq<Step>, step: Step)
    returns (longer: seq<State>, longerSteps: seq<Step>)
    requires IsRun(cfg, states, steps) && Enabled(cfg, states[|steps|], step)
    ensures IsRun(cfg, longer, longerSteps)
    ensures longerSteps == steps + [step] && longer == states + [Apply(cfg, states[|steps|], step)]
  {
    longer, longerSteps := states + [Apply(cfg, states[|steps|], step)], steps + [step];
  }

  /**
   Exclusivity and the range of ids fail at maxCid itself: with every id in use, two
   allocations one after the other both end with maxCid, and the second overwrites the
   slot of the first although nobody freed it.
   */
  lemma MaxCidAcceptedTwice() returns (cfg: Config, states: seq<State>, steps: seq<Step>)
    ensures IsRun(cfg, states, steps) && Init(states[0]) && |cfg.allocs| == 2 && |steps| == 8
    ensures forall i :: 0 <= i < |steps| ==> !steps[i].Release?
    ensures LocalOf(states[8], 0, 0).phase == Done(cfg.maxCid) && LocalOf(states[8], 0, 1).phase == Done(cfg.maxCid)
    ensures Owns(states[4], 0, cfg.maxCid, Installed(0)) && Owns(states[8], 0, cfg.maxCid, Installed(1))
  {
    cfg := Config(1, [Alloc({0}, 0, Blocking), Alloc({0}, 0, Blocking)]);
    var s := State(map[0 := map[0 := Live(0)]], map[], map[], map[]);
    var first, firstSteps := ExhaustedRound(cfg, s, 0);
    var second, secondSteps := ExhaustedRound(cfg, first[4], 1);
    states, steps := first + second[1..], firstSteps + secondSteps;
    assert states[4] == second[0] && forall i :: 4 <= i < 9 ==> states[i] == second[i - 4];
    forall i | 0 <= i < 8 ensures Enabled(cfg, states[i], steps[i]) && states[i + 1] == Apply(cfg, states[i], steps[i]) {
      if i >= 4 {
        assert states[i] == second[i - 4] && states[i + 1] == second[i + 1 - 4] && steps[i] == secondSteps[i - 4];
      }
    }
    forall i | 0 <= i < 8 ensures !steps[i].Release? {
      assert if i < 4 then IsStepOf(firstSteps[i], 0) else IsStepOf(secondSteps[i - 4], 1);
    }
  }
}
