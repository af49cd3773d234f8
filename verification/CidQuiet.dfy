/**
 What a context-id allocation ends with when nobody else touches the tables: the least id free at
 every participant if there is one, and what becomes of it if there is none.
 */
module CidQuiet {
  import opened CidProtocol
  import opened CidTheorems

  /** Only allocation `a` takes steps, from a state in which nobody has entered it. */
  ghost predicate Quiet(cfg: Config, states: seq<State>, steps: seq<Step>, a: nat) {
    && a < |cfg.allocs| && IsRun(cfg, states, steps) && (forall i :: 0 <= i < |steps| ==> IsStepOf(steps[i], a))
    && Inv(cfg, states[0]) && forall p :: LocalOf(states[0], p, a) == Local(0, Idle)
  }

  /** Id m is free at every participant. */
  ghost predicate CommonFree(cfg: Config, s: State, a: nat, m: nat)
    requires a < |cfg.allocs|
  {
    m < cfg.maxCid && forall p :: p in cfg.allocs[a].group ==> m !in TableOf(s, p)
  }

  ghost predicate NoCommonId(cfg: Config, s0: State, a: nat)
    requires a < |cfg.allocs|
  {
    forall c: nat :: !CommonFree(cfg, s0, a, c)
  }

  ghost predicate LeastCommonFree(cfg: Config, s: State, a: nat, m: nat)
    requires a < |cfg.allocs|
  {
    CommonFree(cfg, s, a, m) && forall c: nat :: c < m ==> !CommonFree(cfg, s, a, c)
  }

  // ---------------------------------------------------------------------------------------
  // The tables during the allocation

  /** The table of p is the original one plus what the allocation holds in it. */
  predicate TableIs(maxCid: nat, mode: Mode, base: Table, t: Table, l: Local, a: nat) {
    match l.phase
    case Proposed(_, local) => if local < maxCid then local !in base && t == base[local := Reserved(a)] else t == base
    case Checked(_, next, flag) =>
      if next == maxCid && mode.Blocking? then flag && t == base
      else if flag then next !in base && t == base[next := Reserved(a)] else next in base && t == base
    case Done(id) => t == base[id := Installed(a)]
    case _ => t == base
  }

  ghost predicate TableAt(cfg: Config, s0: State, s: State, a: nat, p: nat)
    requires a < |cfg.allocs|
  {
    TableIs(cfg.maxCid, cfg.allocs[a].mode, TableOf(s0, p), TableOf(s, p), LocalOf(s, p, a), a)
  }

  /** A participant accepts a maximum below maxCid exactly when the id was free in its original table. */
  ghost predicate Verdict(cfg: Config, s0: State, s: State, a: nat, r: nat, p: nat)
    requires a < |cfg.allocs| && Key(a, r, p) in s.minIn
  {
    forall v: nat :: IsMax(cfg, s, a, r, v) && v < cfg.maxCid ==> (s.minIn[Key(a, r, p)] <==> v !in TableOf(s0, p))
  }

  ghost predicate QuietInv(cfg: Config, s0: State, s: State, a: nat)
    requires a < |cfg.allocs|
  {
    && Inv(cfg, s) && (forall p :: TableAt(cfg, s0, s, a, p))
    && (forall r: nat, p :: Key(a, r, p) in s.minIn ==> Verdict(cfg, s0, s, a, r, p))
  }

  lemma QuietStart(cfg: Config, states: seq<State>, steps: seq<Step>, a: nat)
    requires Quiet(cfg, states, steps, a)
    ensures QuietInv(cfg, states[0], states[0], a)
    ensures forall r: nat, p: nat :: Key(a, r, p) !in states[0].maxIn && Key(a, r, p) !in states[0].minIn
  {
    var s := states[0];
    forall r: nat, p: nat ensures Key(a, r, p) !in s.maxIn && Key(a, r, p) !in s.minIn {
      assert ActorInv(cfg, s, p, a);
      assert !PastMin(LocalOf(s, p, a), r) && !PastMax(LocalOf(s, p, a), r);
    }
  }

  lemma {:induction false} QuietRun(cfg: Config, states: seq<State>, steps: seq<Step>, a: nat, i: nat)
    requires Quiet(cfg, states, steps, a) && i < |states|
    ensures QuietInv(cfg, states[0], states[i], a)
  {
    if i == 0 {
      QuietStart(cfg, states, steps, a);
    } else {
      QuietRun(cfg, states, steps, a, i - 1);
      assert Enabled(cfg, states[i - 1], steps[i - 1]);
      QuietStep(cfg, states[0], states[i - 1], steps[i - 1], a);
    }
  }

  lemma QuietStep(cfg: Config, s0: State, s: State, step: Step, a: nat)
    requires a < |cfg.allocs| && QuietInv(cfg, s0, s, a) && Enabled(cfg, s, step) && IsStepOf(step, a)
    ensures QuietInv(cfg, s0, Apply(cfg, s, step), a)
  {
    hide Inv, Verdict, TableIs, Enabled;
    var s' := Apply(cfg, s, step);
    StepInv(cfg, s, step);
    forall p ensures TableAt(cfg, s0, s', a, p) {
      assert TableAt(cfg, s0, s, a, p);
      QuietTable(cfg, s0, s, step, a, p);
    }
    forall r: nat, p | Key(a, r, p) in s'.minIn ensures Verdict(cfg, s0, s', a, r, p) {
      QuietVerdict(cfg, s0, s, step, a, r, p);
    }
  }

  lemma QuietTable(cfg: Config, s0: State, s: State, step: Step, a: nat, p: nat)
    requires a < |cfg.allocs| && Inv(cfg, s) && TableAt(cfg, s0, s, a, p) && Enabled(cfg, s, step) && IsStepOf(step, a)
    ensures TableAt(cfg, s0, Apply(cfg, s, step), a, p)
  {
    hide Inv, TableIs, Apply;
    if step.proc != p {
      OtherTable(cfg, s, step, a, p);
    } else {
      match step {
        case Start(_, _, start) => QuietFirst(cfg, s0, s, a, p, start);
        case Propose(_, _) => QuietPropose(cfg, s0, s, a, p);
        case CompleteMax(_, _, next) => QuietMax(cfg, s0, s, a, p, next);
        case CompleteMin(_, _, accept) => QuietMin(cfg, s0, s, a, p, accept);
      }
    }
  }

  lemma OtherTable(cfg: Config, s: State, step: Step, a: nat, p: nat)
    requires a < |cfg.allocs| && Enabled(cfg, s, step) && IsStepOf(step, a) && step.proc != p
    ensures LocalOf(Apply(cfg, s, step), p, a) == LocalOf(s, p, a) && TableOf(Apply(cfg, s, step), p) == TableOf(s, p)
  {
    hide IsMax, Accepted, Rejected, Lowest, Candidate;
  }

  lemma QuietFirst(cfg: Config, s0: State, s: State, a: nat, p: nat, start: nat)
    requires a < |cfg.allocs| && TableAt(cfg, s0, s, a, p) && CanStart(cfg, s, p, a, start)
    ensures TableAt(cfg, s0, Apply(cfg, s, Start(p, a, start)), a, p)
  {
  }

  lemma QuietPropose(cfg: Config, s0: State, s: State, a: nat, p: nat)
    requires a < |cfg.allocs| && TableAt(cfg, s0, s, a, p) && CanPropose(cfg, s, p, a)
    ensures TableAt(cfg, s0, Apply(cfg, s, Propose(p, a)), a, p)
  {
  }

  lemma QuietMax(cfg: Config, s0: State, s: State, a: nat, p: nat, next: nat)
    requires a < |cfg.allocs| && Inv(cfg, s) && TableAt(cfg, s0, s, a, p) && CanCompleteMax(cfg, s, p, a, next)
    ensures TableAt(cfg, s0, Apply(cfg, s, CompleteMax(p, a, next)), a, p)
  {
    hide Apply, TableInv, TableIs;
    var l := LocalOf(s, p, a);
    var base: Table := TableOf(s0, p);
    var local: nat := l.phase.local;
    assert ActorInv(cfg, s, p, a);
    MaxInRange(cfg, s, a, l.round, next);
    assert s.maxIn[Key(a, l.round, p)] == local <= next <= cfg.maxCid;
    StepEffects(cfg, s, CompleteMax(p, a, next));
    MaxKeepsTable(cfg.maxCid, cfg.allocs[a].mode, base, TableOf(s, p), l, a, next);
  }

  lemma MaxKeepsTable(maxCid: nat, mode: Mode, base: Table, t: Table, l: Local, a: nat, next: nat)
    requires TableIs(maxCid, mode, base, t, l, a) && l.phase.Proposed? && l.phase.local <= next <= maxCid
    requires mode.NonBlocking? ==> l.phase.local < maxCid
    ensures var e := MaxEffect(maxCid, mode, a, t, l, next); TableIs(maxCid, mode, base, e.table, e.local, a)
  {
    var local := l.phase.local;
    var reserved: Table := base[local := Reserved(a)];
    assert local !in base ==> reserved - {local} == base;
  }

  lemma QuietMin(cfg: Config, s0: State, s: State, a: nat, p: nat, accept: bool)
    requires a < |cfg.allocs| && Inv(cfg, s) && TableAt(cfg, s0, s, a, p) && CanCompleteMin(cfg, s, p, a, accept)
    ensures TableAt(cfg, s0, Apply(cfg, s, CompleteMin(p, a, accept)), a, p)
  {
    var l := LocalOf(s, p, a);
    var base: Table := TableOf(s0, p);
    var next: nat := l.phase.next;
    assert ActorInv(cfg, s, p, a);
    if accept {
      assert s.minIn[Key(a, l.round, p)];
    } else {
      RejectedBelowMax(cfg, s, a, l.round);
    }
    var reserved: Table := base[next := Reserved(a)];
    assert next !in base ==> reserved - {next} == base;
    assert reserved[next := Installed(a)] == base[next := Installed(a)];
  }

  lemma QuietVerdict(cfg: Config, s0: State, s: State, step: Step, a: nat, r: nat, p: nat)
    requires a < |cfg.allocs| && QuietInv(cfg, s0, s, a) && Enabled(cfg, s, step) && IsStepOf(step, a)
    requires Key(a, r, p) in Apply(cfg, s, step).minIn
    ensures Verdict(cfg, s0, Apply(cfg, s, step), a, r, p)
  {
    var s' := Apply(cfg, s, step);
    if Key(a, r, p) in s.minIn {
      OldVerdict(cfg, s0, s, step, a, r, p);
    } else {
      NewVerdict(cfg, s0, s, step, a, r, p);
    }
  }

  lemma OldVerdict(cfg: Config, s0: State, s: State, step: Step, a: nat, r: nat, p: nat)
    requires a < |cfg.allocs| && QuietInv(cfg, s0, s, a) && Enabled(cfg, s, step) && IsStepOf(step, a) && Key(a, r, p) in s.minIn
    ensures Key(a, r, p) in Apply(cfg, s, step).minIn && Verdict(cfg, s0, Apply(cfg, s, step), a, r, p)
  {
    hide TableIs, Enabled, Apply;
    StepExtends(cfg, s, step);
    ResultsStable(cfg, s, Apply(cfg, s, step), a, r);
    assert ActorInv(cfg, s, p, a);
    assert MinInv(cfg, s, a, r, p) && Verdict(cfg, s0, s, a, r, p);
  }

  lemma NewVerdict(cfg: Config, s0: State, s: State, step: Step, a: nat, r: nat, p: nat)
    requires a < |cfg.allocs| && QuietInv(cfg, s0, s, a) && Enabled(cfg, s, step) && IsStepOf(step, a)
    requires Key(a, r, p) !in s.minIn && Key(a, r, p) in Apply(cfg, s, step).minIn
    ensures Verdict(cfg, s0, Apply(cfg, s, step), a, r, p)
  {
    var s' := Apply(cfg, s, step);
    assert step.CompleteMax? && step.proc == p && r == LocalOf(s, p, a).round;
    assert TableAt(cfg, s0, s, a, p);
    QuietMax(cfg, s0, s, a, p, step.next);
    MaxSame(cfg, s, s', a, r, step.next);
  }

  /** Contributions to other rounds do not change a maximum. */
  lemma MaxSame(cfg: Config, s: State, s': State, a: nat, r: nat, next: nat)
    requires a < |cfg.allocs| && s'.maxIn == s.maxIn && IsMax(cfg, s, a, r, next)
    ensures forall v: nat :: IsMax(cfg, s', a, r, v) ==> v == next
  {
    MaxUnique(cfg, s, a, r);
  }

  // ---------------------------------------------------------------------------------------
  // With an id that is free everywhere

  /** The search never gets above the least common free id m. */
  predicate Below(l: Local, m: nat) {
    match l.phase
    case Idle => true
    case Top(start) => start <= m
    case Proposed(start, local) => start <= m && local <= m
    case Checked(start, next, flag) => start <= m && next <= m
    case Done(id) => id <= m
    case Failed => false
  }

  ghost predicate BelowInv(cfg: Config, s: State, a: nat, m: nat) {
    forall p :: Below(LocalOf(s, p, a), m)
  }

  lemma {:induction false} BelowRun(cfg: Config, states: seq<State>, steps: seq<Step>, a: nat, m: nat, i: nat)
    requires Quiet(cfg, states, steps, a) && LeastCommonFree(cfg, states[0], a, m) && i < |states|
    ensures BelowInv(cfg, states[i], a, m)
  {
    if i > 0 {
      BelowRun(cfg, states, steps, a, m, i - 1);
      QuietRun(cfg, states, steps, a, i - 1);
      assert Enabled(cfg, states[i - 1], steps[i - 1]);
      BelowStep(cfg, states[0], states[i - 1], steps[i - 1], a, m);
    }
  }

  lemma BelowStep(cfg: Config, s0: State, s: State, step: Step, a: nat, m: nat)
    requires a < |cfg.allocs| && QuietInv(cfg, s0, s, a) && LeastCommonFree(cfg, s0, a, m) && BelowInv(cfg, s, a, m)
    requires Enabled(cfg, s, step) && IsStepOf(step, a)
    ensures BelowInv(cfg, Apply(cfg, s, step), a, m)
  {
    hide Inv, Verdict;
    var p := step.proc;
    var l := LocalOf(s, p, a);
    assert Below(l, m) && TableAt(cfg, s0, s, a, p);
    match step {
      case Start(_, _, start) =>
      case Propose(_, _) => CandidateBelow(TableOf(s0, p), l.phase.start, cfg.maxCid, m);
      case CompleteMax(_, _, next) => MaximumBelow(cfg, s0, s, a, m, p, next);
      case CompleteMin(_, _, accept) => MinimumBelow(cfg, s0, s, a, m, p, accept);
    }
    forall q ensures Below(LocalOf(Apply(cfg, s, step), q, a), m) {
      assert Below(LocalOf(s, q, a), m);
      if q != p {
        OtherTable(cfg, s, step, a, q);
      }
    }
  }

  lemma CandidateBelow(t: Table, start: nat, maxCid: nat, m: nat)
    requires start <= m < maxCid && m !in t
    ensures Candidate(t, start, maxCid) <= m
  {
  }

  lemma MaximumBelow(cfg: Config, s0: State, s: State, a: nat, m: nat, p: nat, v: nat)
    requires a < |cfg.allocs| && LeastCommonFree(cfg, s0, a, m) && Inv(cfg, s) && BelowInv(cfg, s, a, m)
    requires CanCompleteMax(cfg, s, p, a, v)
    ensures v <= m
  {
    var r := LocalOf(s, p, a).round;
    var q :| q in cfg.allocs[a].group && s.maxIn[Key(a, r, q)] == v;
    assert ActorInv(cfg, s, q, a) && ActorInv(cfg, s, p, a);
    var lq := LocalOf(s, q, a);
    assert PastMax(lq, r) && !PastMin(LocalOf(s, p, a), r);
    assert !Rejected(cfg, s, a, r);
    assert lq.round == r;
    assert Below(lq, m);
    MaxUnique(cfg, s, a, r);
  }

  lemma MinimumBelow(cfg: Config, s0: State, s: State, a: nat, m: nat, p: nat, accept: bool)
    requires a < |cfg.allocs| && LeastCommonFree(cfg, s0, a, m) && QuietInv(cfg, s0, s, a) && BelowInv(cfg, s, a, m)
    requires CanCompleteMin(cfg, s, p, a, accept)
    ensures !accept ==> LocalOf(s, p, a).phase.next < m
  {
    var l := LocalOf(s, p, a);
    assert ActorInv(cfg, s, p, a);
    assert Below(l, m);
    if !accept {
      var q :| q in cfg.allocs[a].group && !s.minIn[Key(a, l.round, q)];
      assert Verdict(cfg, s0, s, a, l.round, q);
      assert l.phase.next in TableOf(s0, q);
    }
  }

  /** Whoever finishes below maxCid holds an id that was free at every participant. */
  lemma FinishedIdWasFree(cfg: Config, s0: State, s: State, a: nat, p: nat)
    requires a < |cfg.allocs| && QuietInv(cfg, s0, s, a)
    requires LocalOf(s, p, a).phase.Done? && LocalOf(s, p, a).phase.id < cfg.maxCid
    ensures CommonFree(cfg, s0, a, LocalOf(s, p, a).phase.id)
  {
    var l := LocalOf(s, p, a);
    assert ActorInv(cfg, s, p, a);
    forall q | q in cfg.allocs[a].group ensures l.phase.id !in TableOf(s0, q) {
      assert s.minIn[Key(a, l.round, q)];
      assert Verdict(cfg, s0, s, a, l.round, q);
    }
  }

  /**
   When nobody else touches the tables, whoever finishes holds the least id that was free at
   every participant, its table has gained exactly that slot, a participant between rounds
   has the table it started with, and nobody runs out of ids.
   */
  lemma LeastIdAgreed(cfg: Config, states: seq<State>, steps: seq<Step>, a: nat, m: nat, p: nat)
    requires Quiet(cfg, states, steps, a) && LeastCommonFree(cfg, states[0], a, m)
    ensures var s := states[|steps|];
            && !LocalOf(s, p, a).phase.Failed?
            && (LocalOf(s, p, a).phase.Done? ==>
                  LocalOf(s, p, a).phase.id == m && TableOf(s, p) == TableOf(states[0], p)[m := Installed(a)])
            && (LocalOf(s, p, a).phase.Top? ==> TableOf(s, p) == TableOf(states[0], p))
  {
    var s0, s := states[0], states[|steps|];
    QuietRun(cfg, states, steps, a, |steps|);
    BelowRun(cfg, states, steps, a, m, |steps|);
    assert TableAt(cfg, s0, s, a, p) && Below(LocalOf(s, p, a), m);
    if LocalOf(s, p, a).phase.Done? {
      FinishedIdWasFree(cfg, s0, s, a, p);
    }
  }

  lemma {:induction false} LeastOf(cfg: Config, s: State, a: nat, c: nat) returns (m: nat)
    requires a < |cfg.allocs| && CommonFree(cfg, s, a, c)
    ensures LeastCommonFree(cfg, s, a, m)
  {
    if d :| 0 <= d < c && CommonFree(cfg, s, a, d) {
      m := LeastOf(cfg, s, a, d);
    } else {
      m := c;
    }
  }

  /**
   In either form, whoever finishes a quiet allocation has an id below maxCid if and only if some
   id below maxCid was free at every participant beforehand.
   */
  lemma FinishedBelowMaxCid(cfg: Config, states: seq<State>, steps: seq<Step>, a: nat, p: nat)
    requires Quiet(cfg, states, steps, a) && LocalOf(states[|steps|], p, a).phase.Done?
    ensures LocalOf(states[|steps|], p, a).phase.id < cfg.maxCid <==> exists c :: CommonFree(cfg, states[0], a, c)
  {
    QuietRun(cfg, states, steps, a, |steps|);
    if c :| CommonFree(cfg, states[0], a, c) {
      var m := LeastOf(cfg, states[0], a, c);
      LeastIdAgreed(cfg, states, steps, a, m, p);
    }
    if LocalOf(states[|steps|], p, a).phase.id < cfg.maxCid {
      FinishedIdWasFree(cfg, states[0], states[|steps|], a, p);
    }
  }

  /** Every participant has entered, none is held up by an allocation with a lower parent, and no step is possible. */
  ghost predicate Ended(cfg: Config, s: State, a: nat)
    requires a < |cfg.allocs|
  {
    && (forall q :: q in cfg.allocs[a].group ==> !LocalOf(s, q, a).phase.Idle? && Lowest(cfg, s, q, a))
    && !SomeStep(cfg, s, a)
  }

  /** With a common free id, an allocation that cannot go on has given the least one to every participant. */
  lemma AllocationCompletes(cfg: Config, states: seq<State>, steps: seq<Step>, a: nat, m: nat, p: nat)
    requires Quiet(cfg, states, steps, a) && LeastCommonFree(cfg, states[0], a, m)
    requires Ended(cfg, states[|steps|], a) && p in cfg.allocs[a].group
    ensures LocalOf(states[|steps|], p, a).phase == Done(m) && TableOf(states[|steps|], p) == TableOf(states[0], p)[m := Installed(a)]
  {
    var s := states[|steps|];
    QuietRun(cfg, states, steps, a, |steps|);
    forall q | q in cfg.allocs[a].group ensures !LocalOf(s, q, a).phase.Failed? {
      LeastIdAgreed(cfg, states, steps, a, m, q);
    }
    LeastIdAgreed(cfg, states, steps, a, m, p);
    if Registered(cfg, s, p, a) {
      LowestMoves(cfg, s, a, p);
    }
  }

  /** The two forms, run from the same tables, end with the same id and the same tables. */
  lemma FormsAgree(cfg: Config, cfg': Config, states: seq<State>, steps: seq<Step>,
                   states': seq<State>, steps': seq<Step>, a: nat, m: nat, p: nat)
    requires Quiet(cfg, states, steps, a) && Quiet(cfg', states', steps', a) && states'[0] == states[0]
    requires cfg'.maxCid == cfg.maxCid && cfg.allocs[a].mode.Blocking? && cfg'.allocs[a] == cfg.allocs[a].(mode := NonBlocking)
    requires LeastCommonFree(cfg, states[0], a, m)
    requires LocalOf(states[|steps|], p, a).phase.Done? && LocalOf(states'[|steps'|], p, a).phase.Done?
    ensures LocalOf(states'[|steps'|], p, a).phase.id == LocalOf(states[|steps|], p, a).phase.id == m
    ensures TableOf(states'[|steps'|], p) == TableOf(states[|steps|], p)
  {
    forall c: nat ensures CommonFree(cfg', states'[0], a, c) <==> CommonFree(cfg, states[0], a, c) {
    }
    LeastIdAgreed(cfg, states, steps, a, m, p);
    LeastIdAgreed(cfg', states', steps', a, m, p);
  }

  // ---------------------------------------------------------------------------------------
  // Without one, in the non-blocking form

  lemma NobodyDone(cfg: Config, states: seq<State>, steps: seq<Step>, a: nat, p: nat)
    requires Quiet(cfg, states, steps, a) && cfg.allocs[a].mode.NonBlocking? && NoCommonId(cfg, states[0], a)
    ensures !LocalOf(states[|steps|], p, a).phase.Done?
  {
    var s := states[|steps|];
    QuietRun(cfg, states, steps, a, |steps|);
    if LocalOf(s, p, a).phase.Done? {
      NonBlockingBelow(cfg, s, a, p);
      FinishedIdWasFree(cfg, states[0], s, a, p);
    }
  }

  /** The non-blocking form never ends with maxCid. */
  lemma NonBlockingBelow(cfg: Config, s: State, a: nat, p: nat)
    requires Inv(cfg, s) && a < |cfg.allocs| && cfg.allocs[a].mode.NonBlocking? && LocalOf(s, p, a).phase.Done?
    ensures LocalOf(s, p, a).phase.id < cfg.maxCid
  {
    var l := LocalOf(s, p, a);
    assert ActorInv(cfg, s, p, a);
    var w :| w in cfg.allocs[a].group && s.maxIn[Key(a, l.round, w)] == l.phase.id;
    assert ActorInv(cfg, s, w, a);
    assert MinInv(cfg, s, a, l.round, w);
  }

  lemma EarlierRejected(cfg: Config, s: State, a: nat, p: nat)
    requires a < |cfg.allocs| && Inv(cfg, s)
    ensures forall i: nat :: i < LocalOf(s, p, a).round ==> Rejected(cfg, s, a, i)
  {
    assert ActorInv(cfg, s, p, a);
  }

  /** A rejected round has been passed by everybody, and nobody finished in it. */
  lemma RejectedPast(cfg: Config, s: State, a: nat, r: nat, q: nat)
    requires Inv(cfg, s) && a < |cfg.allocs| && Rejected(cfg, s, a, r) && q in cfg.allocs[a].group
    ensures PastMin(LocalOf(s, q, a), r) && (LocalOf(s, q, a).round == r ==> LocalOf(s, q, a).phase.Checked?)
  {
    assert ActorInv(cfg, s, q, a);
  }

  /** Nobody gets past the round in which somebody gives up, and nobody stays behind it. */
  lemma SameRound(cfg: Config, s: State, a: nat, f: nat, q: nat)
    requires Inv(cfg, s) && a < |cfg.allocs| && Ended(cfg, s, a)
    requires f in cfg.allocs[a].group && LocalOf(s, f, a).phase.Failed? && q in cfg.allocs[a].group
    ensures LocalOf(s, q, a).round == LocalOf(s, f, a).round
  {
    hide TableInv, MinInv, AdvanceInv, IsMax;
    var r, lq := LocalOf(s, f, a).round, LocalOf(s, q, a);
    EarlierRejected(cfg, s, a, f);
    EarlierRejected(cfg, s, a, q);
    if lq.round > r {
      RejectedPast(cfg, s, a, r, f);
    }
    if lq.round < r {
      RejectedPast(cfg, s, a, lq.round, q);
      RejectionMoves(cfg, s, a, q);
    }
  }

  /** Everybody has contributed to that round, and its maximum is maxCid. */
  lemma GivenUpRound(cfg: Config, s: State, a: nat, f: nat)
    requires Inv(cfg, s) && a < |cfg.allocs| && cfg.allocs[a].mode.NonBlocking? && Ended(cfg, s, a)
    requires f in cfg.allocs[a].group && LocalOf(s, f, a).phase.Failed?
    ensures IsMax(cfg, s, a, LocalOf(s, f, a).round, cfg.maxCid)
  {
    hide TableInv, MinInv, AdvanceInv;
    var r := LocalOf(s, f, a).round;
    assert ActorInv(cfg, s, f, a);
    forall q | q in cfg.allocs[a].group ensures Key(a, r, q) in s.maxIn && s.maxIn[Key(a, r, q)] <= cfg.maxCid {
      SameRound(cfg, s, a, f, q);
      assert ActorInv(cfg, s, q, a);
      if LocalOf(s, q, a).phase.Top? {
        TopMoves(cfg, s, a, q);
      }
      assert PastMax(LocalOf(s, q, a), r);
    }
    assert PastMax(LocalOf(s, f, a), r) && s.maxIn[Key(a, r, f)] == cfg.maxCid;
  }

  /** Out of ids with its table as it was, or waiting for the MIN-allreduce with maxCid reserved where that was free. */
  predicate Stranded(cfg: Config, base: Table, t: Table, l: Local, a: nat, offer: nat) {
    if offer == cfg.maxCid then l.phase.Failed? && t == base
    else
      && offer < cfg.maxCid && l.phase.Checked? && l.phase.next == cfg.maxCid
      && t == if cfg.maxCid in base then base else base[cfg.maxCid := Reserved(a)]
  }

  /** The contribution of q to round r is what it had to offer. */
  ghost predicate StrandedIn(cfg: Config, s0: State, s: State, a: nat, r: nat, q: nat) {
    Key(a, r, q) in s.maxIn && Stranded(cfg, TableOf(s0, q), TableOf(s, q), LocalOf(s, q, a), a, s.maxIn[Key(a, r, q)])
  }

  lemma StrandedAt(cfg: Config, s0: State, s: State, a: nat, f: nat, q: nat)
    requires a < |cfg.allocs| && cfg.allocs[a].mode.NonBlocking? && QuietInv(cfg, s0, s, a) && Ended(cfg, s, a)
    requires f in cfg.allocs[a].group && LocalOf(s, f, a).phase.Failed? && q in cfg.allocs[a].group && !LocalOf(s, q, a).phase.Done?
    requires IsMax(cfg, s, a, LocalOf(s, f, a).round, cfg.maxCid)
    ensures StrandedIn(cfg, s0, s, a, LocalOf(s, f, a).round, q)
  {
    hide TableInv, AdvanceInv;
    var r, l := LocalOf(s, f, a).round, LocalOf(s, q, a);
    SameRound(cfg, s, a, f, q);
    assert ActorInv(cfg, s, q, a) && TableAt(cfg, s0, s, a, q);
    MaxUnique(cfg, s, a, r);
    if l.phase.Top? {
      TopMoves(cfg, s, a, q);
    } else if l.phase.Proposed? {
      MaximumMoves(cfg, s, a, q, cfg.maxCid);
    } else if l.phase.Checked? {
      assert PastMin(l, r) && MinInv(cfg, s, a, r, q);
    }
  }

  /** Unless somebody has given up or finished, an allocation that has been entered can go on. */
  lemma SomebodyGaveUp(cfg: Config, s: State, a: nat) returns (f: nat)
    requires Inv(cfg, s) && a < |cfg.allocs| && cfg.allocs[a].group != {} && Ended(cfg, s, a)
    requires forall q :: q in cfg.allocs[a].group ==> !LocalOf(s, q, a).phase.Done?
    ensures f in cfg.allocs[a].group && LocalOf(s, f, a).phase.Failed?
  {
    f :| f in cfg.allocs[a].group;
    if g :| g in cfg.allocs[a].group && LocalOf(s, g, a).phase.Failed? {
      f := g;
    } else {
      LowestMoves(cfg, s, a, f);
    }
  }

  /**
   Without a common free id, a non-blocking allocation that cannot go on has given up at exactly the
   participants that had no id to offer in the last round, at least one, and the others wait for ever,
   each with maxCid reserved if that slot was free.
   */
  lemma NonBlockingEnds(cfg: Config, states: seq<State>, steps: seq<Step>, a: nat) returns (r: nat, f: nat)
    requires Quiet(cfg, states, steps, a) && cfg.allocs[a].mode.NonBlocking? && cfg.allocs[a].group != {}
    requires NoCommonId(cfg, states[0], a) && Ended(cfg, states[|steps|], a)
    ensures f in cfg.allocs[a].group && LocalOf(states[|steps|], f, a).phase.Failed? && LocalOf(states[|steps|], f, a).round == r
    ensures forall q :: q in cfg.allocs[a].group ==> StrandedIn(cfg, states[0], states[|steps|], a, r, q)
  {
    hide Stranded, Inv, TableAt, Verdict, Ended, NoCommonId;
    var s := states[|steps|];
    QuietRun(cfg, states, steps, a, |steps|);
    forall q | q in cfg.allocs[a].group ensures !LocalOf(s, q, a).phase.Done? {
      NobodyDone(cfg, states, steps, a, q);
    }
    f := SomebodyGaveUp(cfg, s, a);
    r := LocalOf(s, f, a).round;
    GivenUpRound(cfg, s, a, f);
    forall q | q in cfg.allocs[a].group ensures StrandedIn(cfg, states[0], s, a, r, q) {
      StrandedAt(cfg, states[0], s, a, f, q);
    }
  }
}
