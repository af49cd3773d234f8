/**
 Context-id agreement (ompi/communicator/comm_cid.c) as a step relation over any number
 of processes and any number of interleaved allocations.

 Each process owns a table from context id to owner; an absent id is a NULL slot. An
 allocation repeats rounds: reserve a local candidate, MAX-allreduce it, test-and-set the
 maximum, MIN-allreduce the outcome. The two allreduces are abstract: a participant may
 read the result of a round once every member of the group has contributed to it.
 */
module CidProtocol {

  /** Whether an allocation runs the loop of ompi_comm_nextcid or the callbacks of ompi_comm_nextcid_nb. */
  datatype Mode = Blocking | NonBlocking

  /** One collective allocation: its participants, the context id of the parent communicator, its form. */
  datatype Alloc = Alloc(group: set<nat>, parent: nat, mode: Mode)

  /** maxCid is mca_pml.pml_max_contextid: usable ids are the ones below it. */
  datatype Config = Config(maxCid: nat, allocs: seq<Alloc>)

  /** What a table slot points to: an older communicator, the parent (a reservation), or the new communicator. */
  datatype Owner = Live(comm: nat) | Reserved(alloc: nat) | Installed(alloc: nat)

  type Table = map<nat, Owner>

  /** Where one process stands in one allocation. */
  datatype Phase =
    | Idle
    | Top(start: nat)
    | Proposed(start: nat, local: nat)
    | Checked(start: nat, next: nat, flag: bool)
    | Done(id: nat)
    | Failed

  datatype Local = Local(round: nat, phase: Phase)

  datatype Actor = Actor(proc: nat, alloc: nat)

  /** A contribution to an allreduce: allocation, round, contributing process. */
  datatype Key = Key(alloc: nat, round: nat, proc: nat)

  datatype State = State(
    tables: map<nat, Table>,
    locals: map<Actor, Local>,
    maxIn: map<Key, nat>,
    minIn: map<Key, bool>)

  function TableOf(s: State, p: nat): Table {
    if p in s.tables then s.tables[p] else map[]
  }

  function LocalOf(s: State, p: nat, a: nat): Local {
    if Actor(p, a) in s.locals then s.locals[Actor(p, a)] else Local(0, Idle)
  }

  /** The scan of lines 252-260: the least free id from `start` on, or maxCid when there is none. */
  function Candidate(t: Table, start: nat, maxCid: nat): (c: nat)
    ensures c <= maxCid
    ensures c < maxCid ==> start <= c && c !in t
    ensures forall i :: start <= i < c ==> i in t
    decreases maxCid - start
  {
    if start >= maxCid then maxCid
    else if start !in t then start
    else Candidate(t, start + 1, maxCid)
  }

  /**
   The parent of the allocation is on the registered list of the process. The non-blocking
   form leaves it there when it runs out of ids: no path from line 445 unregisters it.
   */
  predicate Registered(cfg: Config, s: State, p: nat, a: nat)
    requires a < |cfg.allocs|
  {
    var ph := LocalOf(s, p, a).phase;
    ph.Top? || ph.Proposed? || ph.Checked? || (ph.Failed? && cfg.allocs[a].mode.NonBlocking?)
  }

  /** ompi_comm_lowest_cid: the parent of `a` is the lowest registered context id at `p`. */
  ghost predicate Lowest(cfg: Config, s: State, p: nat, a: nat)
    requires a < |cfg.allocs|
  {
    forall b :: 0 <= b < |cfg.allocs| && Registered(cfg, s, p, b) ==> cfg.allocs[a].parent <= cfg.allocs[b].parent
  }

  /** Every member of the group has contributed to the MAX-allreduce of round r. */
  ghost predicate AllMax(cfg: Config, s: State, a: nat, r: nat)
    requires a < |cfg.allocs|
  {
    forall q :: q in cfg.allocs[a].group ==> Key(a, r, q) in s.maxIn
  }

  ghost predicate AllMin(cfg: Config, s: State, a: nat, r: nat)
    requires a < |cfg.allocs|
  {
    forall q :: q in cfg.allocs[a].group ==> Key(a, r, q) in s.minIn
  }

  /** `v` is the result of the MAX-allreduce of round r. */
  ghost predicate IsMax(cfg: Config, s: State, a: nat, r: nat, v: nat)
    requires a < |cfg.allocs|
  {
    && AllMax(cfg, s, a, r)
    && (forall q :: q in cfg.allocs[a].group ==> s.maxIn[Key(a, r, q)] <= v)
    && (exists q :: q in cfg.allocs[a].group && s.maxIn[Key(a, r, q)] == v)
  }

  /** The MIN-allreduce of round r is complete and its result is 1. */
  ghost predicate Accepted(cfg: Config, s: State, a: nat, r: nat)
    requires a < |cfg.allocs|
  {
    AllMin(cfg, s, a, r) && forall q :: q in cfg.allocs[a].group ==> s.minIn[Key(a, r, q)]
  }

  /** The MIN-allreduce of round r is complete and its result is 0. */
  ghost predicate Rejected(cfg: Config, s: State, a: nat, r: nat)
    requires a < |cfg.allocs|
  {
    AllMin(cfg, s, a, r) && exists q :: q in cfg.allocs[a].group && !s.minIn[Key(a, r, q)]
  }

  // ---------------------------------------------------------------------------------------
  // Steps

  datatype Step =
    | Start(proc: nat, alloc: nat, start: nat)
    | Propose(proc: nat, alloc: nat)
    | CompleteMax(proc: nat, alloc: nat, next: nat)
    | CompleteMin(proc: nat, alloc: nat, accept: bool)
    | Release(proc: nat, cid: nat)

  /** Registration; `start` is the table's lowest_free, below which no slot is free. */
  ghost predicate CanStart(cfg: Config, s: State, p: nat, a: nat, start: nat) {
    && a < |cfg.allocs| && p in cfg.allocs[a].group
    && LocalOf(s, p, a).phase.Idle?
    && (forall b :: 0 <= b < |cfg.allocs| && Registered(cfg, s, p, b) ==> cfg.allocs[b].parent != cfg.allocs[a].parent)
    && (forall c :: 0 <= c < start ==> c in TableOf(s, p))
  }

  ghost predicate CanPropose(cfg: Config, s: State, p: nat, a: nat) {
    && a < |cfg.allocs| && p in cfg.allocs[a].group
    && LocalOf(s, p, a).phase.Top?
    && Lowest(cfg, s, p, a)
  }

  ghost predicate CanCompleteMax(cfg: Config, s: State, p: nat, a: nat, next: nat) {
    && a < |cfg.allocs| && p in cfg.allocs[a].group
    && LocalOf(s, p, a).phase.Proposed?
    && IsMax(cfg, s, a, LocalOf(s, p, a).round, next)
  }

  ghost predicate CanCompleteMin(cfg: Config, s: State, p: nat, a: nat, accept: bool) {
    && a < |cfg.allocs| && p in cfg.allocs[a].group
    && LocalOf(s, p, a).phase.Checked?
    && (accept ==> Accepted(cfg, s, a, LocalOf(s, p, a).round))
    && (!accept ==> Rejected(cfg, s, a, LocalOf(s, p, a).round))
  }

  /** A communicator that is no reservation is freed. */
  predicate CanRelease(s: State, p: nat, c: nat) {
    c in TableOf(s, p) && !TableOf(s, p)[c].Reserved?
  }

  ghost predicate Enabled(cfg: Config, s: State, step: Step) {
    match step
    case Start(p, a, start) => CanStart(cfg, s, p, a, start)
    case Propose(p, a) => CanPropose(cfg, s, p, a)
    case CompleteMax(p, a, next) => CanCompleteMax(cfg, s, p, a, next)
    case CompleteMin(p, a, accept) => CanCompleteMin(cfg, s, p, a, accept)
    case Release(p, c) => CanRelease(s, p, c)
  }

  /** What one process does to its own table and local variables: new table, new local state. */
  datatype Effect = Effect(table: Table, local: Local)

  /** Lines 250-260 and 415-447: reserve the candidate; the non-blocking form gives up when there is none. */
  function ProposeEffect(maxCid: nat, mode: Mode, a: nat, t: Table, l: Local): Effect
    requires l.phase.Top?
  {
    var c := Candidate(t, l.phase.start, maxCid);
    Effect(if c < maxCid then t[c := Reserved(a)] else t,
           Local(l.round, if c == maxCid && mode.NonBlocking? then Failed else Proposed(l.phase.start, c)))
  }

  /** Lines 269-292 and 460-467: drop the candidate if it lost, test-and-set the maximum. */
  function MaxEffect(maxCid: nat, mode: Mode, a: nat, t: Table, l: Local, next: nat): Effect
    requires l.phase.Proposed?
  {
    var local := l.phase.local;
    if mode.Blocking? && next == maxCid && local < maxCid then
      Effect(t - {local}, Local(l.round, Failed))
    else if next == local then
      Effect(t, Local(l.round, Checked(l.phase.start, next, true)))
    else
      var t1 := t - {local};
      if next in t1 then Effect(t1, Local(l.round, Checked(l.phase.start, next, false)))
      else Effect(t1[next := Reserved(a)], Local(l.round, Checked(l.phase.start, next, true)))
  }

  /** Lines 300-317 and 490-508: install the new communicator, or undo the reservation and go round again. */
  function MinEffect(mode: Mode, a: nat, t: Table, l: Local, accept: bool): Effect
    requires l.phase.Checked?
  {
    var next := l.phase.next;
    if accept then
      Effect(t[next := Installed(a)], Local(l.round, Done(next)))
    else
      Effect(if l.phase.flag then t - {next} else t,
             Local(l.round + 1, Top(if mode.Blocking? || l.phase.flag then next + 1 else l.phase.start)))
  }

  function Update(s: State, p: nat, a: nat, e: Effect): State {
    s.(tables := s.tables[p := e.table], locals := s.locals[Actor(p, a) := e.local])
  }

  ghost function Apply(cfg: Config, s: State, step: Step): State
    requires Enabled(cfg, s, step)
  {
    match step
    case Start(p, a, start) =>
      Update(s, p, a, Effect(TableOf(s, p), Local(0, Top(start))))
    case Propose(p, a) =>
      var l := LocalOf(s, p, a);
      var e := ProposeEffect(cfg.maxCid, cfg.allocs[a].mode, a, TableOf(s, p), l);
      Update(s, p, a, e).(maxIn := s.maxIn[Key(a, l.round, p) := Candidate(TableOf(s, p), l.phase.start, cfg.maxCid)])
    case CompleteMax(p, a, next) =>
      var l := LocalOf(s, p, a);
      var e := MaxEffect(cfg.maxCid, cfg.allocs[a].mode, a, TableOf(s, p), l, next);
      if e.local.phase.Checked? then
        Update(s, p, a, e).(minIn := s.minIn[Key(a, l.round, p) := e.local.phase.flag])
      else
        Update(s, p, a, e)
    case CompleteMin(p, a, accept) =>
      Update(s, p, a, MinEffect(cfg.allocs[a].mode, a, TableOf(s, p), LocalOf(s, p, a), accept))
    case Release(p, c) =>
      s.(tables := s.tables[p := TableOf(s, p) - {c}])
  }

  /** What the steps of the protocol do to the process that takes them. */
  lemma StepEffects(cfg: Config, s: State, step: Step)
    requires Enabled(cfg, s, step) && !step.Release?
    ensures var s', p, a := Apply(cfg, s, step), step.proc, step.alloc;
            var t, l, mode := TableOf(s, p), LocalOf(s, p, a), cfg.allocs[a].mode;
            Effect(TableOf(s', p), LocalOf(s', p, a)) ==
            match step
            case Start(_, _, start) => Effect(t, Local(0, Top(start)))
            case Propose(_, _) => ProposeEffect(cfg.maxCid, mode, a, t, l)
            case CompleteMax(_, _, next) => MaxEffect(cfg.maxCid, mode, a, t, l, next)
            case CompleteMin(_, _, accept) => MinEffect(mode, a, t, l, accept)
  {
    hide IsMax, Accepted, Rejected, Lowest, Candidate;
  }

  ghost predicate Init(s: State) {
    && s.locals == map[] && s.maxIn == map[] && s.minIn == map[]
    && forall p, c :: c in TableOf(s, p) ==> TableOf(s, p)[c].Live?
  }

  predicate IsStepOf(step: Step, a: nat) {
    !step.Release? && step.alloc == a
  }

  /** A finite execution: the steps taken, one after the other, from a given state. */
  ghost predicate IsRun(cfg: Config, states: seq<State>, steps: seq<Step>) {
    && |states| == |steps| + 1
    && forall i :: 0 <= i < |steps| ==> Enabled(cfg, states[i], steps[i]) && states[i + 1] == Apply(cfg, states[i], steps[i])
  }

  // ---------------------------------------------------------------------------------------
  // The invariant

  predicate PastMax(l: Local, r: nat) {
    r < l.round || (r == l.round && (l.phase.Proposed? || l.phase.Checked? || l.phase.Done? || l.phase.Failed?))
  }

  predicate PastMin(l: Local, r: nat) {
    r < l.round || (r == l.round && (l.phase.Checked? || l.phase.Done?))
  }

  /** The process counts slot c as reserved by itself for the allocation. */
  predicate Holds(l: Local, c: nat) {
    match l.phase
    case Proposed(_, local) => c == local
    case Checked(_, next, flag) => flag && c == next
    case _ => false
  }

  predicate Owns(s: State, p: nat, c: nat, o: Owner) {
    c in TableOf(s, p) && TableOf(s, p)[c] == o
  }

  /** The contributions of process p are exactly those of the phases it has passed. */
  ghost predicate ContribInv(cfg: Config, s: State, p: nat, a: nat)
    requires a < |cfg.allocs|
  {
    var l := LocalOf(s, p, a);
    && (p !in cfg.allocs[a].group ==> l == Local(0, Idle))
    && (l.phase.Idle? ==> l.round == 0)
    && (forall r: nat :: Key(a, r, p) in s.maxIn <==> PastMax(l, r))
    && (forall r: nat :: Key(a, r, p) in s.minIn <==> PastMin(l, r))
    && (forall r: nat :: r < l.round ==> Rejected(cfg, s, a, r))
  }

  /** The table of p and the local variables of p agree about who owns what. */
  ghost predicate TableInv(cfg: Config, s: State, p: nat, a: nat)
    requires a < |cfg.allocs|
  {
    var l := LocalOf(s, p, a);
    && (forall c: nat :: c < cfg.maxCid ==> (Holds(l, c) <==> Owns(s, p, c, Reserved(a))))
    && (forall c: nat :: c < cfg.maxCid && Owns(s, p, c, Installed(a)) ==> l.phase == Done(c))
  }

  /** The local variables of p are what the allreduces returned. */
  ghost predicate ValueInv(cfg: Config, s: State, p: nat, a: nat)
    requires a < |cfg.allocs|
    requires ContribInv(cfg, s, p, a)
  {
    var l := LocalOf(s, p, a);
    match l.phase
    case Proposed(start, local) =>
      && s.maxIn[Key(a, l.round, p)] == local
      && (local < cfg.maxCid ==> start <= local)
      && (cfg.allocs[a].mode.NonBlocking? ==> local < cfg.maxCid)
    case Checked(start, next, flag) => IsMax(cfg, s, a, l.round, next) && s.minIn[Key(a, l.round, p)] == flag
    case Done(id) => IsMax(cfg, s, a, l.round, id) && Accepted(cfg, s, a, l.round)
    case Failed => cfg.allocs[a].mode.NonBlocking? ==> s.maxIn[Key(a, l.round, p)] == cfg.maxCid
    case _ => true
  }

  /** What a MIN contribution says about the MAX round before it. */
  ghost predicate MinInv(cfg: Config, s: State, a: nat, r: nat, p: nat)
    requires a < |cfg.allocs|
    requires Key(a, r, p) in s.maxIn && Key(a, r, p) in s.minIn
  {
    && AllMax(cfg, s, a, r)
    && (cfg.allocs[a].mode.Blocking? && IsMax(cfg, s, a, r, cfg.maxCid) ==>
          s.maxIn[Key(a, r, p)] == cfg.maxCid && s.minIn[Key(a, r, p)])
    && (cfg.allocs[a].mode.NonBlocking? ==> s.maxIn[Key(a, r, p)] < cfg.maxCid)
    && (IsMax(cfg, s, a, r, s.maxIn[Key(a, r, p)]) ==> s.minIn[Key(a, r, p)])
  }

  /** p goes into round r + 1 above the rejected maximum of round r. */
  ghost predicate AdvanceInv(cfg: Config, s: State, a: nat, r: nat, p: nat)
    requires a < |cfg.allocs|
    requires Key(a, r, p) in s.minIn
  {
    forall v: nat :: IsMax(cfg, s, a, r, v) && (cfg.allocs[a].mode.Blocking? || s.minIn[Key(a, r, p)]) ==>
      && (LocalOf(s, p, a).round == r + 1 && LocalOf(s, p, a).phase.Top? ==> v < LocalOf(s, p, a).phase.start)
      && (Key(a, r + 1, p) in s.maxIn ==> v < cfg.maxCid && v < s.maxIn[Key(a, r + 1, p)])
  }

  ghost predicate ActorInv(cfg: Config, s: State, p: nat, a: nat)
    requires a < |cfg.allocs|
  {
    && ContribInv(cfg, s, p, a)
    && TableInv(cfg, s, p, a)
    && ValueInv(cfg, s, p, a)
    && (forall r: nat :: Key(a, r, p) in s.maxIn ==> s.maxIn[Key(a, r, p)] <= cfg.maxCid)
    && (forall r: nat :: Key(a, r, p) in s.minIn ==> MinInv(cfg, s, a, r, p) && AdvanceInv(cfg, s, a, r, p))
  }

  ghost predicate Inv(cfg: Config, s: State) {
    && (forall p: nat, a: nat :: a < |cfg.allocs| ==> ActorInv(cfg, s, p, a))
    && (forall p: nat, c: nat :: c in TableOf(s, p) ==> OwnerKnown(cfg, TableOf(s, p)[c]))
  }

  predicate OwnerKnown(cfg: Config, o: Owner) {
    match o
    case Live(_) => true
    case Reserved(a) => a < |cfg.allocs|
    case Installed(a) => a < |cfg.allocs|
  }

  // ---------------------------------------------------------------------------------------
  // Preservation

  ghost predicate Extends(s: State, s': State) {
    && (forall k :: k in s.maxIn ==> k in s'.maxIn && s'.maxIn[k] == s.maxIn[k])
    && (forall k :: k in s.minIn ==> k in s'.minIn && s'.minIn[k] == s.minIn[k])
  }

  /** Results of completed rounds never change. */
  lemma ResultsStable(cfg: Config, s: State, s': State, a: nat, r: nat)
    requires a < |cfg.allocs| && Extends(s, s')
    ensures forall v: nat :: IsMax(cfg, s, a, r, v) ==> IsMax(cfg, s', a, r, v)
    ensures AllMax(cfg, s, a, r) ==> forall v: nat :: IsMax(cfg, s', a, r, v) ==> IsMax(cfg, s, a, r, v)
    ensures Accepted(cfg, s, a, r) ==> Accepted(cfg, s', a, r)
    ensures Rejected(cfg, s, a, r) ==> Rejected(cfg, s', a, r)
  {
  }

  /** The step neither moved (p, a) nor touched what the table of p says about a. */
  ghost predicate Untouched(cfg: Config, s: State, s': State, p: nat, a: nat) {
    && Extends(s, s')
    && LocalOf(s', p, a) == LocalOf(s, p, a)
    && (forall r: nat :: Key(a, r, p) in s'.maxIn ==> Key(a, r, p) in s.maxIn)
    && (forall r: nat :: Key(a, r, p) in s'.minIn ==> Key(a, r, p) in s.minIn)
    && (forall c: nat :: c < cfg.maxCid ==> (Owns(s', p, c, Reserved(a)) <==> Owns(s, p, c, Reserved(a))))
    && (forall c: nat :: c < cfg.maxCid && Owns(s', p, c, Installed(a)) ==> Owns(s, p, c, Installed(a)))
  }

  lemma ActorFrame(cfg: Config, s: State, s': State, p: nat, a: nat)
    requires a < |cfg.allocs| && ActorInv(cfg, s, p, a) && Untouched(cfg, s, s', p, a)
    ensures ActorInv(cfg, s', p, a)
  {
    var l := LocalOf(s, p, a);
    forall r: nat | r < l.round ensures Rejected(cfg, s', a, r) {
      ResultsStable(cfg, s, s', a, r);
    }
    ResultsStable(cfg, s, s', a, l.round);
    forall r: nat | Key(a, r, p) in s'.minIn ensures MinInv(cfg, s', a, r, p) && AdvanceInv(cfg, s', a, r, p) {
      ResultsStable(cfg, s, s', a, r);
      assert MinInv(cfg, s, a, r, p) && AdvanceInv(cfg, s, a, r, p);
    }
  }

  lemma StartInv(cfg: Config, s: State, p: nat, a: nat, start: nat)
    requires Inv(cfg, s) && CanStart(cfg, s, p, a, start)
    ensures ActorInv(cfg, Apply(cfg, s, Start(p, a, start)), p, a)
  {
    var s' := Apply(cfg, s, Start(p, a, start));
    assert ActorInv(cfg, s, p, a);
    assert TableOf(s', p) == TableOf(s, p);
    forall c: nat | c < cfg.maxCid ensures Owns(s', p, c, Reserved(a)) == Owns(s, p, c, Reserved(a)) == Holds(LocalOf(s, p, a), c) {
    }
    forall c: nat | c < cfg.maxCid ensures !Owns(s', p, c, Installed(a)) {
      assert Owns(s', p, c, Installed(a)) == Owns(s, p, c, Installed(a));
    }
    forall r: nat ensures Key(a, r, p) !in s.maxIn && Key(a, r, p) !in s.minIn {
      assert !PastMax(LocalOf(s, p, a), r) && !PastMin(LocalOf(s, p, a), r);
    }
  }

  lemma ProposeInv(cfg: Config, s: State, p: nat, a: nat)
    requires Inv(cfg, s) && CanPropose(cfg, s, p, a)
    ensures ActorInv(cfg, Apply(cfg, s, Propose(p, a)), p, a)
  {
    var s' := Apply(cfg, s, Propose(p, a));
    var l := LocalOf(s, p, a);
    assert ActorInv(cfg, s, p, a);
    assert !PastMax(l, l.round);
    assert Extends(s, s');
    forall r: nat | r < l.round ensures Rejected(cfg, s', a, r) {
      ResultsStable(cfg, s, s', a, r);
    }
    ProposeTable(cfg, s, p, a);
    forall r: nat | Key(a, r, p) in s'.minIn ensures MinInv(cfg, s', a, r, p) && AdvanceInv(cfg, s', a, r, p) {
      ResultsStable(cfg, s, s', a, r);
      assert MinInv(cfg, s, a, r, p) && AdvanceInv(cfg, s, a, r, p);
      assert PastMin(l, r);
      RejectedBelowMax(cfg, s, a, r);
      forall v: nat | IsMax(cfg, s, a, r, v) ensures v < cfg.maxCid {
        MaxInRange(cfg, s, a, r, v);
      }
    }
  }

  lemma MaxInRange(cfg: Config, s: State, a: nat, r: nat, v: nat)
    requires Inv(cfg, s) && a < |cfg.allocs| && IsMax(cfg, s, a, r, v)
    ensures v <= cfg.maxCid
  {
    var q :| q in cfg.allocs[a].group && s.maxIn[Key(a, r, q)] == v;
    assert ActorInv(cfg, s, q, a);
  }

  /** A round whose maximum is maxCid is never rejected, so nobody goes past it. */
  lemma RejectedBelowMax(cfg: Config, s: State, a: nat, r: nat)
    requires Inv(cfg, s) && a < |cfg.allocs| && Rejected(cfg, s, a, r)
    ensures AllMax(cfg, s, a, r) && !IsMax(cfg, s, a, r, cfg.maxCid)
  {
    forall q | q in cfg.allocs[a].group ensures Key(a, r, q) in s.maxIn && MinInv(cfg, s, a, r, q) {
      assert ActorInv(cfg, s, q, a);
      assert PastMin(LocalOf(s, q, a), r);
    }
  }

  lemma ProposeTable(cfg: Config, s: State, p: nat, a: nat)
    requires Inv(cfg, s) && CanPropose(cfg, s, p, a)
    ensures TableInv(cfg, Apply(cfg, s, Propose(p, a)), p, a)
  {
    var s' := Apply(cfg, s, Propose(p, a));
    var l := LocalOf(s, p, a);
    assert TableInv(cfg, s, p, a) by { assert ActorInv(cfg, s, p, a); }
    var local := Candidate(TableOf(s, p), l.phase.start, cfg.maxCid);
    forall c: nat | c < cfg.maxCid
      ensures Owns(s', p, c, Reserved(a)) <==> c == local
      ensures !Owns(s', p, c, Installed(a))
    {
      assert !Holds(l, c) && !Owns(s, p, c, Reserved(a)) && !Owns(s, p, c, Installed(a));
    }
  }

  lemma CompleteMaxInv(cfg: Config, s: State, p: nat, a: nat, next: nat)
    requires Inv(cfg, s) && CanCompleteMax(cfg, s, p, a, next)
    ensures ActorInv(cfg, Apply(cfg, s, CompleteMax(p, a, next)), p, a)
  {
    hide Apply, TableInv, MinInv, AdvanceInv, ContribInv, ValueInv, Inv;
    CompleteMaxContrib(cfg, s, p, a, next);
    CompleteMaxTable(cfg, s, p, a, next);
    CompleteMaxValue(cfg, s, p, a, next);
    CompleteMaxRounds(cfg, s, p, a, next);
  }

  lemma CompleteMaxContrib(cfg: Config, s: State, p: nat, a: nat, next: nat)
    requires Inv(cfg, s) && CanCompleteMax(cfg, s, p, a, next)
    ensures ContribInv(cfg, Apply(cfg, s, CompleteMax(p, a, next)), p, a)
  {
    hide MinInv, AdvanceInv, ValueInv, TableInv, IsMax;
    var s' := Apply(cfg, s, CompleteMax(p, a, next));
    assert ActorInv(cfg, s, p, a);
    StepExtends(cfg, s, CompleteMax(p, a, next));
    forall r: nat | r < LocalOf(s, p, a).round ensures Rejected(cfg, s', a, r) {
      ResultsStable(cfg, s, s', a, r);
    }
  }

  lemma CompleteMaxValue(cfg: Config, s: State, p: nat, a: nat, next: nat)
    requires Inv(cfg, s) && CanCompleteMax(cfg, s, p, a, next)
    requires ContribInv(cfg, Apply(cfg, s, CompleteMax(p, a, next)), p, a)
    ensures var s' := Apply(cfg, s, CompleteMax(p, a, next));
            ValueInv(cfg, s', p, a) && forall r: nat :: Key(a, r, p) in s'.maxIn ==> s'.maxIn[Key(a, r, p)] <= cfg.maxCid
  {
    hide MinInv, AdvanceInv, TableInv;
    assert ActorInv(cfg, s, p, a);
    ResultsStable(cfg, s, Apply(cfg, s, CompleteMax(p, a, next)), a, LocalOf(s, p, a).round);
  }

  lemma CompleteMaxRounds(cfg: Config, s: State, p: nat, a: nat, next: nat)
    requires Inv(cfg, s) && CanCompleteMax(cfg, s, p, a, next)
    requires ContribInv(cfg, Apply(cfg, s, CompleteMax(p, a, next)), p, a)
    ensures var s' := Apply(cfg, s, CompleteMax(p, a, next));
            forall r: nat :: Key(a, r, p) in s'.minIn ==> Key(a, r, p) in s'.maxIn && MinInv(cfg, s', a, r, p) && AdvanceInv(cfg, s', a, r, p)
  {
    hide TableInv;
    var s' := Apply(cfg, s, CompleteMax(p, a, next));
    var l := LocalOf(s, p, a);
    assert ActorInv(cfg, s, p, a);
    StepExtends(cfg, s, CompleteMax(p, a, next));
    forall r: nat | Key(a, r, p) in s'.minIn
      ensures Key(a, r, p) in s'.maxIn && MinInv(cfg, s', a, r, p) && AdvanceInv(cfg, s', a, r, p)
    {
      ResultsStable(cfg, s, s', a, r);
      if r < l.round {
        assert PastMin(l, r);
        assert MinInv(cfg, s, a, r, p) && AdvanceInv(cfg, s, a, r, p);
      } else {
        MaxUnique(cfg, s', a, r);
      }
    }
  }

  lemma MaxUnique(cfg: Config, s: State, a: nat, r: nat)
    requires a < |cfg.allocs|
    ensures forall v: nat, w: nat :: IsMax(cfg, s, a, r, v) && IsMax(cfg, s, a, r, w) ==> v == w
  {
  }

  lemma CompleteMaxTable(cfg: Config, s: State, p: nat, a: nat, next: nat)
    requires Inv(cfg, s) && CanCompleteMax(cfg, s, p, a, next)
    ensures TableInv(cfg, Apply(cfg, s, CompleteMax(p, a, next)), p, a)
  {
    var s' := Apply(cfg, s, CompleteMax(p, a, next));
    var l, l' := LocalOf(s, p, a), LocalOf(s', p, a);
    assert ActorInv(cfg, s, p, a);
    forall c: nat | c < cfg.maxCid
      ensures Owns(s', p, c, Reserved(a)) <==> Holds(l', c)
      ensures !Owns(s', p, c, Installed(a))
    {
      assert Owns(s, p, c, Reserved(a)) <==> Holds(l, c);
      assert !Owns(s, p, c, Installed(a));
    }
  }

  lemma CompleteMinInv(cfg: Config, s: State, p: nat, a: nat, accept: bool)
    requires Inv(cfg, s) && CanCompleteMin(cfg, s, p, a, accept)
    ensures ActorInv(cfg, Apply(cfg, s, CompleteMin(p, a, accept)), p, a)
  {
    hide Apply, TableInv, MinInv, AdvanceInv, ContribInv, ValueInv, Inv;
    CompleteMinContrib(cfg, s, p, a, accept);
    CompleteMinTable(cfg, s, p, a, accept);
    CompleteMinValue(cfg, s, p, a, accept);
    CompleteMinRounds(cfg, s, p, a, accept);
  }

  lemma CompleteMinContrib(cfg: Config, s: State, p: nat, a: nat, accept: bool)
    requires Inv(cfg, s) && CanCompleteMin(cfg, s, p, a, accept)
    ensures ContribInv(cfg, Apply(cfg, s, CompleteMin(p, a, accept)), p, a)
  {
    hide MinInv, AdvanceInv, ValueInv, TableInv, IsMax;
    var s' := Apply(cfg, s, CompleteMin(p, a, accept));
    var l, l' := LocalOf(s, p, a), LocalOf(s', p, a);
    assert ActorInv(cfg, s, p, a);
    forall r: nat | r < l'.round ensures Rejected(cfg, s', a, r) {
      ResultsStable(cfg, s, s', a, r);
    }
    forall r: nat ensures PastMax(l, r) == PastMax(l', r) && PastMin(l, r) == PastMin(l', r) {
    }
  }

  lemma CompleteMinValue(cfg: Config, s: State, p: nat, a: nat, accept: bool)
    requires Inv(cfg, s) && CanCompleteMin(cfg, s, p, a, accept)
    requires ContribInv(cfg, Apply(cfg, s, CompleteMin(p, a, accept)), p, a)
    ensures var s' := Apply(cfg, s, CompleteMin(p, a, accept));
            ValueInv(cfg, s', p, a) && forall r: nat :: Key(a, r, p) in s'.maxIn ==> s'.maxIn[Key(a, r, p)] <= cfg.maxCid
  {
    hide MinInv, AdvanceInv, TableInv;
    assert ActorInv(cfg, s, p, a);
    ResultsStable(cfg, s, Apply(cfg, s, CompleteMin(p, a, accept)), a, LocalOf(s, p, a).round);
  }

  lemma CompleteMinRounds(cfg: Config, s: State, p: nat, a: nat, accept: bool)
    requires Inv(cfg, s) && CanCompleteMin(cfg, s, p, a, accept)
    requires ContribInv(cfg, Apply(cfg, s, CompleteMin(p, a, accept)), p, a)
    ensures var s' := Apply(cfg, s, CompleteMin(p, a, accept));
            forall r: nat :: Key(a, r, p) in s'.minIn ==> Key(a, r, p) in s'.maxIn && MinInv(cfg, s', a, r, p) && AdvanceInv(cfg, s', a, r, p)
  {
    hide TableInv;
    var s' := Apply(cfg, s, CompleteMin(p, a, accept));
    var l := LocalOf(s, p, a);
    assert ActorInv(cfg, s, p, a);
    forall r: nat | Key(a, r, p) in s'.minIn
      ensures Key(a, r, p) in s'.maxIn && MinInv(cfg, s', a, r, p) && AdvanceInv(cfg, s', a, r, p)
    {
      ResultsStable(cfg, s, s', a, r);
      assert PastMin(l, r);
      assert MinInv(cfg, s, a, r, p) && AdvanceInv(cfg, s, a, r, p);
      MaxUnique(cfg, s', a, r);
    }
  }

  lemma CompleteMinTable(cfg: Config, s: State, p: nat, a: nat, accept: bool)
    requires Inv(cfg, s) && CanCompleteMin(cfg, s, p, a, accept)
    ensures TableInv(cfg, Apply(cfg, s, CompleteMin(p, a, accept)), p, a)
  {
    var s' := Apply(cfg, s, CompleteMin(p, a, accept));
    var l, l' := LocalOf(s, p, a), LocalOf(s', p, a);
    assert ActorInv(cfg, s, p, a);
    if accept && l.phase.next < cfg.maxCid {
      assert s.minIn[Key(a, l.round, p)];
      assert Holds(l, l.phase.next);
    }
    forall c: nat | c < cfg.maxCid
      ensures Owns(s', p, c, Reserved(a)) <==> Holds(l', c)
      ensures Owns(s', p, c, Installed(a)) ==> l'.phase == Done(c)
    {
      assert Owns(s, p, c, Reserved(a)) <==> Holds(l, c);
      assert !Owns(s, p, c, Installed(a));
    }
  }

  /** A step of (p, a) takes only free slots and slots that a itself had reserved at p. */
  lemma OnlyOwnSlots(cfg: Config, s: State, step: Step, p: nat, c: nat)
    requires Inv(cfg, s) && Enabled(cfg, s, step) && c < cfg.maxCid
    requires !step.Release?
    requires step.proc != p || (c in TableOf(s, p) && TableOf(s, p)[c] != Reserved(step.alloc))
    ensures c in TableOf(Apply(cfg, s, step), p) <==> c in TableOf(s, p)
    ensures c in TableOf(s, p) ==> TableOf(Apply(cfg, s, step), p)[c] == TableOf(s, p)[c]
  {
    if step.proc == p {
      var a := step.alloc;
      assert ActorInv(cfg, s, p, a);
      assert Holds(LocalOf(s, p, a), c) <==> Owns(s, p, c, Reserved(a));
    }
  }

  lemma InitInv(cfg: Config, s: State)
    requires Init(s)
    ensures Inv(cfg, s)
  {
    forall p: nat, a: nat | a < |cfg.allocs| ensures ActorInv(cfg, s, p, a) {
      forall c: nat | c in TableOf(s, p) ensures TableOf(s, p)[c].Live? {
      }
    }
  }

  /** Every step keeps the invariant, whoever takes it. */
  lemma StepInv(cfg: Config, s: State, step: Step)
    requires Inv(cfg, s) && Enabled(cfg, s, step)
    ensures Inv(cfg, Apply(cfg, s, step))
  {
    var s' := Apply(cfg, s, step);
    forall p: nat, a: nat | a < |cfg.allocs| ensures ActorInv(cfg, s', p, a) {
      assert ActorInv(cfg, s, p, a);
      if !step.Release? && p == step.proc && a == step.alloc {
        match step {
          case Start(_, _, start) => StartInv(cfg, s, p, a, start);
          case Propose(_, _) => ProposeInv(cfg, s, p, a);
          case CompleteMax(_, _, next) => CompleteMaxInv(cfg, s, p, a, next);
          case CompleteMin(_, _, accept) => CompleteMinInv(cfg, s, p, a, accept);
        }
      } else {
        StepUntouched(cfg, s, step, p, a);
        ActorFrame(cfg, s, s', p, a);
      }
    }
    StepOwners(cfg, s, step);
  }

  /** Contributions are never withdrawn or changed. */
  lemma StepExtends(cfg: Config, s: State, step: Step)
    requires Inv(cfg, s) && Enabled(cfg, s, step)
    ensures Extends(s, Apply(cfg, s, step))
  {
    hide MinInv, AdvanceInv, ValueInv, TableInv, IsMax, Accepted, Rejected, Candidate, Lowest;
    if !step.Release? {
      assert ActorInv(cfg, s, step.proc, step.alloc);
      var l := LocalOf(s, step.proc, step.alloc);
      assert l.phase.Top? ==> !PastMax(l, l.round);
      assert l.phase.Proposed? ==> !PastMin(l, l.round);
    }
  }

  lemma StepUntouched(cfg: Config, s: State, step: Step, p: nat, a: nat)
    requires Inv(cfg, s) && Enabled(cfg, s, step) && a < |cfg.allocs|
    requires step.Release? || p != step.proc || a != step.alloc
    ensures Untouched(cfg, s, Apply(cfg, s, step), p, a)
  {
    hide Inv, Enabled, Owns, Extends;
    StepExtends(cfg, s, step);
    LocalUntouched(cfg, s, step, p, a);
    var s' := Apply(cfg, s, step);
    hide Apply;
    forall c: nat | c < cfg.maxCid
      ensures Owns(s', p, c, Reserved(a)) <==> Owns(s, p, c, Reserved(a))
      ensures Owns(s', p, c, Installed(a)) ==> Owns(s, p, c, Installed(a))
    {
      SlotUntouched(cfg, s, step, p, a, c);
    }
  }

  lemma LocalUntouched(cfg: Config, s: State, step: Step, p: nat, a: nat)
    requires Enabled(cfg, s, step) && (step.Release? || p != step.proc || a != step.alloc)
    ensures LocalOf(Apply(cfg, s, step), p, a) == LocalOf(s, p, a)
    ensures forall r: nat :: Key(a, r, p) in Apply(cfg, s, step).maxIn <==> Key(a, r, p) in s.maxIn
    ensures forall r: nat :: Key(a, r, p) in Apply(cfg, s, step).minIn <==> Key(a, r, p) in s.minIn
  {
    hide IsMax, Accepted, Rejected, Lowest, Candidate;
  }

  lemma SlotUntouched(cfg: Config, s: State, step: Step, p: nat, a: nat, c: nat)
    requires Inv(cfg, s) && Enabled(cfg, s, step) && a < |cfg.allocs| && c < cfg.maxCid
    requires step.Release? || p != step.proc || a != step.alloc
    ensures Owns(Apply(cfg, s, step), p, c, Reserved(a)) <==> Owns(s, p, c, Reserved(a))
    ensures Owns(Apply(cfg, s, step), p, c, Installed(a)) ==> Owns(s, p, c, Installed(a))
  {
    hide Inv, IsMax, Accepted, Rejected, Lowest, Candidate;
    if !step.Release? {
      if step.proc != p || (c in TableOf(s, p) && TableOf(s, p)[c] != Reserved(step.alloc)) {
        OnlyOwnSlots(cfg, s, step, p, c);
      }
    }
  }

  lemma StepOwners(cfg: Config, s: State, step: Step)
    requires Inv(cfg, s) && Enabled(cfg, s, step)
    ensures forall p: nat, c: nat :: c in TableOf(Apply(cfg, s, step), p) ==>
              OwnerKnown(cfg, TableOf(Apply(cfg, s, step), p)[c])
  {
    hide ActorInv, IsMax, Accepted, Rejected, Lowest, Candidate;
    var s' := Apply(cfg, s, step);
    forall p: nat, c: nat | c in TableOf(s', p) ensures OwnerKnown(cfg, TableOf(s', p)[c]) {
      assert c in TableOf(s, p) ==> OwnerKnown(cfg, TableOf(s, p)[c]);
    }
  }

  lemma {:induction false} RunInv(cfg: Config, states: seq<State>, steps: seq<Step>, i: nat)
    requires IsRun(cfg, states, steps) && Init(states[0]) && i < |states|
    ensures Inv(cfg, states[i])
  {
    if i == 0 {
      InitInv(cfg, states[0]);
    } else {
      RunInv(cfg, states, steps, i - 1);
      assert Enabled(cfg, states[i - 1], steps[i - 1]);
      StepInv(cfg, states[i - 1], steps[i - 1]);
    }
  }
}
