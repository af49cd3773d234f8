/**
 A non-blocking context-id allocation when no id is free at all participants. A participant whose
 own table refuses the maximum of a round starts the next one where it started before, so it offers
 the same id again; the rounds, who gives up, and who waits for ever follow from the tables alone.
 */
module CidRetry {
  import opened CidProtocol
  import opened CidTheorems
  import opened CidQuiet
  import opened CidExhaustion

  ghost predicate Retrying(cfg: Config, a: nat) {
    a < |cfg.allocs| && cfg.allocs[a].group != {} && cfg.allocs[a].mode.NonBlocking?
  }

  /** v is the largest offer of the group in round r. */
  ghost predicate IsTopAt(cfg: Config, s0: State, a: nat, r: nat, v: nat)
    requires Retrying(cfg, a)
    decreases r, 1
  {
    && (forall p :: p in cfg.allocs[a].group ==> OfferIn(cfg, s0, a, r, p) <= v)
    && (exists p :: p in cfg.allocs[a].group && OfferIn(cfg, s0, a, r, p) == v)
  }

  /** What process p offers in round r, as long as every round before it was rejected. */
  ghost function OfferIn(cfg: Config, s0: State, a: nat, r: nat, p: nat): nat
    requires Retrying(cfg, a)
    decreases r, 0
  {
    if r == 0 then Offer(cfg, s0, p, 0)
    else
      var v := TopIn(cfg, s0, a, r - 1);
      if v !in TableOf(s0, p) then Offer(cfg, s0, p, v + 1) else OfferIn(cfg, s0, a, r - 1, p)
  }

  /** The maximum of round r. */
  ghost function TopIn(cfg: Config, s0: State, a: nat, r: nat): (v: nat)
    requires Retrying(cfg, a)
    ensures IsTopAt(cfg, s0, a, r, v)
    decreases r, 2
  {
    assert exists v: nat :: IsTopAt(cfg, s0, a, r, v) by {
      var q := TopOfferer(cfg, s0, a, r, cfg.allocs[a].group);
      assert IsTopAt(cfg, s0, a, r, OfferIn(cfg, s0, a, r, q));
    }
    var v: nat :| IsTopAt(cfg, s0, a, r, v);
    v
  }

  lemma TopOfferer(cfg: Config, s0: State, a: nat, r: nat, g: set<nat>) returns (q: nat)
    requires Retrying(cfg, a) && g != {}
    ensures q in g && forall p :: p in g ==> OfferIn(cfg, s0, a, r, p) <= OfferIn(cfg, s0, a, r, q)
    decreases r, 1, g
  {
    hide OfferIn;
    q :| q in g;
    if o :| o in g && o != q {
      assert o in g - {q};
      var p := TopOfferer(cfg, s0, a, r, g - {q});
      if OfferIn(cfg, s0, a, r, q) < OfferIn(cfg, s0, a, r, p) {
        q := p;
      }
    }
  }

  /** In round r somebody has run out of ids, and nobody had before. */
  ghost predicate IsLast(cfg: Config, s0: State, a: nat, r: nat)
    requires Retrying(cfg, a)
  {
    TopIn(cfg, s0, a, r) == cfg.maxCid && forall i: nat :: i < r ==> TopIn(cfg, s0, a, i) < cfg.maxCid
  }

  // ---------------------------------------------------------------------------------------
  // The rounds follow the tables

  /** Contributions are the offers of the round, and the search of every participant is where its next offer is. */
  ghost predicate RetryInv(cfg: Config, s0: State, s: State, a: nat)
    requires Retrying(cfg, a)
  {
    && (forall r: nat, p :: Key(a, r, p) in s.maxIn ==> s.maxIn[Key(a, r, p)] == OfferIn(cfg, s0, a, r, p))
    && (forall p :: OnCourse(cfg, s0, s, a, p))
  }

  ghost predicate OnCourse(cfg: Config, s0: State, s: State, a: nat, p: nat)
    requires Retrying(cfg, a)
  {
    var l := LocalOf(s, p, a);
    l.phase.Top? || l.phase.Proposed? || l.phase.Checked? ==> Offer(cfg, s0, p, l.phase.start) == OfferIn(cfg, s0, a, l.round, p)
  }

  /** The maximum of a complete round is the largest offer. */
  lemma MaxIsTopIn(cfg: Config, s0: State, s: State, a: nat, r: nat, v: nat)
    requires Retrying(cfg, a) && RetryInv(cfg, s0, s, a) && IsMax(cfg, s, a, r, v)
    ensures v == TopIn(cfg, s0, a, r)
  {
    hide OfferIn, OnCourse;
    var w := TopIn(cfg, s0, a, r);
    var p :| p in cfg.allocs[a].group && OfferIn(cfg, s0, a, r, p) == w;
    var q :| q in cfg.allocs[a].group && s.maxIn[Key(a, r, q)] == v;
    assert s.maxIn[Key(a, r, p)] == w && OfferIn(cfg, s0, a, r, q) == v;
  }

  lemma {:induction false} RetryRun(cfg: Config, states: seq<State>, steps: seq<Step>, a: nat, i: nat)
    requires Quiet(cfg, states, steps, a) && Retrying(cfg, a) && i < |states|
    ensures RetryInv(cfg, states[0], states[i], a)
  {
    hide Offer, OfferIn;
    if i == 0 {
      QuietStart(cfg, states, steps, a);
    } else {
      RetryRun(cfg, states, steps, a, i - 1);
      QuietRun(cfg, states, steps, a, i - 1);
      assert Enabled(cfg, states[i - 1], steps[i - 1]);
      RetryStep(cfg, states[0], states[i - 1], steps[i - 1], a);
    }
  }

  lemma RetryStep(cfg: Config, s0: State, s: State, step: Step, a: nat)
    requires Retrying(cfg, a) && QuietInv(cfg, s0, s, a) && RetryInv(cfg, s0, s, a) && Enabled(cfg, s, step) && IsStepOf(step, a)
    ensures RetryInv(cfg, s0, Apply(cfg, s, step), a)
  {
    hide Offer, OfferIn, Inv, TableIs, Verdict;
    var s' := Apply(cfg, s, step);
    forall r: nat, p | Key(a, r, p) in s'.maxIn ensures s'.maxIn[Key(a, r, p)] == OfferIn(cfg, s0, a, r, p) {
      if Key(a, r, p) !in s.maxIn || s'.maxIn[Key(a, r, p)] != s.maxIn[Key(a, r, p)] {
        assert OnCourse(cfg, s0, s, a, p) && step == Propose(p, a);
        OfferMade(cfg, s0, s, a, p);
      }
    }
    forall p ensures OnCourse(cfg, s0, s', a, p) {
      assert OnCourse(cfg, s0, s, a, p);
      CourseStep(cfg, s0, s, step, a, p);
    }
  }

  lemma OfferMade(cfg: Config, s0: State, s: State, a: nat, p: nat)
    requires a < |cfg.allocs| && QuietInv(cfg, s0, s, a) && LocalOf(s, p, a).phase.Top?
    ensures Candidate(TableOf(s, p), LocalOf(s, p, a).phase.start, cfg.maxCid) == Offer(cfg, s0, p, LocalOf(s, p, a).phase.start)
  {
    assert TableAt(cfg, s0, s, a, p);
  }

  lemma CourseStep(cfg: Config, s0: State, s: State, step: Step, a: nat, p: nat)
    requires Retrying(cfg, a) && QuietInv(cfg, s0, s, a) && RetryInv(cfg, s0, s, a) && Enabled(cfg, s, step) && IsStepOf(step, a)
    requires OnCourse(cfg, s0, s, a, p)
    ensures OnCourse(cfg, s0, Apply(cfg, s, step), a, p)
  {
    hide OfferIn, Offer, TableIs, Verdict, Inv, Apply, Candidate, IsMax, Accepted, Rejected, Lowest;
    if step.proc != p {
      LocalUntouched(cfg, s, step, p, a);
    } else {
      StepEffects(cfg, s, step);
      match step {
        case Start(_, _, start) => FirstOffer(cfg, s0, s, a, p, start);
        case Propose(_, _) =>
        case CompleteMax(_, _, _) =>
        case CompleteMin(_, _, accept) =>
          if !accept {
            NextOffer(cfg, s0, s, a, p);
          }
      }
    }
  }

  lemma FirstOffer(cfg: Config, s0: State, s: State, a: nat, p: nat, start: nat)
    requires Retrying(cfg, a) && QuietInv(cfg, s0, s, a) && CanStart(cfg, s, p, a, start)
    ensures Offer(cfg, s0, p, start) == OfferIn(cfg, s0, a, 0, p)
  {
    hide Inv, IsMax;
    assert TableAt(cfg, s0, s, a, p);
    OfferSkips(TableOf(s0, p), start, cfg.maxCid, 0);
  }

  /** After a rejection: above the maximum if the own table had room for it, and otherwise the same offer again. */
  lemma NextOffer(cfg: Config, s0: State, s: State, a: nat, p: nat)
    requires Retrying(cfg, a) && QuietInv(cfg, s0, s, a) && RetryInv(cfg, s0, s, a) && CanCompleteMin(cfg, s, p, a, false)
    ensures var l := LocalOf(s, p, a);
            Offer(cfg, s0, p, if l.phase.flag then l.phase.next + 1 else l.phase.start) == OfferIn(cfg, s0, a, l.round + 1, p)
  {
    hide Offer, Verdict;
    var l := LocalOf(s, p, a);
    assert ActorInv(cfg, s, p, a) && TableAt(cfg, s0, s, a, p) && OnCourse(cfg, s0, s, a, p);
    MaxIsTopIn(cfg, s0, s, a, l.round, l.phase.next);
  }

  /**
   In a quiet run, a participant that answered 0 in a round proposes the same id again in the next
   one; a participant that answered 1 proposes its least free id above the rejected maximum.
   */
  lemma SameIdAgain(cfg: Config, states: seq<State>, steps: seq<Step>, a: nat, p: nat, r: nat)
    requires Quiet(cfg, states, steps, a) && Retrying(cfg, a)
    requires var s := states[|steps|]; Key(a, r, p) in s.minIn && Key(a, r + 1, p) in s.maxIn
    ensures var s := states[|steps|];
            && Key(a, r, p) in s.maxIn
            && (!s.minIn[Key(a, r, p)] ==> s.maxIn[Key(a, r + 1, p)] == s.maxIn[Key(a, r, p)])
            && (s.minIn[Key(a, r, p)] ==> forall v: nat :: IsMax(cfg, s, a, r, v) ==>
                  s.maxIn[Key(a, r + 1, p)] == Candidate(TableOf(states[0], p), v + 1, cfg.maxCid))
  {
    hide TableIs, TableInv, Candidate;
    var s0, s := states[0], states[|steps|];
    QuietRun(cfg, states, steps, a, |steps|);
    RetryRun(cfg, states, steps, a, |steps|);
    assert ActorInv(cfg, s, p, a) && Verdict(cfg, s0, s, a, r, p);
    assert PastMax(LocalOf(s, p, a), r + 1) && PastMin(LocalOf(s, p, a), r);
    assert MinInv(cfg, s, a, r, p) && Rejected(cfg, s, a, r);
    BelowMaxCid(cfg, s, a, r);
    var v := MaxExists(cfg, s, a, r);
    MaxIsTopIn(cfg, s0, s, a, r, v);
  }

  /** In a rejected round nobody was out of ids. */
  lemma BelowMaxCid(cfg: Config, s: State, a: nat, r: nat)
    requires Inv(cfg, s) && Retrying(cfg, a) && Rejected(cfg, s, a, r)
    ensures forall v: nat :: IsMax(cfg, s, a, r, v) ==> v < cfg.maxCid
  {
    forall v: nat | IsMax(cfg, s, a, r, v) ensures v < cfg.maxCid {
      MaxInRange(cfg, s, a, r, v);
      RejectedBelowMax(cfg, s, a, r);
    }
  }

  // ---------------------------------------------------------------------------------------
  // The outcome

  lemma {:induction false} OfferedIsFree(cfg: Config, s0: State, a: nat, r: nat, p: nat)
    requires Retrying(cfg, a)
    ensures OfferIn(cfg, s0, a, r, p) <= cfg.maxCid
    ensures OfferIn(cfg, s0, a, r, p) < cfg.maxCid ==> OfferIn(cfg, s0, a, r, p) !in TableOf(s0, p)
  {
    if r > 0 {
      OfferedIsFree(cfg, s0, a, r - 1, p);
    }
  }

  /** Whoever offered the maximum goes above it, so the maximum rises. */
  lemma TopInRises(cfg: Config, s0: State, a: nat, r: nat)
    requires Retrying(cfg, a) && TopIn(cfg, s0, a, r) < cfg.maxCid
    ensures TopIn(cfg, s0, a, r) < TopIn(cfg, s0, a, r + 1) <= cfg.maxCid
  {
    hide Candidate;
    var v, w := TopIn(cfg, s0, a, r), TopIn(cfg, s0, a, r + 1);
    var q :| q in cfg.allocs[a].group && OfferIn(cfg, s0, a, r, q) == v;
    OfferedIsFree(cfg, s0, a, r, q);
    assert OfferIn(cfg, s0, a, r + 1, q) == Offer(cfg, s0, q, v + 1);
    var o :| o in cfg.allocs[a].group && OfferIn(cfg, s0, a, r + 1, o) == w;
    OfferedIsFree(cfg, s0, a, r + 1, o);
  }

  /** The tables have a last round, and only one. */
  lemma LastRoundOf(cfg: Config, s0: State, a: nat) returns (r: nat)
    requires Retrying(cfg, a)
    ensures IsLast(cfg, s0, a, r) && r <= cfg.maxCid
    ensures forall i: nat :: IsLast(cfg, s0, a, i) ==> i == r
  {
    hide OfferIn, IsTopAt;
    r := 0;
    FirstTop(cfg, s0, a);
    while TopIn(cfg, s0, a, r) < cfg.maxCid
      invariant r <= TopIn(cfg, s0, a, r) <= cfg.maxCid && forall i: nat :: i < r ==> TopIn(cfg, s0, a, i) < cfg.maxCid
      decreases cfg.maxCid - TopIn(cfg, s0, a, r)
    {
      TopInRises(cfg, s0, a, r);
      r := r + 1;
    }
  }

  lemma FirstTop(cfg: Config, s0: State, a: nat)
    requires Retrying(cfg, a)
    ensures TopIn(cfg, s0, a, 0) <= cfg.maxCid
  {
    var q :| q in cfg.allocs[a].group && OfferIn(cfg, s0, a, 0, q) == TopIn(cfg, s0, a, 0);
    OfferedIsFree(cfg, s0, a, 0, q);
  }

  /**
   Without a common free id, a non-blocking allocation that cannot go on is in the last round of the
   tables. Those whose offer is maxCid there have given up, with the table as before; the others wait
   for ever, with maxCid reserved where it was free.
   */
  lemma RetryEnds(cfg: Config, states: seq<State>, steps: seq<Step>, a: nat, r: nat)
    requires Quiet(cfg, states, steps, a) && Retrying(cfg, a) && NoCommonId(cfg, states[0], a)
    requires Ended(cfg, states[|steps|], a) && IsLast(cfg, states[0], a, r)
    ensures forall q :: q in cfg.allocs[a].group ==>
              Stranded(cfg, TableOf(states[0], q), TableOf(states[|steps|], q), LocalOf(states[|steps|], q, a), a, OfferIn(cfg, states[0], a, r, q))
  {
    hide OfferIn, Offer, Stranded, Inv, NoCommonId, Ended, TableAt, Verdict;
    var s0, s := states[0], states[|steps|];
    var n, f := NonBlockingEnds(cfg, states, steps, a);
    QuietRun(cfg, states, steps, a, |steps|);
    RetryRun(cfg, states, steps, a, |steps|);
    assert StrandedIn(cfg, s0, s, a, n, f);
    GivenUpRound(cfg, s, a, f);
    MaxIsTopIn(cfg, s0, s, a, n, cfg.maxCid);
    EarlierRejected(cfg, s, a, f);
    forall i: nat | i < n ensures TopIn(cfg, s0, a, i) < cfg.maxCid {
      assert Rejected(cfg, s, a, i);
      BelowMaxCid(cfg, s, a, i);
      RejectedBelowMax(cfg, s, a, i);
      var v := MaxExists(cfg, s, a, i);
      MaxIsTopIn(cfg, s0, s, a, i, v);
    }
    assert n == r;
    forall q | q in cfg.allocs[a].group ensures s.maxIn[Key(a, r, q)] == OfferIn(cfg, s0, a, r, q) && StrandedIn(cfg, s0, s, a, r, q) {
      assert StrandedIn(cfg, s0, s, a, n, q);
    }
  }

  /** Two processes and three ids: process 0 has only id 1 free, process 1 only id 2. */
  const PairOfThree: Config := Config(3, [Alloc({0, 1}, 0, NonBlocking)])

  const OneEach: State := State(map[0 := map[0 := Live(0), 2 := Live(0)], 1 := map[0 := Live(0), 1 := Live(0)]], map[], map[], map[])

  /**
   Process 0 refuses id 2 and offers id 1 a second time; process 1 has no other, gives up, and leaves it
   waiting. From the same tables the blocking form runs out of ids at both, and ends with maxCid.
   */
  lemma OneRetries()
    ensures Init(OneEach) && NoCommonId(PairOfThree, OneEach, 0) && Retrying(PairOfThree, 0)
    ensures OfferIn(PairOfThree, OneEach, 0, 0, 0) == 1 && OfferIn(PairOfThree, OneEach, 0, 0, 1) == 2
    ensures OfferIn(PairOfThree, OneEach, 0, 1, 0) == 1 && OfferIn(PairOfThree, OneEach, 0, 1, 1) == 3
    ensures IsLast(PairOfThree, OneEach, 0, 1)
    ensures Together(Pair(3), OneEach, 0, 0)
  {
    hide Candidate, Together;
    var cfg := PairOfThree;
    OneEachOffers();
    PairDecided(Pair(3), OneEach, 2);
    assert 0 in cfg.allocs[0].group && 1 in cfg.allocs[0].group;
    TwoTop(cfg, OneEach, 0);
    TwoTop(cfg, OneEach, 1);
    forall c: nat ensures !CommonFree(cfg, OneEach, 0, c) {
    }
  }

  lemma OneEachOffers()
    ensures Offer(PairOfThree, OneEach, 0, 0) == 1 && Offer(PairOfThree, OneEach, 1, 0) == 2
    ensures Offer(PairOfThree, OneEach, 0, 3) == Offer(PairOfThree, OneEach, 1, 3) == 3
  {
    hide Candidate;
    var c, d := Candidate(TableOf(OneEach, 0), 0, 3), Candidate(TableOf(OneEach, 1), 0, 3);
    assert 1 !in TableOf(OneEach, 0) && 2 !in TableOf(OneEach, 1);
  }

  lemma TwoTop(cfg: Config, s0: State, r: nat)
    requires cfg == PairOfThree
    ensures TopIn(cfg, s0, 0, r) == if OfferIn(cfg, s0, 0, r, 0) < OfferIn(cfg, s0, 0, r, 1) then OfferIn(cfg, s0, 0, r, 1) else OfferIn(cfg, s0, 0, r, 0)
  {
    hide OfferIn;
    assert IsTopAt(cfg, s0, 0, r, TopIn(cfg, s0, 0, r));
    assert 0 in cfg.allocs[0].group && 1 in cfg.allocs[0].group;
  }
}
