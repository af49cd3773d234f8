/**
 The table of communicators that every process keeps: opal/class/opal_pointer_array.c.
 */
module PointerArray {
  import opened CidProtocol

  datatype Slot = Null | Ptr(owner: Owner)

  const TableGrow: nat := 2

  /** The size that grow_table picks for an index beyond the end, unless it refuses to grow. */
  datatype Growth = Refused | NewSize(size: nat)

  function Grown(index: nat, maxSize: nat): Growth {
    var soft := (index / TableGrow + 1) * TableGrow;
    var size := if soft > maxSize then index else soft;
    if (soft > maxSize && index > maxSize) || size >= maxSize then Refused else NewSize(size)
  }

  /** The table can grow to hold the index. */
  predicate Fits(index: nat, maxSize: nat) {
    (index / TableGrow + 1) * TableGrow < maxSize
  }

  /** The one index for which the table grows and still does not hold it. */
  predicate Overruns(index: nat, maxSize: nat) {
    index % 2 == 0 && index + 1 == maxSize
  }

  /** Growing makes room exactly for the indices that fit, is refused for all others, and overruns for one. */
  lemma GrowthMakesRoom(index: nat, maxSize: nat)
    ensures Fits(index, maxSize) <==> Grown(index, maxSize).NewSize? && index < Grown(index, maxSize).size
    ensures Overruns(index, maxSize) <==> Grown(index, maxSize).NewSize? && Grown(index, maxSize).size <= index
  {
  }

  /** The new size is beyond every index below. */
  lemma GrownSize(index: nat, maxSize: nat, size: nat)
    requires Grown(index, maxSize) == NewSize(size)
    ensures index <= size
  {
  }

  function FreeSlots(slots: seq<Slot>): nat {
    if slots == [] then 0 else FreeSlots(slots[..|slots| - 1]) + Weight(slots[|slots| - 1])
  }

  function Weight(s: Slot): nat {
    if s.Null? then 1 else 0
  }

  lemma {:induction false} FreeSlotsUpdate(slots: seq<Slot>, i: nat, v: Slot)
    requires i < |slots|
    ensures FreeSlots(slots[i := v]) == FreeSlots(slots) - Weight(slots[i]) + Weight(v)
    ensures FreeSlots(slots) >= Weight(slots[i])
  {
    var n := |slots| - 1;
    if i < n {
      FreeSlotsUpdate(slots[..n], i, v);
      assert slots[i := v][..n] == slots[..n][i := v];
    } else {
      assert slots[i := v][..n] == slots[..n];
    }
  }

  lemma {:induction false} FreeSlotsExtend(slots: seq<Slot>, k: nat)
    ensures FreeSlots(slots + seq(k, _ => Null)) == FreeSlots(slots) + k
  {
    var longer := slots + seq(k, _ => Null);
    if k == 0 {
      assert longer == slots;
    } else {
      FreeSlotsExtend(slots, k - 1);
      assert longer[..|longer| - 1] == slots + seq(k - 1, _ => Null);
    }
  }

  /** The slots in use. */
  ghost function View(slots: seq<Slot>): (t: Table)
    ensures forall c: nat :: c in t <==> c < |slots| && slots[c].Ptr?
    ensures forall c: nat :: c in t ==> t[c] == slots[c].owner
  {
    map c: nat | c < |slots| && slots[c].Ptr? :: slots[c].owner
  }

  lemma ViewUpdate(slots: seq<Slot>, i: nat, owner: Owner)
    requires i < |slots|
    ensures View(slots[i := Ptr(owner)]) == View(slots)[i := owner] && View(slots[i := Null]) == View(slots) - {i}
  {
  }

  class CommTable {
    const maxSize: nat
    var slots: seq<Slot>
    var lowestFree: nat
    var numberFree: int

    /** lowest_free is the least free index and number_free counts the free slots. */
    ghost predicate Valid()
      reads this
    {
      && lowestFree <= |slots| && (forall i :: 0 <= i < lowestFree ==> slots[i].Ptr?)
      && (lowestFree < |slots| ==> slots[lowestFree].Null?)
      && numberFree == FreeSlots(slots)
    }

    ghost function Contents(): Table
      reads this
    {
      View(slots)
    }

    constructor (maxSize: nat)
      ensures Valid() && Contents() == map[] && this.maxSize == maxSize
    {
      this.maxSize, slots, lowestFree, numberFree := maxSize, [], 0, 0;
    }

    /** The next access to the index is past the end of the array, although grow_table reports success. */
    ghost predicate PastEnd(index: nat)
      reads this
    {
      |slots| <= index && Overruns(index, maxSize)
    }

    /** grow_table: more room, same contents; only for one index the room does not include it. */
    method Grow(index: nat) returns (ok: bool)
      requires Valid() && |slots| <= index
      modifies this
      ensures Valid() && Contents() == old(Contents()) && lowestFree == old(lowestFree)
      ensures ok <==> Fits(index, maxSize) || Overruns(index, maxSize)
      ensures ok ==> (index < |slots| <==> !Overruns(index, maxSize))
      ensures old(slots) <= slots && |slots| == if ok then Grown(index, maxSize).size else |old(slots)|
    {
      hide FreeSlots;
      GrowthMakesRoom(index, maxSize);
      var growth := Grown(index, maxSize);
      hide Fits, Overruns;
      match growth {
        case Refused => ok := false;
        case NewSize(size) =>
          GrownSize(index, maxSize, size);
          Extend(size - |slots|);
          ok := true;
      }
    }

    /** The new slots of a larger array are free. */
    method Extend(k: nat)
      requires Valid()
      modifies this
      ensures Valid() && Contents() == old(Contents()) && lowestFree == old(lowestFree)
      ensures slots == old(slots) + seq(k, _ => Null)
    {
      hide FreeSlots;
      FreeSlotsExtend(slots, k);
      numberFree := numberFree + k;
      slots := slots + seq(k, _ => Null);
    }

    /** The loop that looks for the least free slot from `from` on. */
    method ScanFree(from: nat) returns (i: nat)
      requires from <= |slots|
      ensures from <= i <= |slots| && (forall k :: from <= k < i ==> slots[k].Ptr?)
      ensures i < |slots| ==> slots[i].Null?
    {
      i := from;
      while i < |slots| && slots[i].Ptr?
        invariant from <= i <= |slots| && forall k :: from <= k < i ==> slots[k].Ptr?
      {
        i := i + 1;
      }
    }

    /**
     opal_pointer_array_test_and_set_item: takes the slot if and only if it is free and within reach.
     Past the end it reports success, counts a slot as taken and has none.
     */
    method TestAndSet(index: nat, owner: Owner) returns (taken: bool)
      requires Valid()
      modifies this
      ensures taken <==> index !in old(Contents()) && (index < |old(slots)| || Fits(index, maxSize) || Overruns(index, maxSize))
      ensures if old(PastEnd(index)) then taken && !Valid() && Contents() == old(Contents())
              else Valid() && Contents() == if taken then old(Contents())[index := owner] else old(Contents())
    {
      hide FreeSlots, Fits, Overruns;
      if index < |slots| && slots[index].Ptr? {
        return false;
      }
      if |slots| <= index {
        var ok := Grow(index);
        if !ok {
          return false;
        }
      }
      if index < |slots| {
        FreeSlotsUpdate(slots, index, Ptr(owner));
        ViewUpdate(slots, index, owner);
        slots := slots[index := Ptr(owner)];
      }
      numberFree := numberFree - 1;
      if index == lowestFree {
        lowestFree := ScanFree(index);
      }
      taken := true;
    }

    /** opal_pointer_array_set_item(index, NULL); past the end it reports success. */
    method Clear(index: nat) returns (ok: bool)
      requires Valid()
      modifies this
      ensures Contents() == old(Contents()) - {index} && (Valid() || old(PastEnd(index)))
      ensures ok <==> index < |old(slots)| || Fits(index, maxSize) || Overruns(index, maxSize)
    {
      hide FreeSlots, Fits, Overruns;
      if |slots| <= index {
        ok := Grow(index);
        if !ok || |slots| <= index {
          return;
        }
      }
      FreeSlotsUpdate(slots, index, Null);
      if index < lowestFree {
        lowestFree := index;
      }
      if slots[index].Ptr? {
        numberFree := numberFree + 1;
      }
      slots := slots[index := Null];
      ok := true;
    }

    /** opal_pointer_array_set_item with a pointer, which overwrites whatever is there; past the end it reports success. */
    method Set(index: nat, owner: Owner) returns (ok: bool)
      requires Valid()
      modifies this
      ensures ok <==> index < |old(slots)| || Fits(index, maxSize) || Overruns(index, maxSize)
      ensures if old(PastEnd(index)) then Contents() == old(Contents())
              else Valid() && Contents() == if ok then old(Contents())[index := owner] else old(Contents())
    {
      hide FreeSlots, Fits, Overruns;
      if |slots| <= index {
        ok := Grow(index);
        if !ok || |slots| <= index {
          return;
        }
      }
      FreeSlotsUpdate(slots, index, Ptr(owner));
      ViewUpdate(slots, index, owner);
      if slots[index].Null? {
        numberFree := numberFree - 1;
      }
      if index == lowestFree {
        lowestFree := ScanFree(index + 1);
      }
      slots := slots[index := Ptr(owner)];
      ok := true;
    }
  }
}

/** The list of parents whose allocations are under way: ompi/communicator/comm_cid.c:512-620. */
module RegisteredList {
  predicate Rising(s: seq<nat>) {
    forall i, j :: 0 <= i < j < |s| ==> s[i] < s[j]
  }

  class ParentList {
    var comms: seq<nat>

    ghost predicate Valid()
      reads this
    {
      Rising(comms)
    }

    constructor ()
      ensures Valid() && comms == []
    {
      comms := [];
    }

    /** One turn of ompi_comm_register_cid: refuses an id that is already listed, otherwise lists it in order. */
    method TryRegister(cid: nat) returns (registered: bool)
      requires Valid()
      modifies this
      ensures Valid() && (registered <==> cid !in old(comms))
      ensures forall c :: c in comms <==> c in old(comms) || c == cid
      ensures !registered ==> comms == old(comms)
    {
      var i, ok := 0, true;
      while i < |comms| && comms[i] <= cid && ok
        invariant 0 <= i <= |comms| && comms == old(comms)
        invariant forall k :: 0 <= k < i ==> comms[k] < cid
        invariant !ok ==> cid in comms
        decreases |comms| - i, ok
      {
        if comms[i] == cid {
          ok := false;
        } else {
          i := i + 1;
        }
      }
      if ok {
        assert forall k :: i <= k < |comms| ==> cid < comms[k];
        comms := comms[..i] + [cid] + comms[i..];
      }
      registered := ok;
    }

    /** ompi_comm_unregister_cid. */
    method Unregister(cid: nat)
      requires Valid()
      modifies this
      ensures Valid() && forall c :: c in comms <==> c in old(comms) && c != cid
    {
      var i := 0;
      while i < |comms| && comms[i] != cid
        invariant 0 <= i <= |comms| && comms == old(comms)
        invariant forall k :: 0 <= k < i ==> comms[k] != cid
      {
        i := i + 1;
      }
      if i < |comms| {
        comms := comms[..i] + comms[i + 1..];
      }
    }

    /** ompi_comm_lowest_cid: the least id listed. */
    method LowestCid() returns (cid: nat)
      requires Valid() && comms != []
      ensures cid in comms && forall c :: c in comms ==> cid <= c
    {
      cid := comms[0];
    }
  }
}

/** The blocking loop and the non-blocking callbacks, as one process executes them. */
module CidProcess {
  import opened CidProtocol
  import opened CidTheorems
  import opened PointerArray
  import opened RegisteredList

  // ---------------------------------------------------------------------------------------
  // The registered list and the participants of the protocol

  ghost predicate HasParent(cfg: Config, s: State, p: nat, c: nat) {
    exists b :: 0 <= b < |cfg.allocs| && Registered(cfg, s, p, b) && cfg.allocs[b].parent == c
  }

  /** The list of process p holds the parents of its registered allocations. */
  ghost predicate Listed(cfg: Config, s: State, p: nat, comms: seq<nat>) {
    Rising(comms) && forall c :: c in comms <==> HasParent(cfg, s, p, c)
  }

  /** No id listed is lower. */
  ghost predicate NoneLower(comms: seq<nat>, parent: nat) {
    forall c :: c in comms ==> parent <= c
  }

  /** The parent is listed, and the test against the lowest id listed is the one of the protocol. */
  lemma LowestListed(cfg: Config, s: State, p: nat, a: nat, comms: seq<nat>)
    requires Listed(cfg, s, p, comms) && a < |cfg.allocs| && Registered(cfg, s, p, a)
    ensures cfg.allocs[a].parent in comms && (NoneLower(comms, cfg.allocs[a].parent) <==> Lowest(cfg, s, p, a))
  {
    var parent := cfg.allocs[a].parent;
    assert HasParent(cfg, s, p, parent);
    forall b | 0 <= b < |cfg.allocs| && Registered(cfg, s, p, b) ensures cfg.allocs[b].parent in comms {
      assert HasParent(cfg, s, p, cfg.allocs[b].parent);
    }
  }

  /** Registration is refused exactly while an allocation with the same parent is registered. */
  lemma ListedBlocks(cfg: Config, s: State, p: nat, a: nat, comms: seq<nat>)
    requires Listed(cfg, s, p, comms) && a < |cfg.allocs|
    ensures cfg.allocs[a].parent !in comms <==>
            forall b :: 0 <= b < |cfg.allocs| && Registered(cfg, s, p, b) ==> cfg.allocs[b].parent != cfg.allocs[a].parent
  {
  }

  /** What has to become of the list when allocation a of process p goes on to another state. */
  ghost predicate Relisted(cfg: Config, s': State, p: nat, a: nat, comms: seq<nat>, comms': seq<nat>)
    requires a < |cfg.allocs|
  {
    var parent := cfg.allocs[a].parent;
    Rising(comms') && if Registered(cfg, s', p, a) then forall c :: c in comms' <==> c in comms || c == parent
                      else forall c :: c in comms' <==> c in comms && c != parent
  }

  lemma ListFollows(cfg: Config, s: State, s': State, p: nat, a: nat, comms: seq<nat>, comms': seq<nat>)
    requires a < |cfg.allocs| && Listed(cfg, s, p, comms) && Relisted(cfg, s', p, a, comms, comms')
    requires forall b :: b != a ==> LocalOf(s', p, b) == LocalOf(s, p, b)
    requires ParentsDistinct(cfg, s) && (Registered(cfg, s, p, a) || Registered(cfg, s', p, a))
    ensures Listed(cfg, s', p, comms')
  {
    var parent := cfg.allocs[a].parent;
    forall c ensures HasParent(cfg, s', p, c) <==> c in comms' {
      if c in comms && (c != parent || Registered(cfg, s', p, a)) {
        var b :| 0 <= b < |cfg.allocs| && Registered(cfg, s, p, b) && cfg.allocs[b].parent == c;
        assert b != a ==> Registered(cfg, s', p, b);
      }
      if HasParent(cfg, s', p, c) {
        var b :| 0 <= b < |cfg.allocs| && Registered(cfg, s', p, b) && cfg.allocs[b].parent == c;
        assert b != a ==> Registered(cfg, s, p, b) && HasParent(cfg, s, p, c);
      }
    }
  }

  // ---------------------------------------------------------------------------------------
  // Reservations

  /** What the two allreduces of one round return. */
  datatype Round = Round(max: nat, min: bool)

  /** The table has room for every id up to maxCid. */
  predicate Roomy(maxSize: nat, maxCid: nat) {
    maxCid + 2 < maxSize
  }

  /** The scan of lines 252-260 and 422-428: reserves the least free id from `start` on. */
  method Reserve(table: CommTable, start: nat, maxCid: nat, owner: Owner) returns (next: nat, flag: bool)
    requires table.Valid() && Roomy(table.maxSize, maxCid)
    modifies table
    ensures table.Valid() && next == Candidate(old(table.Contents()), start, maxCid) && flag == (next < maxCid)
    ensures table.Contents() == if flag then old(table.Contents())[next := owner] else old(table.Contents())
  {
    next, flag := maxCid, false;
    var i := start;
    while i < maxCid
      invariant start <= i && table.Valid() && table.Contents() == old(table.Contents()) && next == maxCid && !flag
      invariant Candidate(old(table.Contents()), start, maxCid) == Candidate(table.Contents(), i, maxCid)
    {
      flag := table.TestAndSet(i, owner);
      if flag {
        next := i;
        break;
      }
      i := i + 1;
    }
  }

  /** Lines 278-291 and 458-467: give up a candidate that lost and try to reserve the maximum. */
  method Respond(table: CommTable, local: nat, next: nat, maxCid: nat, owner: Owner) returns (response: bool)
    requires table.Valid() && Roomy(table.maxSize, maxCid) && local <= maxCid && next <= maxCid
    modifies table
    ensures table.Valid()
    ensures local == next ==> response && table.Contents() == old(table.Contents())
    ensures local != next ==> (response <==> next !in old(table.Contents()))
    ensures local != next ==> (var t := old(table.Contents()) - {local}; table.Contents() == if response then t[next := owner] else t)
  {
    if next == local {
      return true;
    }
    var _ := table.Clear(local);
    response := table.TestAndSet(next, owner);
  }

  /** One round of the blocking form: the effects of Propose, CompleteMax and, unless that fails, CompleteMin. */
  ghost function BlockingRound(maxCid: nat, a: nat, e: Effect, round: Round): (r: Effect)
    requires e.local.phase.Top?
    ensures r.local.phase.Failed? || r.local.phase.Done? || r.local.phase.Top?
  {
    var proposed := ProposeEffect(maxCid, Blocking, a, e.table, e.local);
    var checked := MaxEffect(maxCid, Blocking, a, proposed.table, proposed.local, round.max);
    if checked.local.phase.Failed? then checked
    else MinEffect(Blocking, a, checked.table, checked.local, round.min)
  }

  /** The rounds one after the other, until one of them settles it. */
  ghost function BlockingRounds(maxCid: nat, a: nat, e: Effect, rounds: seq<Round>): Effect
    requires e.local.phase.Top?
    decreases |rounds|
  {
    if rounds == [] then e
    else
      var next := BlockingRound(maxCid, a, e, rounds[0]);
      if next.local.phase.Top? then BlockingRounds(maxCid, a, next, rounds[1..]) else next
  }

  datatype Outcome = Agreed(id: nat) | OutOfIds | StillTrying | NotRegistered

  function OutcomeOf(phase: Phase): Outcome {
    match phase
    case Done(id) => Agreed(id)
    case Failed => OutOfIds
    case _ => StillTrying
  }

  /** Where round i starts to look, and what it has to offer if the table is t: the least free id from there on. */
  function StartOf(first: nat, rounds: seq<Round>, i: nat): nat
    requires i <= |rounds|
  {
    if i == 0 then first else rounds[i - 1].max + 1
  }

  function OfferOf(t: Table, first: nat, maxCid: nat, rounds: seq<Round>, i: nat): nat
    requires i <= |rounds|
  {
    Candidate(t, StartOf(first, rounds, i), maxCid)
  }

  /** Some member has run out of ids and this one has not. */
  predicate GivesUp(t: Table, first: nat, maxCid: nat, rounds: seq<Round>, i: nat)
    requires i < |rounds|
  {
    rounds[i].max == maxCid && OfferOf(t, first, maxCid, rounds, i) < maxCid
  }

  /**
   What allreduces can return: a maximum is not below the own contribution, and when it is maxCid the
   members that get to the MIN-allreduce, all out of ids, accept it (CidProtocol.RejectedBelowMax).
   */
  ghost predicate Possible(t: Table, first: nat, maxCid: nat, rounds: seq<Round>, n: nat)
    requires n <= |rounds|
  {
    forall i :: 0 <= i < n ==> PossibleAt(t, first, maxCid, rounds, i)
  }

  predicate PossibleAt(t: Table, first: nat, maxCid: nat, rounds: seq<Round>, i: nat)
    requires i < |rounds|
  {
    CanBe(rounds[i], OfferOf(t, first, maxCid, rounds, i), maxCid)
  }

  predicate CanBe(round: Round, offer: nat, maxCid: nat) {
    offer <= round.max <= maxCid && (offer == maxCid ==> round.min)
  }

  /** In every run of the protocol, what a member reads after its contribution satisfies this. */
  lemma AllreducesCanBe(cfg: Config, s: State, a: nat, r: nat, p: nat, v: nat, min: bool)
    requires Inv(cfg, s) && a < |cfg.allocs| && cfg.allocs[a].mode.Blocking? && p in cfg.allocs[a].group && IsMax(cfg, s, a, r, v)
    requires if min then Accepted(cfg, s, a, r) else Rejected(cfg, s, a, r)
    ensures CanBe(Round(v, min), s.maxIn[Key(a, r, p)], cfg.maxCid)
  {
    MaxInRange(cfg, s, a, r, v);
    if !min {
      RejectedBelowMax(cfg, s, a, r);
    }
  }

  /** A rejected round leaves the table as it was, an accepted one adds its maximum, and giving up restores it. */
  lemma RoundResult(maxCid: nat, a: nat, e: Effect, round: Round)
    requires e.local.phase.Top? && CanBe(round, Candidate(e.table, e.local.phase.start, maxCid), maxCid)
    ensures var r, offer := BlockingRound(maxCid, a, e, round), Candidate(e.table, e.local.phase.start, maxCid);
            if round.max == maxCid && offer < maxCid then r.local.phase.Failed? && r.table == e.table
            else if round.min then r.local.phase == Done(round.max) && r.table == e.table[round.max := Installed(a)]
            else r.local.phase == Top(round.max + 1) && r.table == e.table
  {
    var offer := Candidate(e.table, e.local.phase.start, maxCid);
    var reserved: Table := e.table[offer := Reserved(a)];
    assert offer < maxCid ==> reserved - {offer} == e.table;
    var taken: Table := e.table[round.max := Reserved(a)];
    assert round.max !in e.table ==> taken - {round.max} == e.table;
    assert taken[round.max := Installed(a)] == e.table[round.max := Installed(a)];
  }

  /** Round i was rejected, and this member did not give up in it. */
  predicate GoesOn(t: Table, first: nat, maxCid: nat, rounds: seq<Round>, i: nat)
    requires i < |rounds|
  {
    !rounds[i].min && !GivesUp(t, first, maxCid, rounds, i)
  }

  /** How the last of the rounds that were run, and each one before it, went. */
  ghost predicate WentLike(r: Outcome, before: Table, after: Table, first: nat, maxCid: nat, a: nat, rounds: seq<Round>, ran: nat)
    requires ran <= |rounds|
  {
    && (forall i :: 0 <= i < ran - 1 ==> GoesOn(before, first, maxCid, rounds, i))
    && match r
       case Agreed(id) => ran > 0 && rounds[ran - 1].min && !GivesUp(before, first, maxCid, rounds, ran - 1) && after == before[id := Installed(a)]
       case OutOfIds => ran > 0 && GivesUp(before, first, maxCid, rounds, ran - 1) && after == before
       case _ => (ran > 0 ==> GoesOn(before, first, maxCid, rounds, ran - 1)) && after == before
  }

  lemma WentNowhere(before: Table, first: nat, maxCid: nat, a: nat, rounds: seq<Round>)
    ensures WentLike(StillTrying, before, before, first, maxCid, a, rounds, 0)
    ensures WentLike(NotRegistered, before, before, first, maxCid, a, rounds, 0)
  {
  }

  /** One more round, after others that were rejected. */
  lemma WentOn(before: Table, e: Effect, first: nat, maxCid: nat, a: nat, rounds: seq<Round>, k: nat)
    requires k < |rounds| && e.local.phase == Top(StartOf(first, rounds, k))
    requires Possible(before, first, maxCid, rounds, k) ==> WentLike(StillTrying, before, e.table, first, maxCid, a, rounds, k)
    ensures var e' := BlockingRound(maxCid, a, e, rounds[k]);
            Possible(before, first, maxCid, rounds, k + 1) ==>
              WentLike(OutcomeOf(e'.local.phase), before, e'.table, first, maxCid, a, rounds, k + 1)
  {
    hide Candidate, BlockingRound, CanBe;
    if Possible(before, first, maxCid, rounds, k + 1) {
      assert PossibleAt(before, first, maxCid, rounds, k);
      RoundResult(maxCid, a, e, rounds[k]);
    }
  }

  /**
   ompi_comm_nextcid, given what the allreduces of each round return. It waits while its parent is
   listed for somebody else, then while a lower one is listed, and leaves the list on every way out.
   Of the rounds given, `ran` were run: the id is the maximum of the last one and the slot that has
   been filled, and otherwise the table is as before.
   */
  method NextCid(table: CommTable, list: ParentList, a: nat, parent: nat, maxCid: nat, rounds: seq<Round>)
    returns (r: Outcome, ghost e: Effect, ghost ran: nat)
    requires table.Valid() && list.Valid() && Roomy(table.maxSize, maxCid)
    requires forall k :: 0 <= k < |rounds| ==> rounds[k].max <= maxCid
    modifies table, list
    ensures table.Valid() && list.Valid() && table.Contents() == e.table
    ensures r.NotRegistered? <==> parent in old(list.comms)
    ensures forall c :: c in list.comms <==> c in old(list.comms) || (c == parent && r.StillTrying?)
    ensures var first := Effect(old(table.Contents()), Local(0, Top(old(table.lowestFree))));
            e == if !r.NotRegistered? && NoneLower(old(list.comms), parent) then BlockingRounds(maxCid, a, first, rounds) else first
    ensures !r.NotRegistered? ==> r == OutcomeOf(e.local.phase)
    ensures ran <= |rounds| && (r.StillTrying? && NoneLower(old(list.comms), parent) ==> ran == |rounds|)
    ensures r.NotRegistered? || !NoneLower(old(list.comms), parent) ==> ran == 0
    ensures r.Agreed? ==> ran > 0 && r.id == rounds[ran - 1].max && r.id in table.Contents() && table.Contents()[r.id] == Installed(a)
    ensures Possible(old(table.Contents()), old(table.lowestFree), maxCid, rounds, ran) ==>
              WentLike(r, old(table.Contents()), table.Contents(), old(table.lowestFree), maxCid, a, rounds, ran)
  {
    hide Candidate, View, FreeSlots, BlockingRound, WentLike, Possible;
    r, e, ran := StillTrying, Effect(table.Contents(), Local(0, Top(table.lowestFree))), 0;
    ghost var before, from := e.table, table.lowestFree;
    WentNowhere(before, from, maxCid, a, rounds);
    ghost var first, whole := e, BlockingRounds(maxCid, a, e, rounds);
    var registered := list.TryRegister(parent);
    if !registered {
      return NotRegistered, e, 0;
    }
    var start: nat := table.lowestFree;
    ghost var comms := list.comms;
    var k: nat := 0;
    while k < |rounds|
      invariant 0 <= k <= |rounds| && table.Valid() && table.Contents() == e.table && r == StillTrying && ran == k
      invariant start == StartOf(from, rounds, k)
      invariant Possible(before, from, maxCid, rounds, k) ==> WentLike(r, before, e.table, from, maxCid, a, rounds, k)
      invariant e.local == Local(k, Top(start)) && BlockingRounds(maxCid, a, e, rounds[k..]) == whole
      invariant list.Valid() && list.comms == comms && if k == 0 then e == first else NoneLower(comms, parent)
    {
      var lowest := list.LowestCid();
      if lowest != parent {
        assert lowest < parent && lowest in old(list.comms);
        return;
      }
      WentOn(before, e, from, maxCid, a, rounds, k);
      r, e := TryRound(table, a, maxCid, start, rounds[k], e);
      ran := k + 1;
      if !r.StillTrying? {
        list.Unregister(parent);
        return;
      }
      start := rounds[k].max + 1;
      assert rounds[k..][1..] == rounds[k + 1..];
      k := k + 1;
    }
  }

  /** The body of the loop of ompi_comm_nextcid, and the assignments after it. */
  method TryRound(table: CommTable, a: nat, maxCid: nat, start: nat, round: Round, ghost before: Effect) returns (r: Outcome, ghost e: Effect)
    requires table.Valid() && Roomy(table.maxSize, maxCid) && round.max <= maxCid
    requires before.table == table.Contents() && before.local.phase == Top(start)
    modifies table
    ensures table.Valid() && table.Contents() == e.table && e == BlockingRound(maxCid, a, before, round)
    ensures r == OutcomeOf(e.local.phase) && (r.StillTrying? ==> e.local == Local(before.local.round + 1, Top(round.max + 1)))
    ensures r.Agreed? ==> r.id == round.max && r.id in e.table && e.table[r.id] == Installed(a)
  {
    hide Candidate, View, FreeSlots, MinEffect;
    var local, flag := Reserve(table, start, maxCid, Reserved(a));
    var next := round.max;
    e := ProposeEffect(maxCid, Blocking, a, before.table, before.local);
    if next == maxCid && flag {
      var _ := table.Clear(local);
      e := MaxEffect(maxCid, Blocking, a, e.table, e.local, next);
      return OutOfIds, e;
    }
    var response := Respond(table, local, next, maxCid, Reserved(a));
    e := MaxEffect(maxCid, Blocking, a, e.table, e.local, next);
    r, e := Settle(table, a, next, maxCid, response, round.min, e);
  }

  /** Lines 300-317 and 322-323: what the result of the MIN-allreduce leads to. */
  method Settle(table: CommTable, a: nat, next: nat, maxCid: nat, response: bool, min: bool, ghost before: Effect) returns (r: Outcome, ghost e: Effect)
    requires table.Valid() && Roomy(table.maxSize, maxCid) && next <= maxCid
    requires before.table == table.Contents()
    requires before.local.phase.Checked? && before.local.phase.next == next && before.local.phase.flag == response
    modifies table
    ensures table.Valid() && table.Contents() == e.table && e == MinEffect(Blocking, a, before.table, before.local, min)
    ensures r == OutcomeOf(e.local.phase) && (r.StillTrying? ==> e.local == Local(before.local.round + 1, Top(next + 1)))
    ensures r.Agreed? ==> r.id == next && r.id in e.table && e.table[r.id] == Installed(a)
  {
    hide View, FreeSlots;
    e := MinEffect(Blocking, a, before.table, before.local, min);
    if min {
      var _ := table.Set(next, Installed(a));
      return Agreed(next), e;
    }
    if response {
      var _ := table.Clear(next);
    }
    r := StillTrying;
  }

  // ---------------------------------------------------------------------------------------
  // The non-blocking form

  /** Which callback of the request runs next. */
  datatype Callback = GetNextCid | CheckCid | CheckFlag | Complete(id: nat) | Error

  /** struct mca_comm_nextcid_context together with the schedule of its request. */
  class Context {
    const alloc: nat
    const parent: nat
    const maxCid: nat
    var start: nat
    var nextcid: nat
    var nextlocalCid: nat
    var flag: bool
    var scheduled: Callback

    /** The participant of CidProtocol that the context stands for. */
    ghost function Phase(): Phase
      reads this
    {
      match scheduled
      case GetNextCid => Top(start)
      case CheckCid => Proposed(start, nextlocalCid)
      case CheckFlag => Checked(start, nextcid, flag)
      case Complete(id) => Done(id)
      case Error => Failed
    }

    ghost predicate Valid()
      reads this
    {
      (scheduled.CheckCid? ==> nextlocalCid <= maxCid) && (scheduled.CheckFlag? ==> nextcid <= maxCid)
    }

    /** The context, the table and the list are those of process p in state s of the protocol. */
    ghost predicate Stands(table: CommTable, list: ParentList, cfg: Config, s: State, p: nat)
      reads this, table, list
    {
      && Valid() && MayAllocate(table, list, alloc, parent, maxCid, cfg, s, p)
      && LocalOf(s, p, alloc).phase == Phase()
    }

    constructor (table: CommTable, alloc: nat, parent: nat, maxCid: nat)
      ensures Valid() && Phase() == Top(table.lowestFree)
      ensures this.alloc == alloc && this.parent == parent && this.maxCid == maxCid
    {
      this.alloc, this.parent, this.maxCid, start := alloc, parent, maxCid, table.lowestFree;
      nextcid, nextlocalCid, flag, scheduled := 0, 0, false, GetNextCid;
    }

    /** ompi_comm_allreduce_getnextcid: the Propose step, once the parent is the lowest one listed. */
    method GetNext(table: CommTable, list: ParentList, ghost cfg: Config, ghost s: State, ghost p: nat) returns (ghost s': State)
      requires Stands(table, list, cfg, s, p) && scheduled.GetNextCid?
      modifies this, table
      ensures s' == if Lowest(cfg, s, p, alloc) then Apply(cfg, s, Propose(p, alloc)) else s
      ensures Stands(table, list, cfg, s', p) && start == old(start)
    {
      hide Inv, ParentsDistinct, View, FreeSlots, Listed, Lowest, Apply;
      LowestListed(cfg, s, p, alloc, list.comms);
      s' := s;
      var lowest := list.LowestCid();
      if parent != lowest {
        scheduled := GetNextCid;
        return;
      }
      s' := Apply(cfg, s, Propose(p, alloc));
      StepEffects(cfg, s, Propose(p, alloc));
      nextlocalCid, flag := Reserve(table, start, maxCid, Reserved(alloc));
      scheduled := if nextlocalCid == maxCid then Error else CheckCid;
      StepFollows(cfg, s, Propose(p, alloc), list.comms, list.comms);
    }

    /** ompi_comm_checkcid, once the MAX-allreduce has delivered nextcid: the CompleteMax step. */
    method Check(table: CommTable, list: ParentList, max: nat, ghost cfg: Config, ghost s: State, ghost p: nat) returns (ghost s': State)
      requires Stands(table, list, cfg, s, p) && scheduled.CheckCid? && IsMax(cfg, s, alloc, LocalOf(s, p, alloc).round, max)
      modifies this, table
      ensures s' == Apply(cfg, s, CompleteMax(p, alloc, max))
      ensures Stands(table, list, cfg, s', p)
    {
      hide ParentsDistinct, View, FreeSlots, Listed, IsMax, Apply;
      LowestListed(cfg, s, p, alloc, list.comms);
      MaxInRange(cfg, s, alloc, LocalOf(s, p, alloc).round, max);
      hide Inv;
      s' := Apply(cfg, s, CompleteMax(p, alloc, max));
      StepEffects(cfg, s, CompleteMax(p, alloc, max));
      nextcid := max;
      flag := Respond(table, nextlocalCid, nextcid, maxCid, Reserved(alloc));
      scheduled := CheckFlag;
      StepFollows(cfg, s, CompleteMax(p, alloc, max), list.comms, list.comms);
    }

    /**
     ompi_comm_nextcid_check_flag, once the MIN-allreduce has delivered rflag: the CompleteMin step,
     which takes the parent off the list on success; a rejected round goes straight on to the next.
     */
    method CheckResult(table: CommTable, list: ParentList, rflag: bool, ghost cfg: Config, ghost s: State, ghost p: nat) returns (ghost s': State)
      requires Stands(table, list, cfg, s, p) && scheduled.CheckFlag?
      requires if rflag then Accepted(cfg, s, alloc, LocalOf(s, p, alloc).round) else Rejected(cfg, s, alloc, LocalOf(s, p, alloc).round)
      modifies this, table, list
      ensures var decided := Apply(cfg, s, CompleteMin(p, alloc, rflag));
              s' == if !rflag && Lowest(cfg, decided, p, alloc) then Apply(cfg, decided, Propose(p, alloc)) else decided
      ensures rflag ==> scheduled == Complete(old(nextcid)) && table.Contents() == old(table.Contents())[old(nextcid) := Installed(alloc)]
      ensures !rflag ==> start == if old(flag) then old(nextcid) + 1 else old(start)
      ensures Stands(table, list, cfg, s', p)
    {
      hide Inv, ParentsDistinct, View, FreeSlots, Listed, Accepted, Rejected, Candidate, Lowest, Apply;
      LowestListed(cfg, s, p, alloc, list.comms);
      s' := Apply(cfg, s, CompleteMin(p, alloc, rflag));
      StepEffects(cfg, s, CompleteMin(p, alloc, rflag));
      if rflag {
        var _ := table.Set(nextcid, Installed(alloc));
        ghost var comms := list.comms;
        list.Unregister(parent);
        scheduled := Complete(nextcid);
        StepFollows(cfg, s, CompleteMin(p, alloc, rflag), comms, list.comms);
        return;
      }
      if flag {
        var _ := table.Clear(nextcid);
        start := nextcid + 1;
      }
      scheduled := GetNextCid;
      StepFollows(cfg, s, CompleteMin(p, alloc, rflag), list.comms, list.comms);
      s' := GetNext(table, list, cfg, s', p);
    }
  }

  /** The table and the list are those of process p in a reachable state, and a is a non-blocking allocation of p. */
  ghost predicate MayAllocate(table: CommTable, list: ParentList, a: nat, parent: nat, maxCid: nat, cfg: Config, s: State, p: nat)
    reads table, list
  {
    && table.Valid() && list.Valid() && Roomy(table.maxSize, maxCid)
    && a < |cfg.allocs| && p in cfg.allocs[a].group && cfg.allocs[a].mode.NonBlocking?
    && cfg.allocs[a].parent == parent && cfg.maxCid == maxCid
    && Inv(cfg, s) && ParentsDistinct(cfg, s)
    && table.Contents() == TableOf(s, p) && Listed(cfg, s, p, list.comms)
  }

  /** A step of an allocation keeps what holds of reachable states, and the list if it follows suit. */
  lemma StepFollows(cfg: Config, s: State, step: Step, comms: seq<nat>, comms': seq<nat>)
    requires Enabled(cfg, s, step) && !step.Release? && Inv(cfg, s) && ParentsDistinct(cfg, s) && Listed(cfg, s, step.proc, comms)
    requires Relisted(cfg, Apply(cfg, s, step), step.proc, step.alloc, comms, comms')
    ensures Inv(cfg, Apply(cfg, s, step)) && ParentsDistinct(cfg, Apply(cfg, s, step))
    ensures Listed(cfg, Apply(cfg, s, step), step.proc, comms')
  {
    hide Apply, Inv, Listed, ParentsDistinct, Progress, Relisted;
    StepInv(cfg, s, step);
    DistinctStep(cfg, s, step);
    OwnStep(cfg, s, step, step.proc, step.alloc);
    forall b | b != step.alloc ensures LocalOf(Apply(cfg, s, step), step.proc, b) == LocalOf(s, step.proc, b) {
      LocalUntouched(cfg, s, step, step.proc, b);
    }
    ListFollows(cfg, s, Apply(cfg, s, step), step.proc, step.alloc, comms, comms');
  }

  /** ompi_comm_nextcid_nb: one turn of the registration, then the Start step. */
  method NextCidNb(table: CommTable, list: ParentList, a: nat, parent: nat, maxCid: nat, ghost cfg: Config, ghost s: State, ghost p: nat)
    returns (context: Context?, ghost s': State)
    requires MayAllocate(table, list, a, parent, maxCid, cfg, s, p) && LocalOf(s, p, a).phase.Idle?
    modifies list
    ensures context == null <==> parent in old(list.comms)
    ensures context == null ==> s' == s && list.comms == old(list.comms)
    ensures context != null ==> Enabled(cfg, s, Start(p, a, table.lowestFree)) && s' == Apply(cfg, s, Start(p, a, table.lowestFree))
    ensures context != null ==> fresh(context) && context.alloc == a && context.Stands(table, list, cfg, s', p) && context.scheduled.GetNextCid?
  {
    hide Inv, ParentsDistinct, FreeSlots, Listed;
    context, s' := null, s;
    ghost var comms := list.comms;
    ListedBlocks(cfg, s, p, a, comms);
    var registered := list.TryRegister(parent);
    if registered {
      context := new Context(table, a, parent, maxCid);
      s' := Apply(cfg, s, Start(p, a, table.lowestFree));
      StepFollows(cfg, s, Start(p, a, table.lowestFree), comms, list.comms);
    }
  }
}
