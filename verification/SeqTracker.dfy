/**
 The duplicate detector for sequence numbers (ompi/class/ompi_seq_tracker.c): a list of ranges
 and a cursor from which every search starts. Numbers are 32-bit and wrap.
 */
module SeqTracker {
  const Limit: nat := 0x1_0000_0000

  type Id = x: nat | x < 0x1_0000_0000

  function Next(x: Id): Id { if x + 1 == Limit then 0 else x + 1 }

  function Previous(x: Id): Id { if x == 0 then Limit - 1 else x - 1 }

  datatype Range = Range(low: Id, high: Id)

  predicate Covers(r: Range, x: Id) {
    r.low <= x <= r.high
  }

  /** x has been recorded. */
  predicate Has(ranges: seq<Range>, x: Id) {
    exists i :: 0 <= i < |ranges| && Covers(ranges[i], x)
  }

  /** Sorted, disjoint, and not adjacent. */
  predicate Apart(ranges: seq<Range>) {
    && (forall i :: 0 <= i < |ranges| ==> ranges[i].low <= ranges[i].high)
    && (forall i, j :: 0 <= i < j < |ranges| ==> ranges[i].high + 1 < ranges[j].low)
  }

  /** A cursor range next to x across the wrap-around. */
  predicate WrapsAt(r: Range, x: Id) {
    (x == Limit - 1 && r.low == 0 && r.high < Limit - 2) || (x == 0 && r.high == Limit - 1 && r.low > 0)
  }

  datatype Direction = Start | Forward | Backward

  class Tracker {
    var ranges: seq<Range>
    var current: nat

    /** The cursor is on a range whenever there is one. */
    ghost predicate Valid()
      reads this
    {
      Apart(ranges) && (if ranges == [] then current == 0 else current < |ranges|)
    }

    /** Whether inserting x now would be misled by the wrap-around. */
    predicate Wraps(x: Id)
      reads this
    {
      current < |ranges| && WrapsAt(ranges[current], x)
    }

    constructor ()
      ensures Valid() && ranges == []
    {
      ranges, current := [], 0;
    }

    /** ompi_seq_tracker_check_duplicate. */
    method CheckDuplicate(x: Id) returns (found: bool)
      requires Valid()
      modifies this`current
      ensures Valid() && (found <==> Has(ranges, x))
    {
      var item: int := current;
      var direction := Start;
      while true
        invariant -1 <= item <= |ranges| && Valid() && current == old(current)
        invariant direction.Start? ==> item == current
        invariant direction.Forward? ==> 0 < item && forall i :: 0 <= i < item ==> ranges[i].high < x
        invariant direction.Backward? ==> item + 1 < |ranges| && forall i :: item < i < |ranges| ==> x < ranges[i].low
        decreases if direction.Start? then |ranges| + 2 else if direction.Forward? then |ranges| - item else item + 1
      {
        if item < 0 || item == |ranges| {
          return false;
        } else if Covers(ranges[item], x) {
          current := item;
          return true;
        } else if x > ranges[item].high && !direction.Backward? {
          direction := Forward;
          item := item + 1;
        } else if x < ranges[item].low && !direction.Forward? {
          direction := Backward;
          item := item - 1;
        } else {
          return false;
        }
      }
    }

    /** What an insertion of x promises, from the list and cursor it started with. */
    ghost predicate Inserted(before: seq<Range>, wraps: bool, x: Id)
      reads this
    {
      if wraps then !Valid() else Valid() && Adds(before, ranges, x)
    }

    /** A range of its own, before range k. */
    method InsertNew(k: nat, x: Id)
      requires Apart(ranges) && k <= |ranges|
      requires (forall i :: 0 <= i < k ==> ranges[i].high + 1 < x) && (forall i :: k <= i < |ranges| ==> x + 1 < ranges[i].low)
      modifies this
      ensures Inserted(old(ranges), false, x)
    {
      hide Apart, Adds;
      PutBetween(ranges, k, x);
      ranges, current := ranges[..k] + [Range(x, x)] + ranges[k..], k;
    }

    /** The cases in which x is in the range at hand or next to it. */
    method InsertNear(k: nat, x: Id) returns (done: bool)
      requires Valid() && k < |ranges|
      modifies this
      ensures done <==> Covers(old(ranges[k]), x) || Next(old(ranges[k].high)) == x || Previous(old(ranges[k].low)) == x
      ensures done ==> Inserted(old(ranges), WrapsAt(old(ranges[k]), x), x)
      ensures !done ==> ranges == old(ranges) && current == old(current)
    {
      hide Adds, Has;
      done := true;
      if Covers(ranges[k], x) {
        AddsNothing(ranges, k, x);
        current := k;
      } else if Next(ranges[k].high) == x {
        if k + 1 < |ranges| && ranges[k + 1].low == Next(x) {
          Joined(ranges, k, x);
          ranges := ranges[..k] + [Range(ranges[k].low, ranges[k + 1].high)] + ranges[k + 2..];
        } else {
          Raised(ranges, k, x);
          ranges := ranges[k := Range(ranges[k].low, x)];
        }
        current := k;
      } else if Previous(ranges[k].low) == x {
        if k > 0 && ranges[k - 1].high == Previous(x) {
          Joined(ranges, k - 1, x);
          ranges := ranges[..k - 1] + [Range(ranges[k - 1].low, ranges[k].high)] + ranges[k + 1..];
          current := k - 1;
        } else {
          Lowered(ranges, k, x);
          ranges := ranges[k := Range(x, ranges[k].high)];
          current := k;
        }
      } else {
        done := false;
      }
    }

    /** ompi_seq_tracker_insert: records x, unless the wrap-around misleads it, and then the list is broken. */
    method Insert(x: Id)
      requires Valid()
      modifies this
      ensures Inserted(old(ranges), old(Wraps(x)), x)
    {
      hide Adds;
      var item: int := current;
      var direction := Start;
      while true
        invariant -1 <= item <= |ranges| && Valid() && current == old(current) && ranges == old(ranges)
        invariant direction.Start? ==> item == current
        invariant direction.Forward? ==> 0 < item && forall i :: 0 <= i < item ==> ranges[i].high + 1 < x
        invariant direction.Backward? ==> item + 1 < |ranges| && forall i :: item < i < |ranges| ==> x + 1 < ranges[i].low
        invariant !direction.Start? ==> !old(Wraps(x))
        decreases if direction.Start? then |ranges| + 2 else if direction.Forward? then |ranges| - item else item + 1
      {
        if item < 0 || item == |ranges| {
          InsertNew(if direction.Backward? then 0 else |ranges|, x);
          return;
        }
        assert direction.Forward? ==> ranges[item - 1].high + 1 < ranges[item].low;
        assert direction.Backward? ==> ranges[item].high + 1 < ranges[item + 1].low;
        var done := InsertNear(item, x);
        if done {
          return;
        } else if x > ranges[item].high {
          if direction.Backward? {
            InsertNew(item + 1, x);
            return;
          }
          direction, item := Forward, item + 1;
        } else {
          if direction.Forward? {
            InsertNew(item, x);
            return;
          }
          direction, item := Backward, item - 1;
        }
      }
    }

    /**
     ompi_seq_tracker_copy: appends the ranges of the other tracker and takes over its cursor. The
     result is in order exactly when one of the two was empty or all that was there lies below.
     */
    method CopyFrom(src: Tracker)
      requires Valid() && src.Valid() && src != this
      modifies this
      ensures ranges == old(ranges) + src.ranges
      ensures current == if src.ranges == [] then old(current) else |old(ranges)| + src.current
      ensures Valid() <==> old(ranges) == [] || src.ranges == [] || old(ranges)[|old(ranges)| - 1].high + 1 < src.ranges[0].low
    {
      ghost var before := ranges;
      var n := |ranges|;
      for i := 0 to |src.ranges|
        invariant ranges == before + src.ranges[..i] && current == if src.current < i then n + src.current else old(current)
      {
        ranges := ranges + [Range(src.ranges[i].low, src.ranges[i].high)];
        if src.current == i {
          current := n + i;
        }
      }
      Appended(before, src.ranges);
    }
  }

  lemma Appended(a: seq<Range>, b: seq<Range>)
    requires Apart(a) && Apart(b)
    ensures Apart(a + b) <==> a == [] || b == [] || a[|a| - 1].high + 1 < b[0].low
  {
    if a != [] && b != [] {
      var c, n := a + b, |a|;
      assert c[n - 1] == a[n - 1] && c[n] == b[0];
      if a[n - 1].high + 1 < b[0].low {
        forall i, j | 0 <= i < j < |c| ensures c[i].high + 1 < c[j].low {
          assert i < n ==> c[i].high <= a[n - 1].high;
          assert j >= n ==> b[0].low <= c[j].low;
        }
      }
    }
  }

  /** The new list records what the old one did, and x. */
  ghost predicate Adds(before: seq<Range>, after: seq<Range>, x: Id) {
    forall y: Id :: Has(after, y) <==> Has(before, y) || y == x
  }

  /** A range of its own, between the others. */
  lemma PutBetween(ranges: seq<Range>, k: nat, x: Id)
    requires Apart(ranges) && k <= |ranges|
    requires (forall i :: 0 <= i < k ==> ranges[i].high + 1 < x) && (forall i :: k <= i < |ranges| ==> x + 1 < ranges[i].low)
    ensures var after := ranges[..k] + [Range(x, x)] + ranges[k..]; Apart(after) && Adds(ranges, after, x)
  {
    var after := ranges[..k] + [Range(x, x)] + ranges[k..];
    ApartBetween(ranges, k, x);
    hide Apart;
    forall y: Id ensures Has(after, y) <==> Has(ranges, y) || y == x {
      if i :| 0 <= i < |ranges| && Covers(ranges[i], y) {
        assert after[if i < k then i else i + 1] == ranges[i];
      }
      if i :| 0 <= i < |after| && Covers(after[i], y) {
        assert i == k || after[i] == ranges[if i < k then i else i - 1];
      }
      assert after[k] == Range(x, x);
    }
  }

  lemma ApartBetween(ranges: seq<Range>, k: nat, x: Id)
    requires Apart(ranges) && k <= |ranges|
    requires (forall i :: 0 <= i < k ==> ranges[i].high + 1 < x) && (forall i :: k <= i < |ranges| ==> x + 1 < ranges[i].low)
    ensures Apart(ranges[..k] + [Range(x, x)] + ranges[k..])
  {
  }

  lemma AddsNothing(ranges: seq<Range>, k: nat, x: Id)
    requires k < |ranges| && Covers(ranges[k], x)
    ensures Adds(ranges, ranges, x)
  {
  }

  lemma Replaced(ranges: seq<Range>, k: nat, r: Range, x: Id)
    requires k < |ranges| && forall y: Id :: Covers(r, y) <==> Covers(ranges[k], y) || y == x
    ensures Adds(ranges, ranges[k := r], x)
  {
    var after := ranges[k := r];
    forall y: Id ensures Has(after, y) <==> Has(ranges, y) || y == x {
      if i :| 0 <= i < |ranges| && Covers(ranges[i], y) {
        assert Covers(after[i], y);
      }
      if i :| 0 <= i < |after| && Covers(after[i], y) {
        assert i == k || after[i] == ranges[i];
        assert i != k ==> Covers(ranges[i], y);
      }
      assert Covers(after[k], x);
    }
  }

  /** x is the next number above range k, and range k + 1 is further up. */
  lemma Raised(ranges: seq<Range>, k: nat, x: Id)
    requires Apart(ranges) && k < |ranges| && !Covers(ranges[k], x) && Next(ranges[k].high) == x
    requires k + 1 < |ranges| ==> ranges[k + 1].low != Next(x)
    ensures var after := ranges[k := Range(ranges[k].low, x)];
            if WrapsAt(ranges[k], x) then !Apart(after) else Apart(after) && Adds(ranges, after, x)
  {
    var after := ranges[k := Range(ranges[k].low, x)];
    if WrapsAt(ranges[k], x) {
      assert after[k].low > after[k].high;
    } else {
      Replaced(ranges, k, Range(ranges[k].low, x), x);
    }
  }

  lemma Lowered(ranges: seq<Range>, k: nat, x: Id)
    requires Apart(ranges) && k < |ranges| && !Covers(ranges[k], x) && Next(ranges[k].high) != x && Previous(ranges[k].low) == x
    requires k > 0 ==> ranges[k - 1].high != Previous(x)
    ensures var after := ranges[k := Range(x, ranges[k].high)];
            if WrapsAt(ranges[k], x) then !Apart(after) else Apart(after) && Adds(ranges, after, x)
  {
    var after := ranges[k := Range(x, ranges[k].high)];
    if WrapsAt(ranges[k], x) {
      assert after[k].low > after[k].high;
    } else {
      Replaced(ranges, k, Range(x, ranges[k].high), x);
    }
  }

  /** x closes the gap between two ranges. */
  lemma Joined(ranges: seq<Range>, k: nat, x: Id)
    requires Apart(ranges) && k + 1 < |ranges| && ranges[k].high + 1 == x && x + 1 == ranges[k + 1].low
    ensures var after := ranges[..k] + [Range(ranges[k].low, ranges[k + 1].high)] + ranges[k + 2..]; Apart(after) && Adds(ranges, after, x)
  {
    var r := Range(ranges[k].low, ranges[k + 1].high);
    var after := ranges[..k] + [r] + ranges[k + 2..];
    ApartJoined(ranges, k);
    hide Apart;
    forall y: Id ensures Has(after, y) <==> Has(ranges, y) || y == x {
      if i :| 0 <= i < |ranges| && Covers(ranges[i], y) {
        assert Covers(after[if i <= k then i else i - 1], y);
      }
      if i :| 0 <= i < |after| && Covers(after[i], y) {
        if i != k {
          assert Covers(ranges[if i < k then i else i + 1], y);
        } else {
          assert Covers(ranges[k], y) || Covers(ranges[k + 1], y) || y == x;
        }
      }
      assert Covers(after[k], x);
    }
  }

  lemma ApartJoined(ranges: seq<Range>, k: nat)
    requires Apart(ranges) && k + 1 < |ranges|
    ensures Apart(ranges[..k] + [Range(ranges[k].low, ranges[k + 1].high)] + ranges[k + 2..])
  {
  }

  /** Without the largest number there is nothing to be misled by. */
  lemma SmallNeverWraps(r: Range, x: Id)
    requires x < Limit - 1 && r.high < Limit - 1
    ensures !WrapsAt(r, x)
  {
  }

  /** Nothing recorded is the largest number. */
  predicate Small(ranges: seq<Range>) {
    forall i :: 0 <= i < |ranges| ==> ranges[i].high < Limit - 1
  }

  lemma StaysSmall(before: seq<Range>, after: seq<Range>, x: Id)
    requires Small(before) && Apart(after) && Adds(before, after, x) && x < Limit - 1
    ensures Small(after)
  {
    forall i | 0 <= i < |after| ensures after[i].high < Limit - 1 {
      assert Covers(after[i], after[i].high) && Has(after, after[i].high);
      if j :| 0 <= j < |before| && Covers(before[j], after[i].high) {
        assert before[j].high < Limit - 1;
      }
    }
  }

  /** A whole run over numbers below 2^32 - 1: afterwards exactly those inserted are duplicates. */
  method TrackAll(ids: seq<Id>) returns (t: Tracker)
    requires forall x :: x in ids ==> x < Limit - 1
    ensures fresh(t) && t.Valid() && forall y: Id :: Has(t.ranges, y) <==> y in ids
  {
    t := new Tracker();
    for i := 0 to |ids|
      invariant t.Valid() && Small(t.ranges) && fresh(t) && forall y: Id :: Has(t.ranges, y) <==> y in ids[..i]
    {
      var x := ids[i];
      assert x in ids;
      ghost var before := t.ranges;
      if t.current < |t.ranges| {
        SmallNeverWraps(t.ranges[t.current], x);
      }
      t.Insert(x);
      StaysSmall(before, t.ranges, x);
      assert ids[..i + 1] == ids[..i] + [x];
    }
    assert ids[..|ids|] == ids;
  }

  lemma OnlyOne(ranges: seq<Range>, x: Id)
    requires Apart(ranges) && forall y: Id :: Has(ranges, y) <==> y == x
    ensures ranges == [Range(x, x)]
  {
    assert Has(ranges, x);
    forall i | 0 <= i < |ranges| ensures ranges[i] == Range(x, x) {
      assert Covers(ranges[i], ranges[i].low) && Covers(ranges[i], ranges[i].high);
      assert Has(ranges, ranges[i].low) && Has(ranges, ranges[i].high);
    }
    assert |ranges| > 1 ==> ranges[0].high + 1 < ranges[1].low;
  }

  /** Inserting 0 and then 2^32 - 1 breaks the list. */
  method WrapBreaksTracker() returns (t: Tracker)
    ensures !t.Valid()
  {
    t := new Tracker();
    t.Insert(0);
    OnlyOne(t.ranges, 0);
    t.Insert(Limit - 1);
  }
}
