/**
 ompi_comm_split on an intra-communicator (ompi/communicator/comm.c; section 6.4.2 of MPI-3.0):
 every process gathers the colours and keys of all and sorts those of its own colour.
 */
module CommSplit {
  /** What a process contributes to the allgather. */
  datatype Info = Info(color: int, key: int)

  /** A pair of the array that is sorted: the old rank and its key. */
  datatype Entry = Entry(rank: nat, key: int)

  /** rankkeycompare. */
  function Compare(a: Entry, b: Entry): int {
    if a.key < b.key then -1 else if a.key > b.key then 1
    else if a.rank < b.rank then -1 else if a.rank == b.rank then 0 else 1
  }

  predicate Rising(s: seq<Entry>) {
    forall i, j :: 0 <= i < j < |s| ==> Compare(s[i], s[j]) < 0
  }

  /** The entry of a process, if it has that colour. */
  predicate Belongs(results: seq<Info>, color: int, e: Entry) {
    e.rank < |results| && results[e.rank] == Info(color, e.key)
  }

  ghost predicate Lists(results: seq<Info>, color: int, s: seq<Entry>) {
    Rising(s) && forall e :: e in s <==> Belongs(results, color, e)
  }

  /** Any array sorted by rankkeycompare with the same entries: whatever qsort does with the order it starts from. */
  method Sort(s: seq<Entry>) returns (r: seq<Entry>)
    requires forall i, j :: 0 <= i < j < |s| ==> s[i] != s[j]
    ensures Rising(r) && |r| == |s| && forall e :: e in r <==> e in s
  {
    r := [];
    for n := 0 to |s|
      invariant |r| == n && Rising(r) && forall e :: e in r <==> e in s[..n]
    {
      var e := s[n];
      var i := 0;
      while i < |r| && Compare(r[i], e) < 0
        invariant 0 <= i <= |r| && forall j :: 0 <= j < i ==> Compare(r[j], e) < 0
      {
        i := i + 1;
      }
      assert e !in s[..n];
      PutRising(r, i, e);
      assert s[..n + 1] == s[..n] + [e];
      r := r[..i] + [e] + r[i..];
    }
    assert s[..|s|] == s;
  }

  lemma PutRising(r: seq<Entry>, i: nat, e: Entry)
    requires Rising(r) && i <= |r| && e !in r && (forall j :: 0 <= j < i ==> Compare(r[j], e) < 0)
    requires i < |r| ==> Compare(r[i], e) >= 0
    ensures Rising(r[..i] + [e] + r[i..]) && forall x :: x in r[..i] + [e] + r[i..] <==> x in r || x == e
  {
    assert r == r[..i] + r[i..];
    forall j | i <= j < |r| ensures Compare(e, r[j]) < 0 {
      assert r[j] in r;
      assert i < j ==> Compare(r[i], r[j]) < 0;
    }
  }

  /** Section 6.4.2 of MPI-3.0: process k comes before process l in the new group. */
  predicate InKeyOrder(results: seq<Info>, k: nat, l: nat) {
    k < |results| && l < |results| && (results[k].key < results[l].key || (results[k].key == results[l].key && k < l))
  }

  /** Lines 459-501: the ranks of the new group, by ascending key, equal keys by old rank; fails only if nobody has the colour. */
  method SplitGroup(results: seq<Info>, color: int) returns (ok: bool, lranks: seq<nat>, ghost sorted: seq<Entry>)
    ensures ok <==> exists i :: 0 <= i < |results| && results[i].color == color
    ensures ok ==> forall rank :: rank in lranks <==> 0 <= rank < |results| && results[rank].color == color
    ensures ok ==> forall i, j :: 0 <= i < j < |lranks| ==> InKeyOrder(results, lranks[i], lranks[j])
    ensures ok ==> Lists(results, color, sorted) && |lranks| == |sorted| && forall i :: 0 <= i < |lranks| ==> lranks[i] == sorted[i].rank
  {
    hide InKeyOrder, Compare, Rising;
    lranks, sorted := [], [];
    var mySize := 0;
    for i := 0 to |results|
      invariant mySize >= 0 && (mySize > 0 <==> exists k :: 0 <= k < i && results[k].color == color)
    {
      if results[i].color == color {
        mySize := mySize + 1;
      }
    }
    if mySize == 0 {
      return false, lranks, sorted;
    }
    var unsorted: seq<Entry> := [];
    for i := 0 to |results|
      invariant forall j, k :: 0 <= j < k < |unsorted| ==> unsorted[j].rank < unsorted[k].rank
      invariant forall j :: 0 <= j < |unsorted| ==> unsorted[j].rank < i && Belongs(results, color, unsorted[j])
      invariant forall k :: 0 <= k < i && results[k].color == color ==> Entry(k, results[k].key) in unsorted
    {
      if results[i].color == color {
        unsorted := unsorted + [Entry(i, results[i].key)];
      }
    }
    forall e ensures e in unsorted <==> Belongs(results, color, e) {
      assert Belongs(results, color, e) ==> Entry(e.rank, results[e.rank].key) == e;
    }
    var r := Sort(unsorted);
    sorted := r;
    lranks := seq(|r|, i requires 0 <= i < |r| => r[i].rank);
    ok := true;
    RanksOf(results, color, sorted, lranks);
  }

  /** The ranks of a list of entries are those of the colour, ordered by key and rank. */
  lemma RanksOf(results: seq<Info>, color: int, s: seq<Entry>, ranks: seq<nat>)
    requires Lists(results, color, s) && |ranks| == |s| && forall i :: 0 <= i < |s| ==> ranks[i] == s[i].rank
    ensures forall rank :: rank in ranks <==> 0 <= rank < |results| && results[rank].color == color
    ensures forall i, j :: 0 <= i < j < |ranks| ==> InKeyOrder(results, ranks[i], ranks[j])
  {
    forall i | 0 <= i < |s| ensures Belongs(results, color, s[i]) {
      assert s[i] in s;
    }
    forall rank: nat | rank < |results| && results[rank].color == color ensures rank in ranks {
      assert Belongs(results, color, Entry(rank, results[rank].key));
    }
  }

  // ---------------------------------------------------------------------------------------
  // All processes together

  /** Sorted lists of the same entries are the same list, so all processes of a colour compute the same group. */
  lemma {:induction false} SameList(s: seq<Entry>, t: seq<Entry>)
    requires Rising(s) && Rising(t) && forall e :: e in s <==> e in t
    ensures s == t
    decreases |s|
  {
    BothEmpty(s, t);
    BothEmpty(t, s);
    if s != [] {
      FirstIsLeast(s, t);
      RestSame(s, t);
      SameList(s[1..], t[1..]);
    }
  }

  lemma BothEmpty(s: seq<Entry>, t: seq<Entry>)
    requires forall e :: e in s <==> e in t
    ensures s != [] ==> t != []
  {
    assert s != [] ==> s[0] in s;
  }

  lemma FirstIsLeast(s: seq<Entry>, t: seq<Entry>)
    requires Rising(s) && Rising(t) && s != [] && t != [] && forall e :: e in s <==> e in t
    ensures s[0] == t[0]
  {
    assert s[0] in t && t[0] in s;
    var i :| 0 <= i < |s| && s[i] == t[0];
    var j :| 0 <= j < |t| && t[j] == s[0];
    assert i > 0 ==> Compare(s[0], s[i]) < 0;
    assert j > 0 ==> Compare(t[0], t[j]) < 0;
  }

  lemma RestSame(s: seq<Entry>, t: seq<Entry>)
    requires Rising(s) && Rising(t) && s != [] && t != [] && s[0] == t[0] && forall e :: e in s <==> e in t
    ensures forall e :: e in s[1..] <==> e in t[1..]
  {
    forall e ensures e in s[1..] <==> e in s && e != s[0] {
      NotFirst(s, e);
    }
    forall e ensures e in t[1..] <==> e in t && e != t[0] {
      NotFirst(t, e);
    }
  }

  lemma NotFirst(s: seq<Entry>, e: Entry)
    requires Rising(s) && s != []
    ensures e in s[1..] <==> e in s && e != s[0]
  {
    if e in s[1..] {
      var i :| 0 <= i < |s[1..]| && s[1..][i] == e;
      assert Compare(s[0], s[i + 1]) < 0;
    }
  }

  /** Two processes of one colour compute the same group, and every process is in exactly one list of the split. */
  lemma SplitPartitions(results: seq<Info>, c: int, d: int, s: seq<Entry>, t: seq<Entry>, rank: nat)
    requires Lists(results, c, s) && Lists(results, d, t) && rank < |results|
    ensures c == d ==> s == t
    ensures (exists e :: e in s && e.rank == rank) <==> results[rank].color == c
    ensures c != d ==> !exists e, f :: e in s && f in t && e.rank == f.rank
  {
    if c == d {
      SameList(s, t);
    }
    if results[rank].color == c {
      assert Belongs(results, c, Entry(rank, results[rank].key));
    }
  }
}
