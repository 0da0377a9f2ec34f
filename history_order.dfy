/**
 * The two passes `read_history_file` (src/history.rs) makes over the
 * parsed entries: a stable sort, newest first with untimed entries last,
 * and a deduplication that keeps the first entry of each command. Both are
 * defined here as functions and characterised by lemmas; module History
 * runs them.
 */
module HistoryOrder {
  import opened Wrappers
  import opened HistoryParse

  /* ---------------- the comparator ---------------- */

  datatype Ordering = Less | Equal | Greater

  /** The comparator passed to `sort_by`: newer timestamps first, entries with a timestamp before those without. */
  function Compare(a: HistoryEntry, b: HistoryEntry): Ordering {
    match (a.timestamp, b.timestamp)
    case (Some(x), Some(y)) => if y < x then Less else if y == x then Equal else Greater
    case (Some(_), None) => Less
    case (None, Some(_)) => Greater
    case (None, None) => Equal
  }

  /** The key the comparator sorts by, in descending order: a timestamp t ranks t + 1, no timestamp ranks 0. */
  function Rank(e: HistoryEntry): nat {
    match e.timestamp
    case Some(t) => t + 1
    case None => 0
  }

  /** The comparator is exactly "higher rank first". */
  lemma CompareIsRank(a: HistoryEntry, b: HistoryEntry)
    ensures Compare(a, b) == Less <==> Rank(a) > Rank(b)
    ensures Compare(a, b) == Equal <==> Rank(a) == Rank(b)
    ensures Compare(a, b) == Greater <==> Rank(a) < Rank(b)
  {
  }

  /** A rank at least that of a timestamped entry belongs to an entry with a timestamp at least as large. */
  lemma RankOrder(a: HistoryEntry, b: HistoryEntry)
    requires Rank(a) <= Rank(b)
    ensures a.timestamp.Some? ==> b.timestamp.Some? && a.timestamp.value <= b.timestamp.value
  {
  }

  /** Newest first: ranks never increase along the sequence. */
  predicate Sorted(s: seq<HistoryEntry>) {
    forall i, j :: 0 <= i < j < |s| ==> Rank(s[i]) >= Rank(s[j])
  }

  /* ---------------- the stable sort ---------------- */

  /** Places `x` after every entry that ranks at least as high, so that it follows the entries it ties with. */
  function Insert(s: seq<HistoryEntry>, x: HistoryEntry): seq<HistoryEntry> {
    if s == [] then [x]
    else if Rank(s[0]) < Rank(x) then [x] + s
    else [s[0]] + Insert(s[1..], x)
  }

  lemma {:induction false} InsertPermutes(s: seq<HistoryEntry>, x: HistoryEntry)
    ensures multiset(Insert(s, x)) == multiset(s) + multiset{x}
  {
    if s != [] && Rank(s[0]) >= Rank(x) {
      InsertPermutes(s[1..], x);
      assert s == [s[0]] + s[1..];
    }
  }

  /** Inserting an entry ranked at most `b` among entries ranked at most `b` gives entries ranked at most `b`. */
  lemma {:induction false} InsertBounded(s: seq<HistoryEntry>, x: HistoryEntry, b: nat)
    requires forall i :: 0 <= i < |s| ==> Rank(s[i]) <= b
    requires Rank(x) <= b
    ensures forall i :: 0 <= i < |Insert(s, x)| ==> Rank(Insert(s, x)[i]) <= b
  {
    if s != [] && Rank(s[0]) >= Rank(x) {
      var rest := Insert(s[1..], x);
      InsertBounded(s[1..], x, b);
      assert Insert(s, x) == [s[0]] + rest;
    }
  }

  lemma SortedTail(s: seq<HistoryEntry>)
    requires Sorted(s) && s != []
    ensures Sorted(s[1..])
    ensures forall i :: 0 <= i < |s[1..]| ==> Rank(s[1..][i]) <= Rank(s[0])
  {
  }

  lemma {:induction false} InsertSorted(s: seq<HistoryEntry>, x: HistoryEntry)
    requires Sorted(s)
    ensures Sorted(Insert(s, x))
  {
    if s != [] && Rank(s[0]) >= Rank(x) {
      var rest := Insert(s[1..], x);
      SortedTail(s);
      InsertSorted(s[1..], x);
      InsertBounded(s[1..], x, Rank(s[0]));
      var r := [s[0]] + rest;
      assert Insert(s, x) == r;
      forall i, j | 0 <= i < j < |r| ensures Rank(r[i]) >= Rank(r[j]) {
        assert r[j] == rest[j - 1];
        if i > 0 {
          assert r[i] == rest[i - 1];
        }
      }
    }
  }

  /**
   * `entries.sort_by(..)`: a stable sort by descending rank, written as an
   * insertion sort; each entry goes after the entries before it that it ties with.
   */
  function SortByRecency(s: seq<HistoryEntry>): seq<HistoryEntry> {
    if s == [] then [] else Insert(SortByRecency(s[..|s| - 1]), s[|s| - 1])
  }

  /** Sorting keeps every entry, as often as it occurs. */
  lemma {:induction false} SortPermutes(s: seq<HistoryEntry>)
    ensures multiset(SortByRecency(s)) == multiset(s)
  {
    if s != [] {
      SortPermutes(s[..|s| - 1]);
      InsertPermutes(SortByRecency(s[..|s| - 1]), s[|s| - 1]);
      assert s == s[..|s| - 1] + [s[|s| - 1]];
    }
  }

  /** Sorting puts newer entries first. */
  lemma {:induction false} SortSorted(s: seq<HistoryEntry>)
    ensures Sorted(SortByRecency(s))
  {
    if s != [] {
      SortSorted(s[..|s| - 1]);
      InsertSorted(SortByRecency(s[..|s| - 1]), s[|s| - 1]);
    }
  }

  /** `e` alone if it has rank `k`, otherwise nothing. */
  function OfRank(e: HistoryEntry, k: nat): seq<HistoryEntry> {
    if Rank(e) == k then [e] else []
  }

  /** The entries of rank `k`, in order. */
  function FilterRank(s: seq<HistoryEntry>, k: nat): seq<HistoryEntry> {
    if s == [] then [] else OfRank(s[0], k) + FilterRank(s[1..], k)
  }

  lemma FilterRankCons(x: HistoryEntry, s: seq<HistoryEntry>, k: nat)
    ensures FilterRank([x] + s, k) == OfRank(x, k) + FilterRank(s, k)
  {
    assert ([x] + s)[0] == x;
    assert ([x] + s)[1..] == s;
  }

  lemma {:induction false} FilterRankAppend(a: seq<HistoryEntry>, b: seq<HistoryEntry>, k: nat)
    ensures FilterRank(a + b, k) == FilterRank(a, k) + FilterRank(b, k)
  {
    if a == [] {
      assert a + b == b;
    } else {
      var x, t := a[0], a[1..];
      assert a == [x] + t;
      assert a + b == [x] + (t + b);
      FilterRankCons(x, t + b, k);
      FilterRankCons(x, t, k);
      FilterRankAppend(t, b, k);
      assert OfRank(x, k) + (FilterRank(t, k) + FilterRank(b, k)) == (OfRank(x, k) + FilterRank(t, k)) + FilterRank(b, k);
    }
  }

  lemma FilterRankSingle(x: HistoryEntry, k: nat)
    ensures FilterRank([x], k) == OfRank(x, k)
  {
    FilterRankCons(x, [], k);
    assert [x] + [] == [x];
  }

  lemma {:induction false} FilterRankBelow(s: seq<HistoryEntry>, k: nat)
    requires Sorted(s) && s != [] && Rank(s[0]) < k
    ensures FilterRank(s, k) == []
  {
    assert s == [s[0]] + s[1..];
    FilterRankCons(s[0], s[1..], k);
    if |s| > 1 {
      SortedTail(s);
      FilterRankBelow(s[1..], k);
    } else {
      assert s[1..] == [];
    }
  }

  /** An entry ranked above the head of a sorted sequence is inserted in front. */
  lemma FilterRankInsertFront(s: seq<HistoryEntry>, x: HistoryEntry, k: nat)
    requires Sorted(s) && s != [] && Rank(s[0]) < Rank(x)
    ensures FilterRank(Insert(s, x), k) == FilterRank(s, k) + OfRank(x, k)
  {
    assert Insert(s, x) == [x] + s;
    FilterRankCons(x, s, k);
    if Rank(x) == k {
      FilterRankBelow(s, k);
    }
  }

  lemma {:induction false} FilterRankInsert(s: seq<HistoryEntry>, x: HistoryEntry, k: nat)
    requires Sorted(s)
    ensures FilterRank(Insert(s, x), k) == FilterRank(s, k) + OfRank(x, k)
  {
    if s == [] {
      FilterRankSingle(x, k);
    } else if Rank(s[0]) < Rank(x) {
      FilterRankInsertFront(s, x, k);
    } else {
      var y, t := s[0], s[1..];
      assert s == [y] + t;
      SortedTail(s);
      assert Insert(s, x) == [y] + Insert(t, x);
      FilterRankInsert(t, x, k);
      FilterRankCons(y, Insert(t, x), k);
      FilterRankCons(y, t, k);
      assert OfRank(y, k) + (FilterRank(t, k) + OfRank(x, k)) == (OfRank(y, k) + FilterRank(t, k)) + OfRank(x, k);
    }
  }

  /** Stability: the entries of each rank keep their order from the file. */
  lemma {:induction false} SortStable(s: seq<HistoryEntry>, k: nat)
    ensures FilterRank(SortByRecency(s), k) == FilterRank(s, k)
  {
    if s != [] {
      var init, x := s[..|s| - 1], s[|s| - 1];
      var sorted := SortByRecency(init);
      SortSorted(init);
      calc {
        FilterRank(SortByRecency(s), k);
        FilterRank(Insert(sorted, x), k);
        { FilterRankInsert(sorted, x, k); }
        FilterRank(sorted, k) + OfRank(x, k);
        { SortStable(init, k); FilterRankSingle(x, k); }
        FilterRank(init, k) + FilterRank([x], k);
        { FilterRankAppend(init, [x], k); }
        FilterRank(init + [x], k);
        { assert s == init + [x]; }
        FilterRank(s, k);
      }
    }
  }

  /* ---------------- deduplication ---------------- */

  /** The commands occurring in `s`. */
  function Commands(s: seq<HistoryEntry>): set<string> {
    set i | 0 <= i < |s| :: s[i].command
  }

  lemma CommandsAppend(s: seq<HistoryEntry>, x: HistoryEntry)
    ensures Commands(s + [x]) == Commands(s) + {x.command}
  {
    var t := s + [x];
    assert forall i :: 0 <= i < |s| ==> t[i] == s[i];
    assert t[|s|] == x;
  }

  /** No command occurs twice. */
  predicate UniqueCommands(s: seq<HistoryEntry>) {
    forall i, j :: 0 <= i < j < |s| ==> s[i].command != s[j].command
  }

  /**
   * The deduplication loop over a `HashSet` of seen commands: an entry is
   * kept when its command has not been seen before it.
   */
  function Dedup(s: seq<HistoryEntry>): seq<HistoryEntry> {
    if s == [] then []
    else
      var init, x := s[..|s| - 1], s[|s| - 1];
      if x.command in Commands(init) then Dedup(init) else Dedup(init) + [x]
  }

  /** Deduplication leaves each command exactly once. */
  lemma {:induction false} DedupCommands(s: seq<HistoryEntry>)
    ensures UniqueCommands(Dedup(s))
    ensures Commands(Dedup(s)) == Commands(s)
  {
    if s != [] {
      var init, x := s[..|s| - 1], s[|s| - 1];
      var d := Dedup(init);
      DedupCommands(init);
      assert s == init + [x];
      CommandsAppend(init, x);
      if x.command !in Commands(init) {
        CommandsAppend(d, x);
        var r := d + [x];
        forall i, j | 0 <= i < j < |r| ensures r[i].command != r[j].command {
          assert r[i] == d[i];
          if j == |d| {
            assert d[i].command in Commands(d);
          } else {
            assert r[j] == d[j];
          }
        }
      }
    }
  }

  /** The index of the first entry with command `c`; |s| when there is none. */
  function FirstIndex(s: seq<HistoryEntry>, c: string): (r: nat)
    ensures r <= |s|
    ensures r < |s| ==> s[r].command == c
    ensures forall j :: 0 <= j < r ==> s[j].command != c
  {
    if s == [] then 0
    else if s[0].command == c then 0
    else
      var r := 1 + FirstIndex(s[1..], c);
      assert forall j :: 1 <= j < |s| ==> s[j] == s[1..][j - 1];
      r
  }

  /** A command has a first entry exactly when it occurs. */
  lemma FirstIndexFound(s: seq<HistoryEntry>, c: string)
    ensures FirstIndex(s, c) < |s| <==> c in Commands(s)
  {
    if c in Commands(s) {
      var i :| 0 <= i < |s| && s[i].command == c;
      assert FirstIndex(s, c) <= i;
    }
  }

  lemma FirstIndexAppend(s: seq<HistoryEntry>, x: HistoryEntry, c: string)
    requires c in Commands(s)
    ensures FirstIndex(s + [x], c) == FirstIndex(s, c)
  {
    FirstIndexFound(s, c);
    var t := s + [x];
    var i := FirstIndex(s, c);
    assert t[i] == s[i];
    assert forall j :: 0 <= j < i ==> t[j] == s[j];
  }

  lemma FirstIndexLast(s: seq<HistoryEntry>, x: HistoryEntry)
    requires x.command !in Commands(s)
    ensures FirstIndex(s + [x], x.command) == |s|
  {
    var t := s + [x];
    forall j | 0 <= j < |s| ensures t[j].command != x.command {
      assert t[j] == s[j];
      assert s[j].command in Commands(s);
    }
    assert t[|s|] == x;
  }

  /**
   * Deduplication keeps, for each command, the first entry that has it, and
   * keeps those entries in their order in `s`.
   */
  lemma {:induction false} DedupKeepsFirst(s: seq<HistoryEntry>)
    ensures forall i :: 0 <= i < |Dedup(s)| ==>
      FirstIndex(s, Dedup(s)[i].command) < |s| && s[FirstIndex(s, Dedup(s)[i].command)] == Dedup(s)[i]
    ensures forall i, j :: 0 <= i < j < |Dedup(s)| ==>
      FirstIndex(s, Dedup(s)[i].command) < FirstIndex(s, Dedup(s)[j].command)
  {
    if s != [] {
      var init, x := s[..|s| - 1], s[|s| - 1];
      assert s == init + [x];
      DedupKeepsFirst(init);
      DedupCommands(init);
      var d := Dedup(init);
      forall i | 0 <= i < |d| ensures FirstIndex(s, d[i].command) == FirstIndex(init, d[i].command) {
        assert d[i].command in Commands(d);
        FirstIndexAppend(init, x, d[i].command);
      }
      if x.command !in Commands(init) {
        FirstIndexLast(init, x);
        assert Dedup(s) == d + [x];
      } else {
        assert Dedup(s) == d;
      }
    }
  }

  /** The kept entry at position `i` is the first entry of `s` with its command. */
  lemma DedupKept(s: seq<HistoryEntry>, i: nat)
    requires i < |Dedup(s)|
    ensures FirstIndex(s, Dedup(s)[i].command) < |s|
    ensures s[FirstIndex(s, Dedup(s)[i].command)] == Dedup(s)[i]
  {
    DedupKeepsFirst(s);
  }

  /** An entry's rank is at most that of the first entry sharing its command, in a sorted sequence. */
  lemma FirstRanksHighest(s: seq<HistoryEntry>, i: nat)
    requires Sorted(s) && i < |s|
    ensures FirstIndex(s, s[i].command) <= i
    ensures Rank(s[i]) <= Rank(s[FirstIndex(s, s[i].command)])
  {
  }

  /** After sorting and deduplicating, the entry kept for a command ranks at least as high as every entry with that command. */
  lemma KeptIsNewest(p: seq<HistoryEntry>, e: HistoryEntry, i: nat)
    requires e in p
    requires i < |Dedup(SortByRecency(p))| && Dedup(SortByRecency(p))[i].command == e.command
    ensures Rank(e) <= Rank(Dedup(SortByRecency(p))[i])
  {
    var s := SortByRecency(p);
    var kept := Dedup(s)[i];
    SortPermutes(p);
    SortSorted(p);
    assert e in multiset(s);
    var j :| 0 <= j < |s| && s[j] == e;
    FirstRanksHighest(s, j);
    DedupKept(s, i);
    assert s[FirstIndex(s, e.command)] == kept;
  }

  /** Deduplicating a sorted sequence leaves it sorted. */
  lemma DedupSorted(s: seq<HistoryEntry>)
    requires Sorted(s)
    ensures Sorted(Dedup(s))
  {
    DedupKeepsFirst(s);
  }

  lemma FirstIndexTail(s: seq<HistoryEntry>, c: string)
    requires s != [] && s[0].command != c
    ensures FirstIndex(s, c) == 1 + FirstIndex(s[1..], c)
  {
  }

  /**
   * The first entry with a command is also the first entry with that
   * command among the entries of its rank.
   */
  lemma {:induction false} FirstWithinRank(s: seq<HistoryEntry>, c: string, k: nat)
    requires FirstIndex(s, c) < |s| && k == Rank(s[FirstIndex(s, c)])
    ensures FirstIndex(FilterRank(s, k), c) < |FilterRank(s, k)|
    ensures FilterRank(s, k)[FirstIndex(FilterRank(s, k), c)] == s[FirstIndex(s, c)]
  {
    var f, t := FilterRank(s, k), s[1..];
    assert s == [s[0]] + t;
    FilterRankCons(s[0], t, k);
    if s[0].command == c {
      assert f[0] == s[0];
    } else {
      FirstIndexTail(s, c);
      FirstWithinRank(t, c, k);
      var f1 := FilterRank(t, k);
      if Rank(s[0]) == k {
        assert f == [s[0]] + f1;
        FirstIndexTail(f, c);
        assert f[1..] == f1;
      } else {
        assert f == f1;
      }
    }
  }
}
