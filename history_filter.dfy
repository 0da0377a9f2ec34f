/**
 * `filter_multiple` and `filter` (src/history.rs): narrowing the history by
 * several search strings, each matched case-insensitively anywhere in a
 * command. The escaped pattern `(?i)<filter>` is modelled as containment of
 * the lower-cased filter in the lower-cased command.
 */
module HistoryFilter {
  import opened Wrappers
  import opened Text
  import opened Shell
  import opened HistoryParse

  /** The history a `HistoryManager` holds, with the shell it was read for. */
  datatype HistoryManager = HistoryManager(entries: seq<HistoryEntry>, shellType: ShellType)

  /** `re.is_match(command)` for the case-insensitive, escaped pattern of filter `f`. */
  predicate ContainsIgnoreCase(command: string, f: string) {
    Contains(ToLower(command), ToLower(f))
  }

  /** One `.filter(..).collect()` pass: the entries matching `f`, in order. */
  function Matching(es: seq<HistoryEntry>, f: string): (r: seq<HistoryEntry>)
    ensures |r| <= |es|
    ensures forall e :: e in r <==> e in es && ContainsIgnoreCase(e.command, f)
  {
    if es == [] then []
    else
      var rest := Matching(es[1..], f);
      assert forall e :: e in es <==> e == es[0] || e in es[1..];
      (if ContainsIgnoreCase(es[0].command, f) then [es[0]] else []) + rest
  }

  /** The filters of the loop, applied one after the other from the left; empty ones are skipped. */
  function ApplyFilters(es: seq<HistoryEntry>, fs: seq<string>): seq<HistoryEntry> {
    if fs == [] then es
    else
      var prev := ApplyFilters(es, fs[..|fs| - 1]);
      if fs[|fs| - 1] == [] then prev else Matching(prev, fs[|fs| - 1])
  }

  /** What `filter_multiple` returns. */
  function FilterResult(es: seq<HistoryEntry>, fs: seq<string>): seq<HistoryEntry> {
    if fs == [] || fs[0] == [] then es else ApplyFilters(es, fs)
  }

  /* ---------------- a reference definition: one pass with all the filters ---------------- */

  /** `command` contains every non-empty filter, ignoring case. */
  predicate MatchesAll(command: string, fs: seq<string>) {
    forall j :: 0 <= j < |fs| && fs[j] != [] ==> ContainsIgnoreCase(command, fs[j])
  }

  /** The entries matching all of `fs`, in order. */
  function Select(es: seq<HistoryEntry>, fs: seq<string>): (r: seq<HistoryEntry>)
    ensures |r| <= |es|
    ensures forall e :: e in r <==> e in es && MatchesAll(e.command, fs)
  {
    if es == [] then []
    else
      var rest := Select(es[1..], fs);
      assert forall e :: e in es <==> e == es[0] || e in es[1..];
      (if MatchesAll(es[0].command, fs) then [es[0]] else []) + rest
  }

  lemma MatchesAllSnoc(command: string, fs: seq<string>, f: string)
    ensures MatchesAll(command, fs + [f]) <==>
      MatchesAll(command, fs) && (f == [] || ContainsIgnoreCase(command, f))
  {
    var g := fs + [f];
    assert forall j :: 0 <= j < |fs| ==> g[j] == fs[j];
    assert g[|fs|] == f;
  }

  /** Adding a filter narrows the selection by that filter alone. */
  lemma {:induction false} SelectSnoc(es: seq<HistoryEntry>, fs: seq<string>, f: string)
    requires f != []
    ensures Select(es, fs + [f]) == Matching(Select(es, fs), f)
  {
    if es != [] {
      SelectSnoc(es[1..], fs, f);
      MatchesAllSnoc(es[0].command, fs, f);
      var s := Select(es, fs);
      if MatchesAll(es[0].command, fs) {
        assert s == [es[0]] + Select(es[1..], fs);
        assert s[1..] == Select(es[1..], fs);
      } else {
        assert s == Select(es[1..], fs);
      }
    }
  }

  /** Adding an empty filter changes nothing. */
  lemma {:induction false} SelectSnocEmpty(es: seq<HistoryEntry>, fs: seq<string>)
    ensures Select(es, fs + [[]]) == Select(es, fs)
  {
    if es != [] {
      SelectSnocEmpty(es[1..], fs);
      MatchesAllSnoc(es[0].command, fs, []);
    }
  }

  /** With no filters every entry is selected. */
  lemma {:induction false} SelectNone(es: seq<HistoryEntry>)
    ensures Select(es, []) == es
  {
    if es != [] {
      SelectNone(es[1..]);
      assert es == [es[0]] + es[1..];
    }
  }

  /** Applying the filters one after the other is the same as selecting by all of them at once. */
  lemma {:induction false} ApplyIsSelect(es: seq<HistoryEntry>, fs: seq<string>)
    ensures ApplyFilters(es, fs) == Select(es, fs)
  {
    if fs == [] {
      SelectNone(es);
    } else {
      var init, f := fs[..|fs| - 1], fs[|fs| - 1];
      assert fs == init + [f];
      ApplyIsSelect(es, init);
      if f == [] {
        SelectSnocEmpty(es, init);
      } else {
        SelectSnoc(es, init, f);
      }
    }
  }

  /**
   * When the first filter is non-empty, the result is the entries, in their
   * order, whose command contains every non-empty filter ignoring case.
   */
  lemma FilterSelects(es: seq<HistoryEntry>, fs: seq<string>)
    requires fs != [] && fs[0] != []
    ensures FilterResult(es, fs) == Select(es, fs)
    ensures forall e :: e in FilterResult(es, fs) <==> e in es && MatchesAll(e.command, fs)
  {
    ApplyIsSelect(es, fs);
  }

  /** An extra non-empty filter narrows the result further, by that filter only. */
  lemma FilterNarrows(es: seq<HistoryEntry>, fs: seq<string>, f: string)
    requires fs != [] && fs[0] != [] && f != []
    ensures FilterResult(es, fs + [f]) == Matching(FilterResult(es, fs), f)
    ensures |FilterResult(es, fs + [f])| <= |FilterResult(es, fs)|
  {
    ApplyIsSelect(es, fs);
    ApplyIsSelect(es, fs + [f]);
    SelectSnoc(es, fs, f);
  }

  /** A trailing empty filter is skipped. */
  lemma FilterIgnoresEmptyLast(es: seq<HistoryEntry>, fs: seq<string>)
    requires fs != []
    ensures FilterResult(es, fs + [[]]) == FilterResult(es, fs)
  {
    var g := fs + [[]];
    assert g[..|g| - 1] == fs;
  }

  /** `filter_multiple`: the loop over the filters, reassigning `filtered`. */
  method FilterMultiple(m: HistoryManager, filters: seq<string>) returns (filtered: seq<HistoryEntry>)
    // no filters, or an empty first one: every entry, whatever the later filters
    ensures filters == [] || filters[0] == [] ==> filtered == m.entries
    // otherwise the entries that match every non-empty filter, in order
    ensures filters != [] && filters[0] != [] ==> filtered == Select(m.entries, filters)
  {
    if filters == [] || filters[0] == [] {
      return m.entries;
    }
    filtered := m.entries;
    for i := 0 to |filters|
      invariant filtered == ApplyFilters(m.entries, filters[..i])
    {
      assert filters[..i + 1][..i] == filters[..i];
      if filters[i] == [] {
        continue;
      }
      filtered := Matching(filtered, filters[i]);
    }
    assert filters[..|filters|] == filters;
    ApplyIsSelect(m.entries, filters);
  }

  /** `filter`: one or two filters; an empty second filter is dropped. */
  method Filter(m: HistoryManager, first: string, second: string) returns (filtered: seq<HistoryEntry>)
    ensures first == [] ==> filtered == m.entries
    ensures first != [] ==> filtered == Select(m.entries, [first, second])
  {
    var filters := if second == [] then [first] else [first, second];
    filtered := FilterMultiple(m, filters);
    if first != [] && second == [] {
      SelectSnocEmpty(m.entries, [first]);
      assert [first] + [[]] == [first, second];
    }
  }

  /* ---------------- the filter test of src/history.rs ---------------- */

  lemma NoUpperCase(s: string)
    requires forall i :: 0 <= i < |s| ==> s[i] in " -/abcdefghijklmnopqrstuvwxyz"
    ensures ToLower(s) == s
  {
    LowerUnchanged(s);
  }

  lemma MatchesAt(command: string, f: string, i: nat)
    requires ToLower(command) == command && ToLower(f) == f && OccursAt(command, f, i)
    ensures ContainsIgnoreCase(command, f)
  {
  }

  lemma MissesChar(command: string, f: string, j: nat)
    requires ToLower(command) == command && ToLower(f) == f && j < |f| && f[j] !in command
    ensures !ContainsIgnoreCase(command, f)
  {
    MissingChar(command, f, j);
  }

  /** The commands of the test that start with "ls" match the filter `ls`. */
  lemma StartsWithLs(c: string, f: string)
    requires (c == "ls -la" || c == "ls -l /tmp") && f == "ls"
    ensures ContainsIgnoreCase(c, f)
  {
    NoUpperCase(c);
    NoUpperCase(f);
    MatchesAt(c, f, 0);
  }

  /** A filter whose first letter the command lacks misses it: `tmp` in "ls -la", `ls` in "cd /tmp". */
  lemma LacksFirstLetter(c: string, f: string)
    requires (c == "ls -la" && f == "tmp") || (c == "cd /tmp" && f == "ls")
    ensures !ContainsIgnoreCase(c, f)
  {
    NoUpperCase(c);
    NoUpperCase(f);
    MissesChar(c, f, 0);
  }

  lemma LsTmpMatchesTmp(c: string, f: string)
    requires c == "ls -l /tmp" && f == "tmp"
    ensures ContainsIgnoreCase(c, f)
  {
    NoUpperCase(c);
    NoUpperCase(f);
    assert c[7..10] == f;
    MatchesAt(c, f, 7);
  }

  /** Three entries, filtered by `ls` and then by `tmp`: the selections the test expects. */
  lemma FilterTestData(a: HistoryEntry, b: HistoryEntry, c: HistoryEntry, ls: string, tmp: string)
    requires a.command == "ls -la" && b.command == "cd /tmp" && c.command == "ls -l /tmp"
    requires ls == "ls" && tmp == "tmp"
    ensures Select([a, b, c], [ls, []]) == [a, c]
    ensures Select([a, b, c], [ls, tmp]) == [c]
  {
    StartsWithLs(a.command, ls);
    LacksFirstLetter(b.command, ls);
    StartsWithLs(c.command, ls);
    LacksFirstLetter(a.command, tmp);
    LsTmpMatchesTmp(c.command, tmp);
    MatchesTwo(a.command, ls, []);
    MatchesTwo(b.command, ls, []);
    MatchesTwo(c.command, ls, []);
    MatchesTwo(a.command, ls, tmp);
    MatchesTwo(b.command, ls, tmp);
    MatchesTwo(c.command, ls, tmp);
    SelectThree(a, b, c, [ls, []]);
    SelectThree(a, b, c, [ls, tmp]);
  }

  lemma MatchesTwo(command: string, f: string, g: string)
    ensures MatchesAll(command, [f, g]) <==>
      (f == [] || ContainsIgnoreCase(command, f)) && (g == [] || ContainsIgnoreCase(command, g))
  {
    var fs := [f, g];
    assert fs[0] == f && fs[1] == g;
  }

  lemma SelectThree(a: HistoryEntry, b: HistoryEntry, c: HistoryEntry, fs: seq<string>)
    ensures Select([a, b, c], fs) ==
      (if MatchesAll(a.command, fs) then [a] else []) +
      (if MatchesAll(b.command, fs) then [b] else []) +
      (if MatchesAll(c.command, fs) then [c] else [])
  {
    assert [a, b, c][1..] == [b, c] && [b, c][1..] == [c] && [c][1..] == [];
    assert Select([c], fs) == (if MatchesAll(c.command, fs) then [c] else []) + Select([], fs);
    assert Select([b, c], fs) == (if MatchesAll(b.command, fs) then [b] else []) + Select([c], fs);
    assert Select([a, b, c], fs) == (if MatchesAll(a.command, fs) then [a] else []) + Select([b, c], fs);
  }
}
