/**
 * `HistoryManager::new` and `read_history_file` (src/history.rs): the
 * reading loop over the lines of the history file, the sort by recency and
 * the deduplication, as the loops the source runs, proved against the
 * functions of modules HistoryParse and HistoryOrder. The file itself is a
 * parameter: either the lines it splits into (`None` for a line that is
 * not valid UTF-8) or the message of the error that opening it gave.
 */
module History {
  import opened Wrappers
  import opened Errors
  import opened Text
  import opened Shell
  import opened Configuration
  import opened HistoryParse
  import opened HistoryOrder
  import opened HistoryFilter

  /** The entries `read_history_file` returns for the lines of a readable file. */
  function ReadHistory(format: HistoryFormat, lines: seq<Line>): seq<HistoryEntry> {
    Dedup(SortByRecency(Parsed(format, lines)))
  }

  /** The error `read_history_file` gives when the file cannot be opened. */
  function OpenError(cause: string): Error {
    HistoryRead("Failed to open history file: " + cause)
  }

  /** The reading loop: one iteration per line, then the final push of the pending Zsh command. */
  method ScanLines(format: HistoryFormat, lines: seq<Line>) returns (entries: seq<HistoryEntry>)
    ensures entries == Parsed(format, lines)
  {
    var currentCommand: string := [];
    var currentTimestamp: Option<nat> := None;
    entries := [];
    for i := 0 to |lines|
      invariant ScanState(currentCommand, currentTimestamp, entries) == ScanFrom(format, Start, lines[..i])
    {
      assert lines[..i + 1][..i] == lines[..i];
      if lines[i].None? {
        continue;
      }
      var line := lines[i].value;
      if format == ZshExtended {
        var captures := MatchZshHeader(line);
        if captures.Some? {
          if currentCommand != [] {
            var entry := CreateEntry(currentCommand, currentTimestamp);
            if entry.Some? {
              entries := entries + [entry.value];
            }
            currentCommand := [];
          }
          var ts := ParseU64(captures.value.timestampDigits);
          if ts.Some? {
            currentTimestamp := Some(ts.value);
          }
          currentCommand := captures.value.command;
        } else if currentCommand != [] {
          currentCommand := currentCommand + ['\n'] + line;
        }
      } else {
        var entry := ParseHistoryLine(line, format);
        if entry.Some? {
          entries := entries + [entry.value];
        }
      }
    }
    assert lines[..|lines|] == lines;
    if format == ZshExtended && currentCommand != [] {
      var entry := CreateEntry(currentCommand, currentTimestamp);
      if entry.Some? {
        entries := entries + [entry.value];
      }
    }
  }

  /** The deduplication loop: an entry is kept when inserting its command into the seen set succeeds. */
  method DedupLoop(entries: seq<HistoryEntry>) returns (unique: seq<HistoryEntry>)
    ensures unique == Dedup(entries)
  {
    unique := [];
    var seen: set<string> := {};
    for i := 0 to |entries|
      invariant unique == Dedup(entries[..i])
      invariant seen == Commands(entries[..i])
    {
      var entry := entries[i];
      assert entries[..i + 1] == entries[..i] + [entry];
      CommandsAppend(entries[..i], entry);
      if entry.command !in seen {
        seen := seen + {entry.command};
        unique := unique + [entry];
      }
    }
    assert entries[..|entries|] == entries;
  }

  /** `read_history_file`. */
  method ReadHistoryFile(file: Result<seq<Line>, string>, shellType: ShellType)
    returns (r: Result<seq<HistoryEntry>, Error>)
    ensures file.Err? ==> r == Err(OpenError(file.error))
    ensures file.Ok? ==> r == Ok(ReadHistory(FormatOf(shellType), file.value))
  {
    if file.Err? {
      return Err(OpenError(file.error));
    }
    var format := FormatOf(shellType);
    var entries := ScanLines(format, file.value);
    entries := SortByRecency(entries);
    var unique := DedupLoop(entries);
    return Ok(unique);
  }

  /** `HistoryManager::new`: reads the configured file for the configured shell. */
  method NewManager(config: Config, file: Result<seq<Line>, string>)
    returns (r: Result<HistoryManager, Error>)
    ensures file.Err? ==> r == Err(OpenError(file.error))
    ensures file.Ok? ==> r == Ok(HistoryManager(ReadHistory(FormatOf(config.shellType), file.value), config.shellType))
  {
    var entries :- ReadHistoryFile(file, config.shellType);
    return Ok(HistoryManager(entries, config.shellType));
  }

  /* ---------------- what the returned history promises ---------------- */

  /** No command occurs twice, and exactly the parsed commands occur. */
  lemma ReadHistoryCommands(format: HistoryFormat, lines: seq<Line>)
    ensures UniqueCommands(ReadHistory(format, lines))
    ensures Commands(ReadHistory(format, lines)) == Commands(Parsed(format, lines))
  {
    var p := Parsed(format, lines);
    var s := SortByRecency(p);
    SortPermutes(p);
    DedupCommands(s);
    assert Commands(s) == Commands(p) by {
      forall c ensures c in Commands(s) <==> c in Commands(p) {
        if c in Commands(s) {
          var i :| 0 <= i < |s| && s[i].command == c;
          assert s[i] in multiset(p);
        }
        if c in Commands(p) {
          var i :| 0 <= i < |p| && p[i].command == c;
          assert p[i] in multiset(s);
        }
      }
    }
  }

  /** Every entry is a single line with a u64 timestamp, if any. */
  lemma ReadHistoryWellFormed(format: HistoryFormat, lines: seq<Line>)
    ensures AllWellFormed(ReadHistory(format, lines))
  {
    var p := Parsed(format, lines);
    var s := SortByRecency(p);
    ParsedWellFormed(format, lines);
    SortPermutes(p);
    DedupKeepsFirst(s);
    forall i | 0 <= i < |ReadHistory(format, lines)| ensures WellFormed(ReadHistory(format, lines)[i]) {
      var k := FirstIndex(s, ReadHistory(format, lines)[i].command);
      assert s[k] in multiset(p);
    }
  }

  /** Newest first: timestamped entries come before untimed ones, in non-increasing timestamp order. */
  lemma ReadHistoryNewestFirst(format: HistoryFormat, lines: seq<Line>)
    ensures var r := ReadHistory(format, lines);
      forall i, j :: 0 <= i < j < |r| && r[j].timestamp.Some? ==>
        r[i].timestamp.Some? && r[i].timestamp.value >= r[j].timestamp.value
  {
    var r := ReadHistory(format, lines);
    SortSorted(Parsed(format, lines));
    DedupSorted(SortByRecency(Parsed(format, lines)));
    forall i, j | 0 <= i < j < |r| && r[j].timestamp.Some?
      ensures r[i].timestamp.Some? && r[i].timestamp.value >= r[j].timestamp.value
    {
      assert Rank(r[i]) >= Rank(r[j]);
    }
  }

  /**
   * The result is a subsequence of the sorted entries: the entry kept for
   * each command is the first entry of the sorted list with that command,
   * and the kept entries keep their sorted order.
   */
  lemma ReadHistorySubsequence(format: HistoryFormat, lines: seq<Line>)
    ensures var s := SortByRecency(Parsed(format, lines));
      var r := ReadHistory(format, lines);
      (forall i :: 0 <= i < |r| ==> FirstIndex(s, r[i].command) < |s| && s[FirstIndex(s, r[i].command)] == r[i]) &&
      (forall i, j :: 0 <= i < j < |r| ==> FirstIndex(s, r[i].command) < FirstIndex(s, r[j].command))
  {
    DedupKeepsFirst(SortByRecency(Parsed(format, lines)));
  }

  /** The entry kept for a command has a timestamp at least as recent as every parsed entry with that command. */
  lemma ReadHistoryKeepsNewest(format: HistoryFormat, lines: seq<Line>, e: HistoryEntry, i: nat)
    requires e in Parsed(format, lines)
    requires i < |ReadHistory(format, lines)| && ReadHistory(format, lines)[i].command == e.command
    ensures Rank(e) <= Rank(ReadHistory(format, lines)[i])
    ensures e.timestamp.Some? ==>
      ReadHistory(format, lines)[i].timestamp.Some? && e.timestamp.value <= ReadHistory(format, lines)[i].timestamp.value
  {
    KeptIsNewest(Parsed(format, lines), e, i);
    RankOrder(e, ReadHistory(format, lines)[i]);
  }

  /**
   * Among the parsed entries as recent as the kept one, the kept entry is the
   * first with its command in file order: ties keep their order through the
   * stable sort.
   */
  lemma ReadHistoryEarliestOfRank(format: HistoryFormat, lines: seq<Line>, i: nat)
    requires i < |ReadHistory(format, lines)|
    ensures var kept := ReadHistory(format, lines)[i];
      var tied := FilterRank(Parsed(format, lines), Rank(kept));
      FirstIndex(tied, kept.command) < |tied| && tied[FirstIndex(tied, kept.command)] == kept
  {
    var p := Parsed(format, lines);
    var s := SortByRecency(p);
    var kept := ReadHistory(format, lines)[i];
    DedupKept(s, i);
    var c := kept.command;
    FirstWithinRank(s, c, Rank(kept));
    SortStable(p, Rank(kept));
  }
}
