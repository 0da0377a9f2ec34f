/**
 * Parsing of history lines (src/history.rs): the entry record, the
 * normalisation of a command, `create_entry`, `parse_history_line`, the
 * Zsh header pattern `^: (\d+):\d+;(.*)$` as a hand-written matcher, and the
 * line-by-line scan `read_history_file` performs, as a specification the
 * imperative reader in module History is proved against.
 */
module HistoryParse {
  import opened Wrappers
  import opened Text
  import opened Shell

  /**
   * `HistoryEntry`. A timestamp is a u64 in the source; every timestamp the
   * parsers produce is below U64_LIMIT (see WellFormed).
   */
  datatype HistoryEntry = HistoryEntry(command: string, timestamp: Option<nat>, originalLine: string)

  /** A line as `BufRead::lines` yields it: None stands for a line that is not valid UTF-8. */
  type Line = Option<string>

  /** What every entry the parsers produce satisfies: a single-line command and a u64 timestamp. */
  predicate WellFormed(e: HistoryEntry) {
    '\n' !in e.command && (e.timestamp.Some? ==> e.timestamp.value < U64_LIMIT)
  }

  /* ---------------- normalisation ---------------- */

  /**
   * The normalisation applied to every command: each newline becomes a
   * space, then every " \\" (two backslashes, as Zsh stores them) and then
   * every " \" collapses to a single space. `CollapseJoinsLines` covers
   * text in which no backslash follows a space or a newline;
   * `CollapseContinuation` and `CollapseDoubleBackslash` show the two
   * backslash rules at work.
   */
  function Collapse(command: string): (r: string)
    ensures '\n' !in r
    ensures |r| <= |command|
    ensures !Contains(command, "\n") && !Contains(command, " \\") ==> r == command
  {
    var joined := Replace(command, "\n", " ");
    var single := Replace(joined, " \\\\", " ");
    CollapseSteps(command, joined, single, Replace(single, " \\", " "));
    Replace(single, " \\", " ")
  }

  /** The three replacements of `Collapse`, one after the other. */
  lemma CollapseSteps(command: string, joined: string, single: string, r: string)
    requires joined == Replace(command, "\n", " ")
    requires single == Replace(joined, " \\\\", " ")
    requires r == Replace(single, " \\", " ")
    ensures '\n' !in r
    ensures |r| <= |command|
    ensures !Contains(command, "\n") && !Contains(command, " \\") ==> r == command
  {
    ReplaceChar(command, '\n', ' ');
    ReplaceChars(joined, " \\\\", " ");
    ReplaceChars(single, " \\", " ");
    ReplaceLength(joined, " \\\\", " ");
    ReplaceLength(single, " \\", " ");
    if !Contains(command, "\n") {
      ReplaceAbsent(command, "\n", " ");
    }
    if !Contains(joined, " \\") {
      NoLongerPattern(joined, " \\", " \\\\");
      ReplaceAbsent(joined, " \\\\", " ");
      ReplaceAbsent(single, " \\", " ");
    }
  }

  /** Where no backslash follows a space or a newline, `Collapse` only turns each newline into a space. */
  lemma CollapseJoinsLines(command: string)
    requires NoSpacedBackslash(command)
    ensures |Collapse(command)| == |command|
    ensures forall i :: 0 <= i < |command| ==> Collapse(command)[i] == if command[i] == '\n' then ' ' else command[i]
  {
    var joined := Replace(command, "\n", " ");
    var single := Replace(joined, " \\\\", " ");
    ReplaceChar(command, '\n', ' ');
    JoinedLacksSpacedBackslash(command, joined);
    NoLongerPattern(joined, " \\", " \\\\");
    ReplaceAbsent(joined, " \\\\", " ");
    ReplaceAbsent(single, " \\", " ");
  }

  /** No backslash directly follows a space or a newline. */
  predicate NoSpacedBackslash(s: string) {
    forall i :: 0 < i < |s| && s[i] == '\\' ==> s[i - 1] != ' ' && s[i - 1] != '\n'
  }

  /** Once newlines are spaces, such a text holds no " \". */
  lemma JoinedLacksSpacedBackslash(command: string, joined: string)
    requires NoSpacedBackslash(command) && |joined| == |command|
    requires forall i :: 0 <= i < |command| ==> joined[i] == if command[i] == '\n' then ' ' else command[i]
    ensures !Contains(joined, " \\")
  {
    forall i: nat ensures !OccursAt(joined, " \\", i) {
      if i + 2 <= |joined| {
        assert joined[i..i + 2][0] == joined[i] && joined[i..i + 2][1] == joined[i + 1];
      }
    }
  }

  /** A line ended by " \" joins the next: the marker and the newline become two spaces. */
  lemma CollapseContinuation(a: string, b: string)
    requires '\\' !in a && '\n' !in a && '\\' !in b && '\n' !in b
    ensures Collapse(a + " \\" + "\n" + b) == a + "  " + b
  {
    var joined := a + " \\" + " " + b;
    JoinContinuation(a, b);
    NoDoubleBackslash(joined, a, b);
    ReplaceAbsent(joined, " \\\\", " ");
    DropContinuation(a, b, joined);
  }

  /** The newline after the marker becomes a space. */
  lemma JoinContinuation(a: string, b: string)
    requires '\\' !in a && '\n' !in a && '\n' !in b
    ensures Replace(a + " \\" + "\n" + b, "\n", " ") == a + " \\" + " " + b
  {
    var x := a + " \\";
    NoOccurrenceIn(x, "\n" + b, "\n", 0);
    MissingChar(b, "\n", 0);
    ReplaceOnly(x, b, "\n", " ");
  }

  /** The marker itself becomes a space. */
  lemma DropContinuation(a: string, b: string, joined: string)
    requires '\\' !in a && '\\' !in b && joined == a + " \\" + " " + b
    ensures Replace(joined, " \\", " ") == a + "  " + b
  {
    assert joined == a + " \\" + (" " + b);
    NoOccurrenceIn(a, " \\" + (" " + b), " \\", 1);
    MissingChar(" " + b, " \\", 1);
    ReplaceOnly(a, " " + b, " \\", " ");
    assert a + " " + (" " + b) == a + "  " + b;
  }

  lemma NoDoubleBackslash(s: string, a: string, b: string)
    requires '\\' !in a && '\\' !in b && s == a + " \\" + " " + b
    ensures !Contains(s, " \\\\")
  {
    forall i: nat ensures !OccursAt(s, " \\\\", i) {
      if i + 3 <= |s| {
        assert s[i..i + 3][1] == s[i + 1] && s[i..i + 3][2] == s[i + 2];
        if i + 1 < |a| {
          assert s[i + 1] == a[i + 1];
        } else if i + 1 > |a| + 2 {
          assert s[i + 1] == b[i + 1 - |a| - 3];
        }
      }
    }
  }

  /** " \\\\" (a space and two backslashes) collapses to one space. */
  lemma CollapseDoubleBackslash(a: string, b: string)
    requires '\\' !in a && '\n' !in a && '\\' !in b && '\n' !in b
    ensures Collapse(a + " \\\\" + b) == a + " " + b
  {
    var command := a + " \\\\" + b;
    MissingChar(command, "\n", 0);
    ReplaceAbsent(command, "\n", " ");
    assert command == a + (" \\\\" + b);
    NoOccurrenceIn(a, " \\\\" + b, " \\\\", 1);
    MissingChar(b, " \\\\", 1);
    ReplaceOnly(a, b, " \\\\", " ");
    MissingChar(a + " " + b, " \\", 1);
    ReplaceAbsent(a + " " + b, " \\", " ");
  }

  /** A text free of `p` is free of every pattern that starts with `p`. */
  lemma NoLongerPattern(s: string, p: string, q: string)
    requires p <= q && !Contains(s, p)
    ensures !Contains(s, q)
  {
    forall i: nat ensures !OccursAt(s, q, i) {
      if i + |q| <= |s| {
        assert !OccursAt(s, p, i);
        assert s[i..i + |q|][..|p|] == s[i..i + |p|];
      }
    }
  }

  /** A text without newlines and without backslashes is left as it is. */
  lemma CollapsePlainText(s: string)
    requires '\n' !in s && '\\' !in s
    ensures Collapse(s) == s
  {
    MissingChar(s, "\n", 0);
    MissingChar(s, " \\", 1);
  }

  /** `create_entry`: None for blank text, otherwise the normalised command with the raw text kept. */
  function CreateEntry(command: string, timestamp: Option<nat>): (r: Option<HistoryEntry>)
    ensures r.None? <==> IsBlank(command)
    ensures r.Some? ==> r.value == HistoryEntry(Collapse(command), timestamp, command)
  {
    if Trim(command) == [] then None
    else Some(HistoryEntry(Collapse(command), timestamp, command))
  }

  /* ---------------- the Zsh extended header ---------------- */

  /** The parts of a line matching `^: (\d+):\d+;(.*)$`. */
  datatype ZshHeader = ZshHeader(timestampDigits: string, elapsedDigits: string, command: string)

  /** A run of ASCII digits and the text after the separator that ends it. */
  datatype DigitRun = DigitRun(digits: string, rest: string)

  /** The longest run of ASCII digits at the start of `s`. */
  function LeadingDigits(s: string): (d: string)
    ensures d <= s && AllDigits(d)
    ensures |d| < |s| ==> !IsDigit(s[|d|])
  {
    if s != [] && IsDigit(s[0]) then [s[0]] + LeadingDigits(s[1..]) else []
  }

  lemma {:induction false} LeadingDigitsOf(d: string, rest: string)
    requires AllDigits(d) && (rest == [] || !IsDigit(rest[0]))
    ensures LeadingDigits(d + rest) == d
  {
    if d != [] {
      assert (d + rest)[1..] == d[1..] + rest;
      LeadingDigitsOf(d[1..], rest);
    }
  }

  /** `\d+` followed by `sep`: the longest digit run at the start of `s`, non-empty and ended by `sep`. */
  function DigitsThen(s: string, sep: char): (r: Option<DigitRun>)
    requires !IsDigit(sep)
    ensures r.Some? ==> s == r.value.digits + [sep] + r.value.rest
    ensures r.Some? ==> r.value.digits != [] && AllDigits(r.value.digits)
  {
    var d := LeadingDigits(s);
    if d == [] || |d| == |s| || s[|d|] != sep then None
    else
      assert s == d + [sep] + s[|d| + 1..];
      Some(DigitRun(d, s[|d| + 1..]))
  }

  /** Every digit run ended by `sep` is recognised, with what follows it. */
  lemma DigitsThenComplete(d: string, sep: char, rest: string)
    requires d != [] && AllDigits(d) && !IsDigit(sep)
    ensures DigitsThen(d + [sep] + rest, sep) == Some(DigitRun(d, rest))
  {
    assert d + [sep] + rest == d + ([sep] + rest);
    LeadingDigitsOf(d, [sep] + rest);
    var s := d + [sep] + rest;
    assert s[|d| + 1..] == rest;
  }

  /** A header with a digit run in each numeric field and a command free of newlines. */
  predicate ValidHeader(h: ZshHeader) {
    h.timestampDigits != [] && AllDigits(h.timestampDigits) &&
    h.elapsedDigits != [] && AllDigits(h.elapsedDigits) &&
    '\n' !in h.command
  }

  /** The line a header stands for. */
  function HeaderLine(h: ZshHeader): string {
    ": " + h.timestampDigits + ":" + h.elapsedDigits + ";" + h.command
  }

  /**
   * The matcher for `^: (\d+):\d+;(.*)$`: ": ", a digit run (the timestamp),
   * ':', a digit run, ';', then the rest of the line, which `.` only
   * matches when it holds no newline. Digits are ASCII digits.
   */
  function MatchZshHeader(line: string): (r: Option<ZshHeader>)
    ensures r.Some? ==> ValidHeader(r.value) && line == HeaderLine(r.value)
  {
    if !(": " <= line) then None
    else match DigitsThen(line[2..], ':')
      case None => None
      case Some(ts) =>
        match DigitsThen(ts.rest, ';')
        case None => None
        case Some(el) =>
          if '\n' in el.rest then None
          else
            HeaderLineOf(line, ts, el);
            Some(ZshHeader(ts.digits, el.digits, el.rest))
  }

  lemma HeaderLineOf(line: string, ts: DigitRun, el: DigitRun)
    requires ": " <= line && line[2..] == ts.digits + [':'] + ts.rest && ts.rest == el.digits + [';'] + el.rest
    ensures line == HeaderLine(ZshHeader(ts.digits, el.digits, el.rest))
  {
    assert line == ": " + line[2..];
  }

  /** Every line of the header's shape matches, with its parts recovered: the converse of the matcher's contract. */
  lemma MatchZshHeaderComplete(h: ZshHeader)
    requires ValidHeader(h)
    ensures MatchZshHeader(HeaderLine(h)) == Some(h)
  {
    var (ts, el, cmd) := (h.timestampDigits, h.elapsedDigits, h.command);
    var line := HeaderLine(h);
    var rest := el + [';'] + cmd;
    assert ": " <= line && line[2..] == ts + [':'] + rest;
    DigitsThenComplete(ts, ':', rest);
    DigitsThenComplete(el, ';', cmd);
  }

  /* ---------------- parse_history_line ---------------- */

  /** Where the Fish parser finds its markers: the first "cmd:", and the first "when:" after it. */
  predicate HasFishMarkers(line: string) {
    Find(line, "cmd:").Some? && Contains(line[Find(line, "cmd:").value + 4..], "when:")
  }

  /** Any character `find` stops at when it delimits the Fish timestamp. */
  predicate IsSpaceOrNewline(c: char) {
    c == ' ' || c == '\n'
  }

  /**
   * The text of the Fish timestamp: what follows the FIRST "when:" of the
   * line, up to the first space or newline; None when either is missing.
   */
  function FishTimestampText(line: string): (r: Option<string>)
    ensures !Contains(line, "when:") ==> r.None?
  {
    FindContains(line, "when:");
    match Find(line, "when:")
    case None => None
    case Some(w) =>
      var whenPart := line[w + 5..];
      match FindWhere(whenPart, IsSpaceOrNewline)
      case None => None
      case Some(e) => Some(whenPart[..e])
  }

  /** The Fish timestamp: that text, trimmed and read as a u64. */
  function FishTimestamp(line: string): (r: Option<nat>)
    ensures r.Some? ==> r.value < U64_LIMIT
    ensures !Contains(line, "when:") ==> r.None?
  {
    match FishTimestampText(line)
    case None => None
    case Some(t) => ParseU64(Trim(t))
  }

  /** The Fish command text between the markers, trimmed, stripped of quotes and normalised. */
  function FishCommand(text: string): (r: string)
    ensures '\n' !in r
  {
    Collapse(TrimQuotes(Trim(text)))
  }

  /** The text between the first "cmd:" and the first "when:" after it. */
  function FishCommandText(line: string): (t: string)
    requires HasFishMarkers(line)
  {
    var cmdPart := line[Find(line, "cmd:").value + 4..];
    FindContains(cmdPart, "when:");
    cmdPart[..Find(cmdPart, "when:").value]
  }

  /** `parse_history_line` in its Fish branch, for a line that is not blank. */
  function ParseFishLine(line: string): (r: Option<HistoryEntry>)
    ensures r.Some? <==> HasFishMarkers(line)
    ensures r.Some? ==> WellFormed(r.value) && r.value.originalLine == line
    ensures r.Some? ==> r.value.timestamp == FishTimestamp(line)
  {
    if HasFishMarkers(line) then Some(HistoryEntry(FishCommand(FishCommandText(line)), FishTimestamp(line), line))
    else None
  }

  /** The digits after the first "when:", ended by a space, are the timestamp. */
  lemma FishTimestampAt(line: string, w: nat, digits: string, after: string)
    requires Find(line, "when:") == Some(w)
    requires line[w + 5..] == digits + " " + after
    requires digits != [] && AllDigits(digits)
    ensures FishTimestamp(line) == ParseU64(digits)
  {
    FishDigitsEnd(line[w + 5..], digits, after);
    FishTimestampTextAt(line, w, |digits|);
    TrimDigits(digits);
  }

  /** The timestamp text once both delimiters are known. */
  lemma FishTimestampTextAt(line: string, w: nat, e: nat)
    requires Find(line, "when:") == Some(w)
    requires FindWhere(line[w + 5..], IsSpaceOrNewline) == Some(e)
    ensures FishTimestampText(line) == Some(line[w + 5..][..e])
  {
  }

  /** A digit run ended by a space: the space is the delimiter and the run is the text before it. */
  lemma FishDigitsEnd(whenPart: string, digits: string, after: string)
    requires whenPart == digits + " " + after && AllDigits(digits)
    ensures FindWhere(whenPart, IsSpaceOrNewline) == Some(|digits|)
    ensures whenPart[..|digits|] == digits
  {
    assert whenPart[|digits|] == ' ';
    forall i | 0 <= i < |digits| ensures !IsSpaceOrNewline(whenPart[i]) {
      assert whenPart[i] == digits[i];
    }
    FindWhereAt(whenPart, IsSpaceOrNewline, |digits|);
  }

  /** A space right after the first "when:" leaves the timestamp empty, hence None. */
  lemma FishTimestampSpaced(line: string, w: nat)
    requires Find(line, "when:") == Some(w)
    requires w + 5 < |line| && line[w + 5] == ' '
    ensures FishTimestamp(line) == None
  {
    var whenPart := line[w + 5..];
    assert whenPart[0] == ' ';
    FindWhereAt(whenPart, IsSpaceOrNewline, 0);
    FishTimestampTextAt(line, w, 0);
    assert Trim(whenPart[..0]) == [];
  }

  /** Without a space or newline after the first "when:" there is no timestamp. */
  lemma FishTimestampUnended(line: string, w: nat)
    requires Find(line, "when:") == Some(w)
    requires forall k :: w + 5 <= k < |line| ==> !IsSpaceOrNewline(line[k])
    ensures FishTimestamp(line) == None
  {
    NoDelimiter(line, w + 5);
    assert FishTimestampText(line) == None;
  }

  lemma NoDelimiter(line: string, start: nat)
    requires start <= |line|
    requires forall k :: start <= k < |line| ==> !IsSpaceOrNewline(line[k])
    ensures FindWhere(line[start..], IsSpaceOrNewline) == None
  {
    var rest := line[start..];
    forall i | 0 <= i < |rest| ensures !IsSpaceOrNewline(rest[i]) {
      assert rest[i] == line[start + i];
    }
  }

  /** A line without "when:" (such as a lone "- cmd: ..." line of a Fish file) gives no entry. */
  lemma FishNeedsWhen(line: string)
    requires !Contains(line, "when:")
    ensures ParseFishLine(line) == None
  {
    var i := Find(line, "cmd:");
    if i.Some? {
      var cmdPart := line[i.value + 4..];
      forall k: nat ensures !OccursAt(cmdPart, "when:", k) {
        assert !OccursAt(line, "when:", i.value + 4 + k);
        if k + 5 <= |cmdPart| {
          assert cmdPart[k..k + 5] == line[i.value + 4 + k..i.value + 4 + k + 5];
        }
      }
      FindContains(cmdPart, "when:");
    }
  }

  /** A command the Fish branch returns as it is: unpadded, unquoted, and free of what the parser reacts to. */
  predicate PlainFishCommand(cmd: string) {
    cmd != [] && !IsWhitespace(cmd[0]) && !IsWhitespace(cmd[|cmd| - 1]) &&
    !IsQuote(cmd[0]) && !IsQuote(cmd[|cmd| - 1]) &&
    '\n' !in cmd && '\\' !in cmd && ':' !in cmd
  }

  /** The one-line form "- cmd: C when:T " gives the command C and the timestamp T, if T is a u64. */
  lemma FishLineParsed(cmd: string, t: nat)
    requires PlainFishCommand(cmd)
    ensures var line := "- cmd: " + cmd + " when:" + Decimal(t) + " ";
      ParseFishLine(line) == Some(HistoryEntry(cmd, if t < U64_LIMIT then Some(t) else None, line))
  {
    var line := "- cmd: " + cmd + " when:" + Decimal(t) + " ";
    FishLineCommand(line, cmd, Decimal(t) + " ");
    FishLineTimestamp(line, cmd, Decimal(t));
    ParseDecimal(t);
  }

  /** The command of "- cmd: C when:..." is C. */
  lemma FishLineCommand(line: string, cmd: string, tail: string)
    requires PlainFishCommand(cmd) && line == "- cmd: " + cmd + " when:" + tail
    ensures ParseFishLine(line) == Some(HistoryEntry(cmd, FishTimestamp(line), line))
  {
    var x := " " + cmd + " ";
    assert line == "- cmd:" + (x + "when:" + tail);
    FishCmdMarker(line, x + "when:" + tail);
    FishWhenAfter(x + "when:" + tail, x, tail);
    FishCommandTextAt(line, 2, |x|);
    FishCommandPadded(cmd, x);
  }

  /** A plain command in quotes, between two spaces, comes out of `FishCommand` without its quotes. */
  lemma FishCommandQuoted(cmd: string, q: string, x: string)
    requires PlainFishCommand(cmd) && q == "\"" + cmd + "\"" && x == " " + q + " "
    ensures FishCommand(x) == cmd
  {
    TrimPadded(q);
    TrimQuotesQuoted(cmd);
    CollapsePlainText(cmd);
  }

  /** The command text of a line whose markers are found at `i` and, after it, at `j`. */
  lemma FishCommandTextAt(line: string, i: nat, j: nat)
    requires Find(line, "cmd:") == Some(i)
    requires Find(line[i + 4..], "when:") == Some(j)
    ensures HasFishMarkers(line) && FishCommandText(line) == line[i + 4..][..j]
  {
    FindContains(line[i + 4..], "when:");
  }

  /** A plain command between two spaces comes out of `FishCommand` as it is. */
  lemma FishCommandPadded(cmd: string, x: string)
    requires PlainFishCommand(cmd) && x == " " + cmd + " "
    ensures FishCommand(x) == cmd
  {
    TrimPadded(cmd);
    TrimQuotesUnchanged(cmd);
    CollapsePlainText(cmd);
  }

  /** The timestamp of "- cmd: C when:T " is T read as a u64. */
  lemma FishLineTimestamp(line: string, cmd: string, digits: string)
    requires ':' !in cmd && digits != [] && AllDigits(digits)
    requires line == "- cmd: " + cmd + " when:" + digits + " "
    ensures FishTimestamp(line) == ParseU64(digits)
  {
    assert line == "- cmd: " + cmd + " when:" + (digits + " ");
    FishWhenInLine(line, cmd, digits + " ");
    var w := |cmd| + 8;
    assert line[w + 5..] == digits + " " + [];
    FishTimestampAt(line, w, digits, []);
  }

  /**
   * "- cmd: C when: T" gives the command C but no timestamp, whatever T is:
   * the space after "when:" ends the timestamp before it starts.
   */
  lemma FishSpacedTimestamp(line: string, cmd: string, rest: string)
    requires PlainFishCommand(cmd) && line == "- cmd: " + cmd + " when: " + rest
    ensures ParseFishLine(line) == Some(HistoryEntry(cmd, None, line))
  {
    assert line == "- cmd: " + cmd + " when:" + (" " + rest);
    FishLineCommand(line, cmd, " " + rest);
    FishWhenInLine(line, cmd, " " + rest);
    FishTimestampSpaced(line, |cmd| + 8);
  }

  /** The first "cmd:" of such a line is the one at index 2. */
  lemma FishCmdMarker(line: string, rest: string)
    requires line == "- cmd:" + rest
    ensures Find(line, "cmd:") == Some(2) && line[6..] == rest
  {
    assert line[2..6] == "cmd:";
    NoOccurrenceBetween(line, "cmd:", 0, 0, 2);
    FindAt(line, "cmd:", 2);
  }

  /** Text without ':' before "when:" puts its first "when:" right after that text. */
  lemma FishWhenAfter(s: string, x: string, rest: string)
    requires ':' !in x && s == x + "when:" + rest
    ensures Find(s, "when:") == Some(|x|) && s[..|x|] == x
  {
    assert s == x + ("when:" + rest);
    NoOccurrenceIn(x, "when:" + rest, "when:", 4);
    assert s[|x|..|x| + 5] == "when:";
    FindAt(s, "when:", |x|);
  }

  /** In "- cmd: C when:...", with C free of ':', the first "when:" is the one after C. */
  lemma FishWhenInLine(line: string, cmd: string, rest: string)
    requires ':' !in cmd && line == "- cmd: " + cmd + " when:" + rest
    ensures Find(line, "when:") == Some(|cmd| + 8)
  {
    var w := |cmd| + 8;
    assert line[w..w + 5] == "when:";
    assert line[0] == '-' && line[1] == ' ';
    NoOccurrenceBetween(line, "when:", 0, 0, 2);
    forall k | 6 <= k < w + 4 ensures line[k] != ':' {
      if 7 <= k < w - 1 {
        assert line[k] == cmd[k - 7];
      }
    }
    NoOccurrenceBetween(line, "when:", 4, 2, w);
    FindAt(line, "when:", w);
  }

  /**
   * `parse_history_line` in its Zsh branch, for a line that is not blank:
   * a header line gives its command and timestamp, and nothing when the
   * timestamp is not a u64; any other line is a plain command.
   */
  function ParseZshLine(line: string): (r: Option<HistoryEntry>)
    ensures r.Some? ==> WellFormed(r.value) && r.value.originalLine == line
    ensures MatchZshHeader(line).None? ==> r == Some(HistoryEntry(Collapse(line), None, line))
    ensures MatchZshHeader(line).Some? ==>
      (r.Some? <==> DigitsValue(MatchZshHeader(line).value.timestampDigits) < U64_LIMIT)
  {
    match MatchZshHeader(line)
    case Some(h) =>
      ParseDigits(h.timestampDigits);
      (match ParseU64(h.timestampDigits)
       case None => None
       case Some(ts) => Some(HistoryEntry(Collapse(h.command), Some(ts), line)))
    case None => Some(HistoryEntry(Collapse(line), None, line))
  }

  /** The header line for `command` at time `t`, as Zsh writes it (elapsed time 0). */
  function ZshLine(t: nat, command: string): string {
    HeaderLine(ZshHeader(Decimal(t), "0", command))
  }

  lemma ZshLineMatches(t: nat, command: string)
    requires '\n' !in command
    ensures MatchZshHeader(ZshLine(t, command)) == Some(ZshHeader(Decimal(t), "0", command))
  {
    MatchZshHeaderComplete(ZshHeader(Decimal(t), "0", command));
  }

  /** Round trip: a header line Zsh writes parses back to its command and timestamp, when the timestamp is a u64. */
  lemma ParseZshLineRoundTrip(t: nat, command: string)
    requires '\n' !in command
    ensures ParseZshLine(ZshLine(t, command))
         == if t < U64_LIMIT then Some(HistoryEntry(Collapse(command), Some(t), ZshLine(t, command))) else None
  {
    ZshLineMatches(t, command);
    ParseDecimal(t);
  }

  /** `parse_history_line`: blank lines give nothing in every format; Plain text is one untimed command. */
  function ParseHistoryLine(line: string, format: HistoryFormat): (r: Option<HistoryEntry>)
    ensures IsBlank(line) ==> r.None?
    ensures r.Some? ==> WellFormed(r.value) && r.value.originalLine == line
    ensures format == Plain && !IsBlank(line) ==> r == Some(HistoryEntry(Collapse(line), None, line))
    ensures format == ZshExtended && !IsBlank(line) ==> r == ParseZshLine(line)
    ensures format == FishHistory && !IsBlank(line) ==> r == ParseFishLine(line)
  {
    if Trim(line) == [] then None
    else match format
      case Plain => Some(HistoryEntry(Collapse(line), None, line))
      case ZshExtended => ParseZshLine(line)
      case FishHistory => ParseFishLine(line)
  }

  /** A non-blank line without newlines or backslashes is a Plain command as it stands. */
  lemma PlainCommand(line: string)
    requires '\n' !in line && '\\' !in line && !IsBlank(line)
    ensures ParseHistoryLine(line, Plain) == Some(HistoryEntry(line, None, line))
  {
    CollapsePlainText(line);
  }

  /** "ls -la" is a plain command without timestamp (test of src/history.rs). */
  lemma ParsePlainExample(line: string)
    requires line == "ls -la"
    ensures ParseHistoryLine(line, Plain) == Some(HistoryEntry(line, None, line))
  {
    assert !IsWhitespace(line[0]);
    PlainCommand(line);
  }

  /** A header line whose timestamp is a u64 gives the header's command at that time. */
  lemma HeaderEntry(line: string, h: ZshHeader, t: nat)
    requires MatchZshHeader(line) == Some(h) && ParseU64(h.timestampDigits) == Some(t)
    requires '\n' !in h.command && '\\' !in h.command
    ensures ParseHistoryLine(line, ZshExtended) == Some(HistoryEntry(h.command, Some(t), line))
  {
    assert line[0] == ':' && !IsWhitespace(line[0]);
    CollapsePlainText(h.command);
  }

  /* ---------------- the line scan of read_history_file ---------------- */

  /**
   * The variables of the reading loop: the pending (Zsh) command, the
   * pending timestamp and the entries pushed so far.
   */
  datatype ScanState = ScanState(pending: string, timestamp: Option<nat>, entries: seq<HistoryEntry>)

  const Start := ScanState([], None, [])

  /** The entry an `Option` holds, as a sequence of zero or one entries. */
  function Emit(e: Option<HistoryEntry>): seq<HistoryEntry> {
    if e.Some? then [e.value] else []
  }

  /** The entries with the pending command, if any, pushed. */
  function Flush(st: ScanState): seq<HistoryEntry> {
    if st.pending != [] then st.entries + Emit(CreateEntry(st.pending, st.timestamp)) else st.entries
  }

  /**
   * One iteration of the reading loop. A line that is not valid UTF-8 is
   * skipped. In Zsh format a header line pushes the pending command, takes
   * its timestamp only when the digits fit in a u64 (otherwise the previous
   * timestamp stays) and starts a new pending command; any other line is
   * appended after a newline, but only when a command is pending. In the
   * other formats each line is parsed on its own.
   */
  function Step(format: HistoryFormat, st: ScanState, line: Line): ScanState {
    match line
    case None => st
    case Some(l) =>
      if format == ZshExtended then
        match MatchZshHeader(l)
        case Some(h) =>
          var ts := match ParseU64(h.timestampDigits)
            case Some(t) => Some(t)
            case None => st.timestamp;
          ScanState(h.command, ts, Flush(st))
        case None =>
          if st.pending != [] then st.(pending := st.pending + "\n" + l) else st
      else
        st.(entries := st.entries + Emit(ParseHistoryLine(l, format)))
  }

  /** The state after the loop has consumed `lines`, starting from `st`. */
  function ScanFrom(format: HistoryFormat, st: ScanState, lines: seq<Line>): ScanState {
    if lines == [] then st else Step(format, ScanFrom(format, st, lines[..|lines| - 1]), lines[|lines| - 1])
  }

  /** The entries `read_history_file` collects before sorting: the loop, then the final push. */
  function Parsed(format: HistoryFormat, lines: seq<Line>): seq<HistoryEntry> {
    var st := ScanFrom(format, Start, lines);
    if format == ZshExtended then Flush(st) else st.entries
  }

  /* ---------------- properties of the scan ---------------- */

  predicate AllWellFormed(es: seq<HistoryEntry>) {
    forall i :: 0 <= i < |es| ==> WellFormed(es[i])
  }

  predicate StateWellFormed(st: ScanState) {
    AllWellFormed(st.entries) && (st.timestamp.Some? ==> st.timestamp.value < U64_LIMIT)
  }

  lemma AppendWellFormed(a: seq<HistoryEntry>, b: seq<HistoryEntry>)
    requires AllWellFormed(a) && AllWellFormed(b)
    ensures AllWellFormed(a + b)
  {
    forall i | 0 <= i < |a + b| ensures WellFormed((a + b)[i]) {
      if i >= |a| {
        assert (a + b)[i] == b[i - |a|];
      }
    }
  }

  lemma EmitWellFormed(e: Option<HistoryEntry>)
    requires e.Some? ==> WellFormed(e.value)
    ensures AllWellFormed(Emit(e))
  {
  }

  lemma FlushWellFormed(st: ScanState)
    requires StateWellFormed(st)
    ensures AllWellFormed(Flush(st))
  {
    if st.pending != [] {
      EmitWellFormed(CreateEntry(st.pending, st.timestamp));
      AppendWellFormed(st.entries, Emit(CreateEntry(st.pending, st.timestamp)));
    }
  }

  /** Any line that is not a Zsh line adds the entry it parses to, if any. */
  lemma StepParsed(format: HistoryFormat, st: ScanState, l: string)
    requires format != ZshExtended
    ensures Step(format, st, Some(l)) == st.(entries := st.entries + Emit(ParseHistoryLine(l, format)))
  {
  }

  lemma StepWellFormed(format: HistoryFormat, st: ScanState, line: Line)
    requires StateWellFormed(st)
    ensures StateWellFormed(Step(format, st, line))
  {
    match line
    case None =>
    case Some(l) =>
      if format == ZshExtended {
        match MatchZshHeader(l)
        case Some(h) =>
          StepHeader(st, l, h);
          FlushWellFormed(st);
        case None =>
          StepOther(st, l);
      } else {
        StepParsed(format, st, l);
        EmitWellFormed(ParseHistoryLine(l, format));
        AppendWellFormed(st.entries, Emit(ParseHistoryLine(l, format)));
      }
  }

  lemma {:induction false} ScanWellFormed(format: HistoryFormat, st: ScanState, lines: seq<Line>)
    requires StateWellFormed(st)
    ensures StateWellFormed(ScanFrom(format, st, lines))
  {
    if lines != [] {
      ScanWellFormed(format, st, lines[..|lines| - 1]);
      StepWellFormed(format, ScanFrom(format, st, lines[..|lines| - 1]), lines[|lines| - 1]);
    }
  }

  /** Every parsed command is a single line and every timestamp a u64. */
  lemma ParsedWellFormed(format: HistoryFormat, lines: seq<Line>)
    ensures AllWellFormed(Parsed(format, lines))
  {
    ScanWellFormed(format, Start, lines);
    FlushWellFormed(ScanFrom(format, Start, lines));
  }

  /** Scanning a concatenation is scanning the second part from where the first left off. */
  lemma {:induction false} ScanAppend(format: HistoryFormat, st: ScanState, a: seq<Line>, b: seq<Line>)
    ensures ScanFrom(format, st, a + b) == ScanFrom(format, ScanFrom(format, st, a), b)
    decreases |b|
  {
    if b == [] {
      assert a + b == a;
    } else {
      assert (a + b)[..|a + b| - 1] == a + b[..|b| - 1];
      ScanAppend(format, st, a, b[..|b| - 1]);
    }
  }

  /** A valid line that is a Zsh header. */
  predicate IsHeader(line: Line) {
    line.Some? && MatchZshHeader(line.value).Some?
  }

  lemma {:induction false} NoHeaderNoChange(st: ScanState, lines: seq<Line>)
    requires st.pending == []
    requires forall i :: 0 <= i < |lines| ==> !IsHeader(lines[i])
    ensures ScanFrom(ZshExtended, st, lines) == st
  {
    if lines != [] {
      NoHeaderNoChange(st, lines[..|lines| - 1]);
    }
  }

  /**
   * Zsh: lines before the first header line are dropped, since no command
   * is pending to which they could be appended.
   */
  lemma ZshLeadingLinesDropped(before: seq<Line>, rest: seq<Line>)
    requires forall i :: 0 <= i < |before| ==> !IsHeader(before[i])
    ensures Parsed(ZshExtended, before + rest) == Parsed(ZshExtended, rest)
  {
    ScanAppend(ZshExtended, Start, before, rest);
    NoHeaderNoChange(Start, before);
  }

  function HeaderCount(lines: seq<Line>): nat {
    if lines == [] then 0
    else HeaderCount(lines[..|lines| - 1]) + (if IsHeader(lines[|lines| - 1]) then 1 else 0)
  }

  lemma {:induction false} ScanCount(lines: seq<Line>)
    ensures var st := ScanFrom(ZshExtended, Start, lines);
      |st.entries| + (if st.pending != [] then 1 else 0) <= HeaderCount(lines)
  {
    if lines != [] {
      ScanCount(lines[..|lines| - 1]);
    }
  }

  /** Zsh: each header line starts at most one entry; continuation lines never start one. */
  lemma ZshAtMostOneEntryPerHeader(lines: seq<Line>)
    ensures |Parsed(ZshExtended, lines)| <= HeaderCount(lines)
  {
    ScanCount(lines);
  }

  /** A Zsh header line pushes the pending command and starts its own, with its timestamp when that is a u64. */
  lemma StepHeader(st: ScanState, l: string, h: ZshHeader)
    requires MatchZshHeader(l) == Some(h)
    ensures Step(ZshExtended, st, Some(l))
         == ScanState(h.command, if ParseU64(h.timestampDigits).Some? then ParseU64(h.timestampDigits) else st.timestamp, Flush(st))
  {
  }

  /** Any other Zsh line extends the pending command, if there is one. */
  lemma StepOther(st: ScanState, l: string)
    requires MatchZshHeader(l).None?
    ensures Step(ZshExtended, st, Some(l)) == if st.pending != [] then st.(pending := st.pending + "\n" + l) else st
  {
  }

  lemma ScanTwo(format: HistoryFormat, a: Line, b: Line)
    ensures ScanFrom(format, Start, [a, b]) == Step(format, Step(format, Start, a), b)
  {
    var one := [a];
    var two := [a, b];
    assert two[..|two| - 1] == one;
    assert one[..|one| - 1] == [];
    assert ScanFrom(format, Start, one) == Step(format, Start, a);
  }

  /** The first header line of a file starts its command at its own time. */
  lemma FirstHeader(t: nat, command: string)
    requires t < U64_LIMIT && '\n' !in command
    ensures Step(ZshExtended, Start, Some(ZshLine(t, command))) == ScanState(command, Some(t), [])
  {
    ZshLineMatches(t, command);
    ParseDecimal(t);
    StepHeader(Start, ZshLine(t, command), ZshHeader(Decimal(t), "0", command));
  }

  /**
   * Zsh: a line that is not a header continues the pending command; it is
   * kept with a newline in `originalLine` and joined by a space in `command`.
   */
  lemma ZshContinuation(t: nat, first: string, next: string)
    requires t < U64_LIMIT && '\n' !in first && !IsBlank(first)
    requires MatchZshHeader(next).None?
    ensures Parsed(ZshExtended, [Some(ZshLine(t, first)), Some(next)])
         == [HistoryEntry(Collapse(first + "\n" + next), Some(t), first + "\n" + next)]
  {
    ScanTwo(ZshExtended, Some(ZshLine(t, first)), Some(next));
    FirstHeader(t, first);
    StepOther(ScanState(first, Some(t), []), next);
    assert !IsBlank(first + "\n" + next) by {
      var k :| 0 <= k < |first| && !IsWhitespace(first[k]);
      assert (first + "\n" + next)[k] == first[k];
    }
  }

  /** Zsh: a header with an empty command leaves nothing pending, so the line after it is dropped. */
  lemma ZshEmptyHeaderDropsNext(t: nat, next: string)
    requires t < U64_LIMIT && MatchZshHeader(next).None?
    ensures Parsed(ZshExtended, [Some(ZshLine(t, "")), Some(next)]) == []
  {
    ScanTwo(ZshExtended, Some(ZshLine(t, "")), Some(next));
    FirstHeader(t, "");
    StepOther(ScanState("", Some(t), []), next);
  }

  /** The entries the scan of two lines yields in Zsh format. */
  lemma ParsedTwo(a: Line, b: Line)
    ensures Parsed(ZshExtended, [a, b]) == Flush(Step(ZshExtended, Step(ZshExtended, Start, a), b))
  {
    ScanTwo(ZshExtended, a, b);
  }

  /** A header whose timestamp overflows pushes the pending command and keeps the pending timestamp. */
  lemma OverflowStep(t: nat, big: nat, first: string, second: string)
    requires t < U64_LIMIT <= big
    requires '\n' !in second && !IsBlank(first)
    ensures Step(ZshExtended, ScanState(first, Some(t), []), Some(ZshLine(big, second)))
         == ScanState(second, Some(t), [HistoryEntry(Collapse(first), Some(t), first)])
  {
    ZshLineMatches(big, second);
    ParseDecimal(big);
    StepHeader(ScanState(first, Some(t), []), ZshLine(big, second), ZshHeader(Decimal(big), "0", second));
  }

  /**
   * Zsh: when a header's timestamp does not fit in a u64, the pending
   * timestamp is not reset; the command inherits the previous one.
   */
  lemma ZshOverflowKeepsTimestamp(t: nat, big: nat, first: string, second: string)
    requires t < U64_LIMIT <= big
    requires '\n' !in first && !IsBlank(first) && '\n' !in second && !IsBlank(second)
    ensures Parsed(ZshExtended, [Some(ZshLine(t, first)), Some(ZshLine(big, second))])
         == [HistoryEntry(Collapse(first), Some(t), first), HistoryEntry(Collapse(second), Some(t), second)]
  {
    ParsedTwo(Some(ZshLine(t, first)), Some(ZshLine(big, second)));
    FirstHeader(t, first);
    OverflowStep(t, big, first, second);
  }

  /* Plain and Fish: one entry per line that parses, in file order. */

  /** The number of valid, non-blank lines. */
  function NonBlankCount(lines: seq<Line>): nat {
    if lines == [] then 0
    else
      var last := lines[|lines| - 1];
      NonBlankCount(lines[..|lines| - 1]) + (if last.Some? && !IsBlank(last.value) then 1 else 0)
  }

  /** A Plain line adds one untimed entry when it is valid and not blank, and nothing otherwise. */
  lemma StepPlain(st: ScanState, line: Line)
    ensures Step(Plain, st, line).pending == st.pending
    ensures Step(Plain, st, line).entries
         == st.entries + if line.Some? && !IsBlank(line.value) then [HistoryEntry(Collapse(line.value), None, line.value)] else []
  {
  }

  lemma {:induction false} ScanPlain(st: ScanState, lines: seq<Line>)
    ensures var end := ScanFrom(Plain, st, lines);
      end.pending == st.pending &&
      |end.entries| == |st.entries| + NonBlankCount(lines) &&
      end.entries[..|st.entries|] == st.entries &&
      forall i :: |st.entries| <= i < |end.entries| ==> end.entries[i].timestamp.None?
  {
    if lines != [] {
      ScanPlain(st, lines[..|lines| - 1]);
      StepPlain(ScanFrom(Plain, st, lines[..|lines| - 1]), lines[|lines| - 1]);
    }
  }

  /** Plain: one untimed entry per valid, non-blank line. */
  lemma PlainOneEntryPerLine(lines: seq<Line>)
    ensures |Parsed(Plain, lines)| == NonBlankCount(lines)
    ensures forall i :: 0 <= i < |Parsed(Plain, lines)| ==> Parsed(Plain, lines)[i].timestamp.None?
  {
    ScanPlain(Start, lines);
  }
}
