# ctrlrs history search, modelled in Dafny

ctrlrs is a terminal replacement for the shell's Ctrl-R reverse history
search. It works out which shell is in use (Bash, Zsh or Fish) and where that
shell keeps its history file. It reads the file into one entry per command,
newest first and with each command kept once. It then lets the user narrow the
list with up to five case-insensitive search strings ("dimensions"), typed one
after the other. Enter hands the highlighted command back to the shell.

This project models that core and proves what it promises:

| file | module | models |
|---|---|---|
| `wrappers.dfy` | `Wrappers` | `Option` and `Result`, as in Rust |
| `errors.dfy` | `Errors` | the crate's `Error` enum |
| `text.dfy` | `Text` | the `str` operations the core relies on: `trim`, `to_lowercase`, `contains`, `find`, `ends_with`, `replace` and `parse::<u64>` |
| `shell.dfy` | `Shell` | `ShellType`, `HistoryFormat`, shell detection and the default history paths |
| `configuration.dfy` | `Configuration` | `Config::new` |
| `history_parse.dfy` | `HistoryParse` | `HistoryEntry` and `create_entry` |
| | | the Zsh header pattern `^: (\d+):\d+;(.*)$` as an explicit matcher |
| | | `parse_history_line` for the three formats |
| | | the line-by-line reading loop of `read_history_file`, as a fold over the lines |
| `history_order.dfy` | `HistoryOrder` | the newest-first comparator and a stable sort that follows it |
| | | deduplication that keeps the first entry for each command |
| `history_filter.dfy` | `HistoryFilter` | `HistoryManager`, `filter_multiple` and `filter` |
| `history.dfy` | `History` | `read_history_file` and `HistoryManager::new`, as the loops the source runs, proved against the functions above |
| `app.dfy` | `Application` | the `App` state as a class whose methods update it in place: `App::new`, `update_filters` and `handle_key_event` |

The outside world enters only as parameters:

- the history file: the lines it reads as, each `None` when it is not valid UTF-8, or the error message `File::open` gave;
- the `SHELL` variable;
- the output of `ps`;
- the home directory.

The Fish branch of `parse_history_line` reads one line at a time. A Fish
history file writes "- cmd: …" and "  when: …" on separate lines, so neither
line gives an entry on its own: the first has no "when:" (`FishNeedsWhen`) and
the second no "cmd:" (`ParseFishLine`). A line holding both markers gives its
command and, when the digits follow "when:" directly and a space follows
them, its timestamp (`FishLineParsed`). Digits that end the line give no
timestamp (`FishTimestampUnended`), and neither does "when: 7", with a space
before the digits (`FishSpacedTimestamp`).

## Model

| member | source | states |
|---|---|---|
| Text.Trim | src/shell.rs:47 | only outer whitespace is removed: the result is the slice of the input that starts after the leading whitespace, and everything after it is whitespace; it is empty exactly when the input is all whitespace, and otherwise neither starts nor ends with whitespace |
| Text.TrimUnchanged | src/shell.rs:47 | a string that neither starts nor ends with whitespace is its own trim |
| Text.TrimDigits | src/history.rs:216 | a run of digits is its own trim |
| Text.TrimQuotesUnchanged | src/history.rs:209 | `trim_matches('"')` keeps a string that neither starts nor ends with a quote |
| Text.TrimQuotes | src/history.rs:209 | `trim_matches('"')` removes only outer quotes: the result is the slice of the input that starts after the leading quotes, everything after it is a quote, it is empty exactly when the input is all quotes, and otherwise neither starts nor ends with a quote |
| Text.QuoteRun | src/history.rs:209 | the length of the run of quotes that starts the text |
| Text.TrimQuotesQuoted | src/history.rs:209 | one quote on either side of a text without outer quotes is removed, leaving the text |
| Text.ToLower | src/shell.rs:47 | lower-casing keeps the length and maps every character on its own |
| Text.Find | src/history.rs:206-208 | `str::find`: the result is the first position where the pattern occurs, and `None` exactly when it occurs nowhere |
| Text.FindWhere | src/history.rs:215 | `str::find` with a character predicate: the first position whose character satisfies it, or `None` when none does |
| Text.Replace | src/history.rs:145-147 | `str::replace`, every non-overlapping occurrence from the left replaced; what it computes is stated by `ReplaceFirst`, `ReplaceAbsent`, `ReplaceOnly`, `ReplaceLength`, `ReplaceChars` and `ReplaceChar` |
| Text.ReplaceAbsent | src/history.rs:145-147 | `str::replace` returns a string without the pattern unchanged |
| Text.ReplaceFirst | src/history.rs:145-147 | `str::replace` keeps the text before the first occurrence, writes the replacement in its place and goes on after it |
| Text.ReplaceOnly | src/history.rs:145-147 | a single occurrence that no earlier position overlaps is replaced and the text around it is kept |
| Text.ReplaceLength | src/history.rs:145-147 | replacing by something no longer never grows the string |
| Text.ReplaceChars | src/history.rs:145-147 | no character appears that was in neither the string nor the replacement |
| Text.ReplaceChar | src/history.rs:145 | replacing one character by another substitutes it at every position and nothing else |
| Text.TrimLower | src/shell.rs:47 | trimming and lower-casing commute |
| Text.ParseU64 | src/history.rs:77 | `parse::<u64>` accepts only values below 2^64 |
| Text.ParseDigits | src/history.rs:77 | a digit run parses to its value exactly when that value is below 2^64 |
| Text.ParseDecimal | src/history.rs:181 | round trip: the decimal text of n, with or without a leading '+', parses back to n exactly when n fits in a u64 |
| Text.DecimalValue | src/history.rs:181 | the decimal text of n denotes n |
| Shell.FirstMentioned | src/shell.rs:48-56 | the shell found is mentioned in the name and no shell tried before it is; `None` exactly when no shell is mentioned |
| Shell.FromName | src/shell.rs:46-57 | the shell found is mentioned in the trimmed lower-case name and no shell tried before it is; `None` exactly when no shell is mentioned |
| Shell.FromNameNormalised | src/shell.rs:46-57 | for a trimmed lower-case name, `from_name` finds the first of bash, zsh, fish that the name contains |
| Shell.FromNameIgnoresCase | src/shell.rs:47 | names equal up to case give the same shell |
| Shell.FromPath | src/shell.rs:60-71 | `from_path` gives shell s exactly when the trimmed lower-case path ends with s's name |
| Shell.NameEnding | src/shell.rs:62-70 | the tests of `from_path` give shell s exactly when the path ends with s's name |
| Shell.FromPathOf | src/shell.rs:60-71 | a trimmed lower-case path ending with a shell's name is recognised as that shell |
| Shell.OneEnding | src/shell.rs:62-70 | no path ends with two shell names, so the order of the tests in `from_path` does not matter |
| Shell.FromPathNormalised | src/shell.rs:60-71 | for a trimmed lower-case path, the shell found is the one whose name the path ends with |
| Shell.FromPathThenFromName | src/shell.rs:46-71 | a path `from_path` recognises is also recognised by `from_name` |
| Shell.NothingMentioned | src/shell.rs:54-55 | a name without the letters b, z and f mentions no shell |
| Shell.NothingEnds | src/shell.rs:68-69 | a path that does not end in 'h' ends with no shell name |
| Shell.LowerCaseWord | src/shell.rs:47 | lower-case paths and words are unchanged by trimming and lower-casing |
| Shell.FormatOfInjective | src/shell.rs:85-91 | each shell has its own history format |
| Shell.FormatOf | src/shell.rs:85-91 | `history_format`: Bash reads plain lines, Zsh the extended format, Fish its own; `FormatOfInjective` shows no two shells share one |
| Shell.Join | src/shell.rs:78-80 | the joined path starts with the home directory and ends with the relative path, with exactly one '/' between them, or none when the home directory is empty or already ends in '/' |
| Shell.DefaultHistoryPath | src/shell.rs:74-82 | fails exactly when there is no home directory, with the "Could not determine home directory" error; otherwise it is the home directory joined with the shell's file name |
| Shell.Marker | src/shell.rs:78-80 | the character that tells the three default file names apart |
| Shell.HistoryFileName | src/shell.rs:78-80 | the file name under the home directory for each shell; `Marker` and `DefaultPathsDiffer` show the three names differ |
| Shell.DefaultPathsDiffer | src/shell.rs:74-82 | different shells have different default history paths under the same home directory |
| Shell.Detect | src/shell.rs:23-43 | detection never fails; `SHELL` is tried first by path, then the trimmed `ps` output by name; otherwise the default is Bash |
| Shell.FromNameBash | src/shell.rs:111 | "bash" is Bash |
| Shell.FromNameZsh | src/shell.rs:112 | "zsh" is Zsh |
| Shell.FromNameFish | src/shell.rs:113 | "fish" is Fish |
| Shell.FromNameUnknown | src/shell.rs:114 | "unknown" is no shell |
| Shell.FromNameUpperCase | src/shell.rs:47 | "BASH" is Bash, because case is ignored |
| Shell.MentionsBash | src/shell.rs:48-49 | "bash" mentions Bash first |
| Shell.MentionsZsh | src/shell.rs:50-51 | "zsh" mentions Zsh first |
| Shell.MentionsFish | src/shell.rs:52-53 | "fish" mentions Fish first |
| Shell.MentionsNothing | src/shell.rs:54-55 | "unknown" mentions no shell |
| Shell.LowerOfBash | src/shell.rs:47 | "BASH" and "bash" are equal up to case |
| Shell.FromPathBash | src/shell.rs:119 | "/bin/bash" is Bash |
| Shell.FromPathZsh | src/shell.rs:120 | "/usr/bin/zsh" is Zsh |
| Shell.FromPathFish | src/shell.rs:121 | "/usr/bin/fish" is Fish |
| Shell.FromPathUnknown | src/shell.rs:122 | "/bin/unknown" is no shell |
| Configuration.New | src/config.rs:21-40 | an explicit shell name that names no shell fails with "Unsupported shell type: …"; otherwise the call fails exactly when no path was given and there is no home directory; the shell is the named one or the detected one; the path is the given one or the shell's default |
| Configuration.ExplicitValues | src/config.rs:49-58 | "bash" with "/tmp/test_history" gives exactly that configuration |
| HistoryParse.Collapse | src/history.rs:144-147 | the stored command has no newline and is no longer than the raw command; a command with neither a newline nor " \\" is kept as it is |
| HistoryParse.CollapseJoinsLines | src/history.rs:144-147 | when no backslash follows a space or a newline, the only change is that each newline becomes a space, position by position |
| HistoryParse.CollapseContinuation | src/history.rs:144-147 | a continuation "a \\" followed by a newline and "b" becomes "a", two spaces and "b" |
| HistoryParse.CollapseDoubleBackslash | src/history.rs:146 | a doubled backslash after a space is dropped with it, leaving one space |
| HistoryParse.CollapsePlainText | src/history.rs:144-147 | a command without newlines and backslashes is stored unchanged |
| HistoryParse.NoLongerPattern | src/history.rs:147 | a string without a pattern contains no longer pattern that starts with it, so the second replacement has nothing left to do once the first has none |
| HistoryParse.CreateEntry | src/history.rs:139-154 | no entry exactly for a blank command; otherwise the entry holds the collapsed command, the timestamp and the raw command as its original line |
| HistoryParse.LeadingDigits | src/history.rs:58 | `\d+` takes the longest run of leading digits |
| HistoryParse.LeadingDigitsOf | src/history.rs:58 | digits followed by a non-digit are exactly that run |
| HistoryParse.DigitsThen | src/history.rs:58 | a successful match splits the text into a non-empty digit run, the separator and the rest |
| HistoryParse.DigitsThenComplete | src/history.rs:58 | every such split is found |
| HistoryParse.MatchZshHeader | src/history.rs:58 | a match is a well-formed header and the line is exactly its text |
| HistoryParse.HeaderLineOf | src/history.rs:58 | the pieces the matcher takes apart put the line back together |
| HistoryParse.MatchZshHeaderComplete | src/history.rs:58 | round trip: every well-formed header line is matched, giving back the same header |
| HistoryParse.FishTimestampText | src/history.rs:213-221 | no timestamp text without "when:" |
| HistoryParse.FishTimestamp | src/history.rs:213-222 | a Fish timestamp fits in a u64; a line without "when:" has none |
| HistoryParse.FishTimestampAt | src/history.rs:213-217 | the digits after the first "when:", ended by a space, are parsed as the timestamp |
| HistoryParse.FishTimestampSpaced | src/history.rs:215-216 | a space right after the first "when:" ends an empty timestamp text, so there is no timestamp |
| HistoryParse.FishTimestampUnended | src/history.rs:215-219 | with no space or newline after the first "when:" there is no timestamp |
| HistoryParse.FishCommand | src/history.rs:209-210 | the command taken from a Fish line is on one line |
| HistoryParse.FishCommandTextAt | src/history.rs:206-209 | with "cmd:" first found at i and "when:" first found j characters after it, the command text is those j characters |
| HistoryParse.FishCommandPadded | src/history.rs:209-210 | a plain command padded with spaces comes out as itself |
| HistoryParse.FishCommandQuoted | src/history.rs:209-210 | a plain command in double quotes, padded with spaces, comes out without its quotes |
| HistoryParse.ParseFishLine | src/history.rs:203-235 | a Fish line gives an entry exactly when it has "cmd:" followed by "when:"; the entry is well formed, keeps the line and carries the line's timestamp |
| HistoryParse.FishNeedsWhen | src/history.rs:206-232 | a line without "when:" gives no entry |
| HistoryParse.FishLineParsed | src/history.rs:203-228 | the line "- cmd: C when:T " gives exactly the command C, the timestamp T when it fits in a u64, and the line itself |
| HistoryParse.FishSpacedTimestamp | src/history.rs:203-228 | the line "- cmd: C when: T" gives the command C and no timestamp |
| HistoryParse.ParseZshLine | src/history.rs:177-202 | a line that is not a header is a plain command; a header gives an entry exactly when its timestamp fits in a u64 |
| HistoryParse.ZshLineMatches | src/history.rs:58 | a header line written from a timestamp and a command matches with those parts |
| HistoryParse.ParseZshLineRoundTrip | src/history.rs:177-202 | round trip: parsing the header line for (t, command) gives back t and the command exactly when t fits in a u64 |
| HistoryParse.ParseHistoryLine | src/history.rs:157-237 | blank lines give nothing; every entry is well formed and keeps its line; each format is dispatched to its own parser |
| HistoryParse.PlainCommand | src/history.rs:163-176 | a plain line without newlines or backslashes is its own command, with no timestamp |
| HistoryParse.ParsePlainExample | src/history.rs:291-298 | "ls -la" parses to itself with no timestamp |
| HistoryParse.HeaderEntry | src/history.rs:300-308 | a header line with a u64 timestamp gives that timestamp and the command after ';' |
| HistoryParse.AppendWellFormed | src/history.rs:14-23 | joining well-formed entry lists keeps them well formed |
| HistoryParse.EmitWellFormed | src/history.rs:94-96 | pushing a well-formed entry keeps the list well formed |
| HistoryParse.FlushWellFormed | src/history.rs:66-72 | pushing the pending Zsh command keeps the list well formed |
| HistoryParse.StepParsed | src/history.rs:92-97 | outside Zsh each line goes through `parse_history_line` |
| HistoryParse.StepWellFormed | src/history.rs:61-105 | one step of the reading loop keeps every entry single-line, with a u64 timestamp if any |
| HistoryParse.ScanWellFormed | src/history.rs:61-105 | so does the whole loop |
| HistoryParse.ParsedWellFormed | src/history.rs:61-112 | every entry read, the final flush included, is well formed |
| HistoryParse.Step | src/history.rs:61-105 | one iteration of the reading loop; `StepHeader`, `StepOther`, `StepParsed` and `StepPlain` state its cases and `StepWellFormed` the invariant it keeps |
| HistoryParse.ScanFrom | src/history.rs:61-105 | the loop over all lines; `ScanAppend` splits it, `ScanWellFormed` and `ScanCount` bound what it collects |
| HistoryParse.Parsed | src/history.rs:61-112 | the loop followed by the final flush; `ParsedWellFormed`, `ZshAtMostOneEntryPerHeader` and `PlainOneEntryPerLine` state what it yields |
| HistoryParse.ScanAppend | src/history.rs:61-105 | reading a + b is reading a, then b from where a stopped |
| HistoryParse.NoHeaderNoChange | src/history.rs:85-90 | with nothing pending, lines that are not headers change nothing |
| HistoryParse.ZshLeadingLinesDropped | src/history.rs:85-90 | lines before the first Zsh header are dropped |
| HistoryParse.ScanCount | src/history.rs:64-91 | the entries and the pending command together number no more than the headers read |
| HistoryParse.ZshAtMostOneEntryPerHeader | src/history.rs:64-112 | a Zsh history yields at most one entry per header line |
| HistoryParse.StepHeader | src/history.rs:66-84 | a header flushes the pending command, takes the new timestamp when it parses and keeps the old one otherwise, and starts a new command |
| HistoryParse.StepOther | src/history.rs:85-90 | any other line continues the pending command after a newline, or is dropped when nothing is pending |
| HistoryParse.ScanTwo | src/history.rs:61-105 | reading two lines is two steps |
| HistoryParse.ParsedTwo | src/history.rs:61-112 | reading two lines is two steps and the final flush |
| HistoryParse.FirstHeader | src/history.rs:66-84 | a first header line leaves its command pending with its timestamp |
| HistoryParse.ZshContinuation | src/history.rs:64-112 | a multi-line Zsh command becomes one entry whose original text holds the newline and whose command has it collapsed |
| HistoryParse.ZshEmptyHeaderDropsNext | src/history.rs:82-90 | after a header with an empty command, the next line is not taken as a continuation |
| HistoryParse.OverflowStep | src/history.rs:76-80 | a header whose timestamp overflows keeps the previous timestamp |
| HistoryParse.ZshOverflowKeepsTimestamp | src/history.rs:64-112 | so a command after an overflowing header is stamped with the previous command's time |
| HistoryParse.StepPlain | src/history.rs:92-97 | a plain line adds its own untimed entry, or nothing when blank |
| HistoryParse.ScanPlain | src/history.rs:61-105 | reading plain lines adds one untimed entry per non-blank line and keeps what came before |
| HistoryParse.PlainOneEntryPerLine | src/history.rs:61-112 | a Bash history has one untimed entry per non-blank line |
| HistoryOrder.Compare | src/history.rs:115-122 | the `sort_by` comparator: newer timestamps first, timestamped entries before untimed ones; `CompareIsRank` shows it is descending order of one rank |
| HistoryOrder.CompareIsRank | src/history.rs:115-122 | the comparator orders by rank, descending: `Some(t)` ranks t + 1 and `None` ranks 0 |
| HistoryOrder.RankOrder | src/history.rs:115-122 | a rank no higher than a timestamped entry's belongs to a timestamped entry with a timestamp no larger |
| HistoryOrder.InsertPermutes | src/history.rs:115-122 | inserting adds exactly the new entry |
| HistoryOrder.InsertBounded | src/history.rs:115-122 | inserting keeps a bound on the ranks |
| HistoryOrder.SortedTail | src/history.rs:115-122 | the tail of a sorted list is sorted and ranks no higher than its head |
| HistoryOrder.InsertSorted | src/history.rs:115-122 | inserting into a sorted list keeps it sorted |
| HistoryOrder.SortByRecency | src/history.rs:115-122 | `sort_by` with that comparator; `SortPermutes`, `SortSorted` and `SortStable` make it a stable sort, newest first |
| HistoryOrder.SortPermutes | src/history.rs:115-122 | sorting is a permutation |
| HistoryOrder.SortSorted | src/history.rs:115-122 | the sorted list is newest first |
| HistoryOrder.FilterRankCons | src/history.rs:115-122 | the entries of rank k in x followed by s are those of x, then those of s |
| HistoryOrder.FilterRankAppend | src/history.rs:115-122 | the entries of rank k in a + b are those of a, then those of b |
| HistoryOrder.FilterRankSingle | src/history.rs:115-122 | a single entry contributes itself exactly when it has rank k |
| HistoryOrder.FilterRankBelow | src/history.rs:115-122 | a sorted list whose head ranks below k has no entry of rank k |
| HistoryOrder.FilterRankInsertFront | src/history.rs:115-122 | inserting in front of lower-ranked entries puts the new entry after the equal-ranked ones, of which there are none |
| HistoryOrder.FilterRankInsert | src/history.rs:115-122 | inserting places the new entry after every entry of the same rank |
| HistoryOrder.SortStable | src/history.rs:115-122 | the sort is stable: the entries of each rank keep their file order |
| HistoryOrder.CommandsAppend | src/history.rs:124-135 | the commands of s + [x] are those of s and x's |
| HistoryOrder.DedupCommands | src/history.rs:124-135 | after deduplication no command occurs twice, and every command still occurs |
| HistoryOrder.FirstIndex | src/history.rs:128-133 | the position found holds the command, and no earlier one does |
| HistoryOrder.FirstIndexFound | src/history.rs:128-133 | a command is found exactly when it occurs |
| HistoryOrder.FirstIndexAppend | src/history.rs:128-133 | appending does not move the first occurrence of a command already present |
| HistoryOrder.FirstIndexLast | src/history.rs:128-133 | a new command first occurs at the end |
| HistoryOrder.FirstIndexTail | src/history.rs:128-133 | looking past a different head shifts the position by one |
| HistoryOrder.Dedup | src/history.rs:124-135 | the `HashSet` loop keeps an entry when its command was not seen before; `DedupCommands`, `DedupKeepsFirst` and `DedupKept` state what it keeps |
| HistoryOrder.DedupKeepsFirst | src/history.rs:124-135 | each kept entry is the first occurrence of its command, and kept entries keep their order |
| HistoryOrder.DedupKept | src/history.rs:124-135 | each kept entry is the first occurrence of its command |
| HistoryOrder.FirstRanksHighest | src/history.rs:115-135 | in a sorted list, a command's first occurrence ranks highest |
| HistoryOrder.KeptIsNewest | src/history.rs:115-135 | the entry kept for a command ranks at least as high as every entry with that command |
| HistoryOrder.DedupSorted | src/history.rs:124-135 | deduplicating keeps the list sorted |
| HistoryOrder.FirstWithinRank | src/history.rs:124-135 | a command's first occurrence is also its first occurrence among the entries of its own rank |
| HistoryFilter.Matching | src/history.rs:255-260 | one filter step keeps exactly the entries whose command contains the search string, ignoring case |
| HistoryFilter.Select | src/history.rs:240-264 | the reference selection: exactly the entries matching every non-empty search string, in order |
| HistoryFilter.MatchesAllSnoc | src/history.rs:250-261 | one more search string adds one more test, and an empty one adds none |
| HistoryFilter.SelectSnoc | src/history.rs:250-261 | selecting with one more search string filters the previous selection again |
| HistoryFilter.SelectSnocEmpty | src/history.rs:251-253 | an extra empty search string selects the same |
| HistoryFilter.SelectNone | src/history.rs:240-264 | no search strings select everything |
| HistoryFilter.ApplyIsSelect | src/history.rs:247-261 | the filter loop computes the reference selection |
| HistoryFilter.ApplyFilters | src/history.rs:247-261 | the loop over the search strings, skipping empty ones; `ApplyIsSelect` equates it with the reference selection |
| HistoryFilter.FilterResult | src/history.rs:240-264 | what `filter_multiple` returns; `FilterSelects`, `FilterNarrows` and `FilterIgnoresEmptyLast` state it |
| HistoryFilter.FilterSelects | src/history.rs:240-264 | with a non-empty first search string the result is the reference selection: an entry is in it exactly when it matches every non-empty search string |
| HistoryFilter.FilterNarrows | src/history.rs:240-264 | another non-empty search string narrows the result to the entries that also match it |
| HistoryFilter.FilterIgnoresEmptyLast | src/history.rs:251-253 | a trailing empty search string changes nothing |
| HistoryFilter.FilterMultiple | src/history.rs:240-264 | no search strings, or an empty first one, give every entry; otherwise the result is the reference selection |
| HistoryFilter.Filter | src/history.rs:267-275 | an empty first search string gives every entry; otherwise the result is the reference selection for the two strings |
| HistoryFilter.StartsWithLs | src/history.rs:336-339 | "ls -la" and "ls -l /tmp" match "ls" |
| HistoryFilter.LacksFirstLetter | src/history.rs:336-344 | "ls -la" does not match "tmp" and "cd /tmp" does not match "ls" |
| HistoryFilter.LsTmpMatchesTmp | src/history.rs:342-344 | "ls -l /tmp" matches "tmp" |
| HistoryFilter.MatchesAt | src/history.rs:255-259 | an occurrence in lower-case text is a case-insensitive match |
| HistoryFilter.MissesChar | src/history.rs:255-259 | a search string with a character the lower-case text lacks does not match |
| HistoryFilter.NoUpperCase | src/history.rs:255 | lower-case text is unchanged by lower-casing |
| HistoryFilter.MatchesTwo | src/history.rs:267-275 | matching two search strings is matching each non-empty one |
| HistoryFilter.SelectThree | src/history.rs:240-264 | selecting from three entries keeps each that matches |
| HistoryFilter.FilterTestData | src/history.rs:310-345 | for the three test commands, "ls" keeps "ls -la" and "ls -l /tmp", and "ls" with "tmp" keeps only "ls -l /tmp" |
| History.ScanLines | src/history.rs:52-112 | the reading loop, with its final flush, yields the parsed entries |
| History.DedupLoop | src/history.rs:124-135 | the loop over the seen set yields the deduplication |
| History.ReadHistory | src/history.rs:52-135 | the parsed entries, sorted newest first and deduplicated; `ReadHistoryCommands`, `ReadHistoryNewestFirst`, `ReadHistorySubsequence`, `ReadHistoryKeepsNewest` and `ReadHistoryEarliestOfRank` state what it keeps |
| History.ReadHistoryFile | src/history.rs:46-136 | a file that cannot be opened gives the "Failed to open history file" error; otherwise the result is the parsed entries, sorted newest first and deduplicated |
| History.NewManager | src/history.rs:34-43 | the manager holds the configured shell and the entries read for it, or the error reading gave |
| History.ReadHistoryCommands | src/history.rs:46-136 | no command occurs twice, and exactly the parsed commands occur |
| History.ReadHistoryWellFormed | src/history.rs:46-136 | every entry is single-line, with a u64 timestamp if any |
| History.ReadHistoryNewestFirst | src/history.rs:115-122 | timestamped entries come first, in non-increasing timestamp order |
| History.ReadHistorySubsequence | src/history.rs:115-135 | each entry is the first of the sorted entries with its command, and the entries keep their sorted order |
| History.ReadHistoryKeepsNewest | src/history.rs:115-135 | the entry kept for a command is at least as recent as every parsed entry with that command |
| History.ReadHistoryEarliestOfRank | src/history.rs:115-135 | among the parsed entries exactly as recent as it, the kept entry comes first in file order for its command |
| Application.EditKeepsLayout | src/app.rs:117-125 | editing the current search string keeps the layout: non-empty below the current dimension, empty above it |
| Application.NextKeepsLayout | src/app.rs:108-114 | moving on from a non-empty search string keeps the layout and the entries shown |
| Application.BackKeepsLayout | src/app.rs:126-129 | moving back from an empty search string keeps the layout and the entries shown |
| Application.NextDimensionKeepsView | src/app.rs:108-114 | an empty next search string selects the same entries |
| Application.Clamp | src/app.rs:69-71 | a selection past the end of a non-empty view lands on the last entry; one inside the view, or with an empty view, is kept |
| Application.ViewOf | src/app.rs:59-68 | the entries shown: the filter result for the search strings up to the current dimension; `NextDimensionKeepsView` and `App.UpdateFilters` use it |
| Application.App.constructor | src/app.rs:36-56 | five empty search strings, dimension 0, nothing shown or selected; the invariant holds |
| Application.App.UpdateFilters | src/app.rs:59-74 | the entries shown are those the search strings up to the current dimension select; a selection past the end is pulled back onto the last entry |
| Application.App.HandleKeyEvent | src/app.rs:77-136 | each key's effect as the match arms give it, all other state unchanged; the invariant is kept |
| Application.App.NextDimension | src/app.rs:108-114 | Ctrl-R moves on only from a non-empty search string that is not the last |
| Application.App.TypeChar | src/app.rs:117-120 | a typed character is appended to the current search string and the view is recomputed |
| Application.App.Erase | src/app.rs:122-130 | Backspace deletes the last character and recomputes, or moves back a dimension when the search string is empty |
| Application.NewApp | src/app.rs:36-56 | `App::new`: the error from reading the history, or the initial state over the entries read |

## Left out

- Input and output are parameters: the history file's lines (or the error opening it gave), the `SHELL` variable, the output of `ps`, the home directory. The UI (src/ui/ui.rs), the command-line entry point (src/main.rs) and logging are not part of this model.
- Shell.Detect: the `ps -p $PPID -o comm=` command is not run; its output, when it could be read as UTF-8, is the `psOutput` parameter.
- Text.ToLower: folds ASCII letters only. Rust's `to_lowercase` folds all of Unicode. Trimming uses Unicode's White_Space set, as Rust does.
- HistoryParse.MatchZshHeader: takes ASCII digits only, where Rust's `\d` also matches every other Unicode decimal digit. Two differences follow. The elapsed-time field is never parsed, so ": 123:١;ls" is a header in the source, and here a continuation of the pending command, or dropped when none is pending. A timestamp field with a non-ASCII digit matches in the source, where `parse::<u64>` then fails: `parse_history_line` drops the line, and the reading loop flushes the pending command, keeps the previous timestamp and starts a new command; here the line is not a header, so it continues the pending command or is dropped. `parse_history_line` on its own, in its Zsh branch (`ParseZshLine`, which the reading loop does not use and the test at src/history.rs:300-308 calls), differs too: for ": 123:١;ls" the source gives the command "ls" with timestamp 123, and for ": ١:0;ls" it gives nothing, where the model gives a plain entry holding the whole line in both cases.
- Shell.Join: `PathBuf::join` is modelled as concatenation with a separator. An absolute relative part would replace the base, but the three file names here are relative.
- The regex compile failures cannot happen here. In `parse_history_line` the pattern is a constant. In `filter_multiple` every search string is escaped first, so the `Error::Other("Invalid regex: …")` path is never taken. `FilterMultiple` and `Filter` therefore return the entries, not a `Result`.
- HistoryFilter.FilterMultiple: the source escapes each search string and compiles it as a case-insensitive regex. This model uses plain substring search after ASCII lower-casing, which is what an escaped pattern matches for ASCII text.
- The `Result` of `update_filters` and `handle_key_event` is not modelled: its only error comes from `filter_multiple`, which cannot fail here.
- The accessors at src/app.rs:139-171 only return fields. The model reads the class fields directly and gives the accessors no members of their own.
- HistoryOrder.SortByRecency: `sort_by` is Rust's stable merge sort. The model specifies it by a stable insertion sort, proved to be a permutation, sorted and stable. Any stable sort under the same comparator gives the same list.
- `HistoryFormat::Fish` is called `FishHistory` in the model, to keep it apart from `ShellType::Fish`.
- A Zsh line that is not a header and comes before any header, or after a header with an empty command, is dropped (`ZshLeadingLinesDropped`, `ZshEmptyHeaderDropsNext`). The code (src/history.rs:85-90) adds a continuation line only when a command is pending.
