/**
 * Shell resolution (src/shell.rs): which shell is running, which history
 * format it writes and where its history file lives. The environment
 * variable SHELL, the output of `ps` and the home directory are parameters.
 */
module Shell {
  import opened Wrappers
  import opened Errors
  import opened Text

  datatype ShellType = Bash | Zsh | Fish

  datatype HistoryFormat = Plain | ZshExtended | FishHistory

  /** The name each shell is recognised by. */
  function Name(s: ShellType): string {
    match s
    case Bash => "bash"
    case Zsh => "zsh"
    case Fish => "fish"
  }

  /** The order in which the names are tried: bash, then zsh, then fish. */
  predicate TriedBefore(a: ShellType, b: ShellType) {
    (a == Bash && b != Bash) || (a == Zsh && b == Fish)
  }

  /** The text mentions the shell's name. */
  predicate Mentions(text: string, s: ShellType) {
    Contains(text, Name(s))
  }

  /** The first shell, in priority order, whose name the text contains. */
  function FirstMentioned(n: string): (r: Option<ShellType>)
    ensures r.Some? ==> Mentions(n, r.value)
    ensures r.Some? ==> forall s :: TriedBefore(s, r.value) ==> !Mentions(n, s)
    ensures r.None? <==> forall s :: !Mentions(n, s)
  {
    if Mentions(n, Bash) then Some(Bash)
    else if Mentions(n, Zsh) then Some(Zsh)
    else if Mentions(n, Fish) then Some(Fish)
    else None
  }

  /** `ShellType::from_name`: the name is trimmed and lower-cased before the search. */
  function FromName(name: string): (r: Option<ShellType>)
    ensures r.Some? ==> Mentions(ToLower(Trim(name)), r.value)
    ensures r.Some? ==> forall s :: TriedBefore(s, r.value) ==> !Mentions(ToLower(Trim(name)), s)
    ensures r.None? <==> forall s :: !Mentions(ToLower(Trim(name)), s)
  {
    FirstMentioned(ToLower(Trim(name)))
  }

  /**
   * `ShellType::from_path`: the shell whose name the whole trimmed,
   * lower-cased text ends with (not only its last path component). At most
   * one name can end a string, so the answer does not depend on the order
   * of the tests.
   */
  function FromPath(path: string): (r: Option<ShellType>)
    ensures forall s :: r == Some(s) <==> EndsWith(ToLower(Trim(path)), Name(s))
  {
    NameEnding(ToLower(Trim(path)))
  }

  /** The shell whose name ends the normalised text `p`. */
  function NameEnding(p: string): (r: Option<ShellType>)
    ensures forall s :: r == Some(s) <==> EndsWith(p, Name(s))
  {
    assert forall a, b :: EndsWith(p, Name(a)) && EndsWith(p, Name(b)) ==> a == b by {
      forall a, b | EndsWith(p, Name(a)) && EndsWith(p, Name(b)) ensures a == b {
        OneEnding(p, a, b);
      }
    }
    if EndsWith(p, Name(Bash)) then Some(Bash)
    else if EndsWith(p, Name(Zsh)) then Some(Zsh)
    else if EndsWith(p, Name(Fish)) then Some(Fish)
    else None
  }

  /** No text ends with two different shell names. */
  lemma OneEnding(p: string, a: ShellType, b: ShellType)
    requires EndsWith(p, Name(a)) && EndsWith(p, Name(b))
    ensures a == b
  {
    var n := |p|;
    assert p[n - 3] == Name(a)[|Name(a)| - 3] == Name(b)[|Name(b)| - 3];
  }

  /** `ShellType::history_format`. */
  function FormatOf(s: ShellType): HistoryFormat {
    match s
    case Bash => Plain
    case Zsh => ZshExtended
    case Fish => FishHistory
  }

  /** Every shell has a format of its own. */
  lemma FormatOfInjective(a: ShellType, b: ShellType)
    ensures FormatOf(a) == FormatOf(b) <==> a == b
  {
  }

  /** The history file's place relative to the home directory. */
  function HistoryFileName(s: ShellType): string {
    match s
    case Bash => ".bash_history"
    case Zsh => ".zsh_history"
    case Fish => ".local/share/fish/fish_history"
  }

  /** `Path::join` of a relative path, written as string concatenation with one separator. */
  function Join(base: string, rel: string): (r: string)
    ensures base <= r && EndsWith(r, rel)
    ensures |r| == |base| + |rel| + (if base == [] || base[|base| - 1] == '/' then 0 else 1)
    ensures |r| > |base| + |rel| ==> r[|base|] == '/'
  {
    if base == [] || base[|base| - 1] == '/' then base + rel else base + "/" + rel
  }

  const NO_HOME_MESSAGE := "Could not determine home directory"

  /**
   * `ShellType::default_history_path`, with the home directory (`dirs::home_dir`)
   * as a parameter: it fails exactly when there is no home directory.
   */
  function DefaultHistoryPath(s: ShellType, home: Option<string>): (r: Result<string, Error>)
    ensures home.None? <==> r.Err?
    ensures home.None? ==> r.error == Other(NO_HOME_MESSAGE)
    ensures home.Some? ==> r.value == Join(home.value, HistoryFileName(s))
  {
    match home
    case None => Err(Other(NO_HOME_MESSAGE))
    case Some(h) => Ok(Join(h, HistoryFileName(s)))
  }

  /** The twelfth character from the end of each history file name: '.', 'b' or 'f'. */
  function Marker(s: ShellType): (c: char)
    ensures c == HistoryFileName(s)[|HistoryFileName(s)| - 12]
  {
    match s
    case Bash => 'b'
    case Zsh => '.'
    case Fish => 'f'
  }

  /** Two different shells never share a default history file. */
  lemma DefaultPathsDiffer(a: ShellType, b: ShellType, home: string)
    requires a != b
    ensures DefaultHistoryPath(a, Some(home)).value != DefaultHistoryPath(b, Some(home)).value
  {
    var pa, pb := DefaultHistoryPath(a, Some(home)).value, DefaultHistoryPath(b, Some(home)).value;
    var na, nb := HistoryFileName(a), HistoryFileName(b);
    assert EndsWith(pa, na) && EndsWith(pb, nb);
    assert pa[|pa| - 12] == na[|na| - 12];
    assert pb[|pb| - 12] == nb[|nb| - 12];
    assert Marker(a) != Marker(b);
  }

  /**
   * `ShellType::detect`, with SHELL (None when unset or not Unicode) and the
   * standard output of `ps` (None when it cannot be run or is not UTF-8) as
   * parameters. It never fails: the path in SHELL is tried first, then the
   * name `ps` printed, and Bash is the fallback.
   */
  function Detect(shellVar: Option<string>, psOutput: Option<string>): (r: Result<ShellType, Error>)
    ensures r.Ok?
    ensures shellVar.Some? && FromPath(shellVar.value).Some? ==> r.value == FromPath(shellVar.value).value
    ensures (shellVar.None? || FromPath(shellVar.value).None?) && psOutput.Some? ==>
      r.value == FromName(Trim(psOutput.value)).GetOr(Bash)
    ensures (shellVar.None? || FromPath(shellVar.value).None?) && psOutput.None? ==> r.value == Bash
  {
    if shellVar.Some? && FromPath(shellVar.value).Some? then
      Ok(FromPath(shellVar.value).value)
    else if psOutput.Some? && FromName(Trim(psOutput.value)).Some? then
      Ok(FromName(Trim(psOutput.value)).value)
    else
      Ok(Bash)
  }

  /** `from_name` ignores letter case: texts that agree once lower-cased name the same shell. */
  lemma FromNameIgnoresCase(a: string, b: string)
    requires ToLower(a) == ToLower(b)
    ensures FromName(a) == FromName(b)
  {
    TrimLower(a);
    TrimLower(b);
    assert ToLower(Trim(a)) == ToLower(Trim(b));
  }

  /** Every path `from_path` recognises is also a name `from_name` recognises. */
  lemma FromPathThenFromName(path: string)
    requires FromPath(path).Some?
    ensures FromName(path).Some?
  {
    EndsWithContains(ToLower(Trim(path)), Name(FromPath(path).value));
  }

  /** Text without the letters b, z and f mentions no shell. */
  lemma NothingMentioned(n: string)
    requires 'b' !in n && 'z' !in n && 'f' !in n
    ensures FirstMentioned(n) == None
  {
    MissingChar(n, Name(Bash), 0);
    MissingChar(n, Name(Zsh), 0);
    MissingChar(n, Name(Fish), 0);
  }

  /** Every shell name ends in 'h', so text ending otherwise ends with none of them. */
  lemma NothingEnds(p: string)
    requires p == [] || p[|p| - 1] != 'h'
    ensures forall s :: !EndsWith(p, Name(s))
  {
  }

  /** On text that is already trimmed and lower-case, `from_name` is the plain search. */
  lemma FromNameNormalised(name: string)
    requires Trim(name) == name && ToLower(name) == name
    ensures FromName(name) == FirstMentioned(name)
  {
  }

  /** On text that is already trimmed and lower-case, `from_path` looks at the text itself. */
  lemma FromPathNormalised(path: string)
    requires Trim(path) == path && ToLower(path) == path
    ensures forall s :: FromPath(path) == Some(s) <==> EndsWith(path, Name(s))
  {
  }

  /** A normalised path ending in a shell's name maps to that shell. */
  lemma FromPathOf(path: string, s: ShellType)
    requires Trim(path) == path && ToLower(path) == path && EndsWith(path, Name(s))
    ensures FromPath(path) == Some(s)
  {
    FromPathNormalised(path);
  }

  /** Non-empty text made of lower-case ASCII letters and '/' is already trimmed and lower-case. */
  lemma LowerCaseWord(n: string)
    requires n != [] && forall i :: 0 <= i < |n| ==> 'a' <= n[i] <= 'z' || n[i] == '/'
    ensures Trim(n) == n && ToLower(n) == n
  {
    TrimUnchanged(n);
    LowerUnchanged(n);
  }

  /* The tests of src/shell.rs, each split so that one proof step handles one literal fact. */

  lemma MentionsBash(n: string)
    requires n == "bash"
    ensures FirstMentioned(n) == Some(Bash)
  {
    PrefixContains(n, Name(Bash));
  }

  lemma MentionsZsh(n: string)
    requires n == "zsh"
    ensures FirstMentioned(n) == Some(Zsh)
  {
    MissingChar(n, Name(Bash), 0);
    PrefixContains(n, Name(Zsh));
  }

  lemma MentionsFish(n: string)
    requires n == "fish"
    ensures FirstMentioned(n) == Some(Fish)
  {
    MissingChar(n, Name(Bash), 0);
    MissingChar(n, Name(Zsh), 0);
    PrefixContains(n, Name(Fish));
  }

  /** The three shells' own names are recognised. */
  lemma FromNameBash(name: string)
    requires name == "bash"
    ensures FromName(name) == Some(Bash)
  {
    LowerCaseWord(name);
    MentionsBash(name);
    FromNameNormalised(name);
  }

  lemma FromNameZsh(name: string)
    requires name == "zsh"
    ensures FromName(name) == Some(Zsh)
  {
    LowerCaseWord(name);
    MentionsZsh(name);
    FromNameNormalised(name);
  }

  lemma FromNameFish(name: string)
    requires name == "fish"
    ensures FromName(name) == Some(Fish)
  {
    LowerCaseWord(name);
    MentionsFish(name);
    FromNameNormalised(name);
  }

  lemma LowerOfBash(upper: string, lower: string)
    requires upper == "BASH" && lower == "bash"
    ensures ToLower(upper) == ToLower(lower)
  {
  }

  /** Matching ignores case: "BASH" is Bash. */
  lemma FromNameUpperCase(name: string)
    requires name == "BASH"
    ensures FromName(name) == Some(Bash)
  {
    var lower := "bash";
    FromNameBash(lower);
    LowerOfBash(name, lower);
    FromNameIgnoresCase(name, lower);
  }

  lemma MentionsNothing(n: string)
    requires n == "unknown"
    ensures FirstMentioned(n) == None
  {
    NothingMentioned(n);
  }

  /** A name that is no shell's is rejected. */
  lemma FromNameUnknown(name: string)
    requires name == "unknown"
    ensures FromName(name) == None
  {
    LowerCaseWord(name);
    MentionsNothing(name);
    FromNameNormalised(name);
  }

  /** The shells' usual paths map to them. */
  lemma FromPathBash(path: string)
    requires path == "/bin/bash"
    ensures FromPath(path) == Some(Bash)
  {
    LowerCaseWord(path);
    EndsBash(path);
    FromPathOf(path, Bash);
  }

  lemma EndsBash(path: string)
    requires path == "/bin/bash"
    ensures EndsWith(path, Name(Bash))
  {
  }

  lemma FromPathZsh(path: string)
    requires path == "/usr/bin/zsh"
    ensures FromPath(path) == Some(Zsh)
  {
    LowerCaseWord(path);
    EndsZsh(path);
    FromPathOf(path, Zsh);
  }

  lemma EndsZsh(path: string)
    requires path == "/usr/bin/zsh"
    ensures EndsWith(path, Name(Zsh))
  {
  }

  lemma FromPathFish(path: string)
    requires path == "/usr/bin/fish"
    ensures FromPath(path) == Some(Fish)
  {
    LowerCaseWord(path);
    EndsFish(path);
    FromPathOf(path, Fish);
  }

  lemma EndsFish(path: string)
    requires path == "/usr/bin/fish"
    ensures EndsWith(path, Name(Fish))
  {
  }

  /** A path ending in another program's name maps to no shell. */
  lemma FromPathUnknown(path: string)
    requires path == "/bin/unknown"
    ensures FromPath(path) == None
  {
    LowerCaseWord(path);
    FromPathNormalised(path);
    NothingEnds(path);
  }
}
