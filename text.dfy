/**
 * The handful of Rust `str` operations the core relies on, written out on
 * `seq<char>`: `trim`, `trim_matches`, `to_lowercase` (ASCII letters only),
 * `find`, `contains`, `ends_with`, `replace` and `u64::from_str`.
 * Indices are character indices; every pattern the core searches for is
 * ASCII, so they agree with Rust's byte indices on the text that matters.
 */
module Text {
  import opened Wrappers

  /** `char::is_whitespace`: the Unicode White_Space property. */
  predicate IsWhitespace(c: char) {
    ('\t' <= c <= '\r') || c == ' ' || c == '\U{85}' || c == '\U{A0}' || c == '\U{1680}'
    || ('\U{2000}' <= c <= '\U{200A}') || c == '\U{2028}' || c == '\U{2029}'
    || c == '\U{202F}' || c == '\U{205F}' || c == '\U{3000}'
  }

  predicate IsQuote(c: char) {
    c == '"'
  }

  /** A string made of white space only (the empty string included). */
  predicate IsBlank(s: string) {
    forall i :: 0 <= i < |s| ==> IsWhitespace(s[i])
  }

  /** Drops the longest prefix whose characters all satisfy `strip`. */
  function StripStart(s: string, strip: char -> bool): (r: string)
    ensures |r| <= |s| && r == s[|s| - |r|..]
    ensures r != [] ==> !strip(r[0])
    ensures forall i :: 0 <= i < |s| - |r| ==> strip(s[i])
    ensures r == [] <==> forall i :: 0 <= i < |s| ==> strip(s[i])
  {
    if s != [] && strip(s[0]) then StripStart(s[1..], strip) else s
  }

  /** Drops the longest suffix whose characters all satisfy `strip`. */
  function StripEnd(s: string, strip: char -> bool): (r: string)
    ensures |r| <= |s| && r == s[..|r|]
    ensures r != [] ==> !strip(r[|r| - 1])
    ensures forall i :: |r| <= i < |s| ==> strip(s[i])
    ensures r == [] <==> forall i :: 0 <= i < |s| ==> strip(s[i])
  {
    if s != [] && strip(s[|s| - 1]) then StripEnd(s[..|s| - 1], strip) else s
  }

  /** The length of the run of white space that starts `s`. */
  function Indent(s: string): (k: nat)
    ensures k <= |s|
    ensures forall i :: 0 <= i < k ==> IsWhitespace(s[i])
    ensures k < |s| ==> !IsWhitespace(s[k])
  {
    |s| - |StripStart(s, IsWhitespace)|
  }

  /**
   * `str::trim`: the input with its leading white space (the first `Indent`
   * characters) and its trailing white space removed, and nothing else.
   */
  function Trim(s: string): (r: string)
    ensures r == [] <==> IsBlank(s)
    ensures r != [] ==> !IsWhitespace(r[0]) && !IsWhitespace(r[|r| - 1])
    ensures Indent(s) + |r| <= |s| && r == s[Indent(s)..][..|r|]
    ensures forall i :: Indent(s) + |r| <= i < |s| ==> IsWhitespace(s[i])
  {
    StripBoth(s, IsWhitespace);
    StripEnd(StripStart(s, IsWhitespace), IsWhitespace)
  }

  /** Stripping at both ends leaves the start of what follows the stripped prefix. */
  lemma StripBoth(s: string, strip: char -> bool)
    ensures var k := |s| - |StripStart(s, strip)|;
      var r := StripEnd(StripStart(s, strip), strip);
      k + |r| <= |s| && r == s[k..][..|r|] &&
      (forall i :: k + |r| <= i < |s| ==> strip(s[i])) &&
      (r != [] ==> !strip(r[0]) && !strip(r[|r| - 1])) &&
      (r == [] <==> forall i :: 0 <= i < |s| ==> strip(s[i]))
  {
    var front := StripStart(s, strip);
    var r := StripEnd(front, strip);
    TrailingOfSlice(s, front, r, strip);
    if r != [] {
      assert r[0] == front[0];
    }
  }

  /** What follows that slice inside the suffix is what follows it in `s`. */
  lemma TrailingOfSlice(s: string, front: string, r: string, strip: char -> bool)
    requires |front| <= |s| && front == s[|s| - |front|..]
    requires |r| <= |front| && r == front[..|r|]
    requires forall j :: |r| <= j < |front| ==> strip(front[j])
    ensures forall i :: |s| - |front| + |r| <= i < |s| ==> strip(s[i])
  {
    var k := |s| - |front|;
    forall i | k + |r| <= i < |s| ensures strip(s[i]) {
      assert front[i - k] == s[i];
    }
  }

  /** One space on either side of a word is trimmed away. */
  lemma TrimPadded(x: string)
    requires x != [] && !IsWhitespace(x[0]) && !IsWhitespace(x[|x| - 1])
    ensures Trim([' '] + x + [' ']) == x
  {
    var s := [' '] + x + [' '];
    assert s[1..] == x + [' '];
    assert StripStart(s, IsWhitespace) == x + [' '];
    assert (x + [' '])[..|x|] == x;
    assert StripEnd(x + [' '], IsWhitespace) == x;
  }

  /** The length of the run of quotes that starts `s`. */
  function QuoteRun(s: string): (k: nat)
    ensures k <= |s|
    ensures forall i :: 0 <= i < k ==> IsQuote(s[i])
    ensures k < |s| ==> !IsQuote(s[k])
  {
    |s| - |StripStart(s, IsQuote)|
  }

  /**
   * `str::trim_matches('"')`: the input with its leading quotes (the first
   * `QuoteRun` characters) and its trailing quotes removed, and nothing else.
   */
  function TrimQuotes(s: string): (r: string)
    ensures r == [] <==> forall i :: 0 <= i < |s| ==> IsQuote(s[i])
    ensures r != [] ==> !IsQuote(r[0]) && !IsQuote(r[|r| - 1])
    ensures QuoteRun(s) + |r| <= |s| && r == s[QuoteRun(s)..][..|r|]
    ensures forall i :: QuoteRun(s) + |r| <= i < |s| ==> IsQuote(s[i])
  {
    StripBoth(s, IsQuote);
    StripEnd(StripStart(s, IsQuote), IsQuote)
  }

  /** One quote on either side of a text is trimmed away. */
  lemma TrimQuotesQuoted(x: string)
    requires x != [] ==> !IsQuote(x[0]) && !IsQuote(x[|x| - 1])
    ensures TrimQuotes(['"'] + x + ['"']) == x
  {
    var s := ['"'] + x + ['"'];
    if x != [] {
      assert s[1..] == x + ['"'];
      assert StripStart(s, IsQuote) == x + ['"'];
      assert (x + ['"'])[..|x|] == x;
      assert StripEnd(x + ['"'], IsQuote) == x;
    }
  }

  /** Text that neither starts nor ends with a quote is left as it is. */
  lemma TrimQuotesUnchanged(s: string)
    requires s != [] && !IsQuote(s[0]) && !IsQuote(s[|s| - 1])
    ensures TrimQuotes(s) == s
  {
  }

  function LowerChar(c: char): char {
    if 'A' <= c <= 'Z' then (c as int + 32) as char else c
  }

  /** `str::to_lowercase`, restricted to ASCII letters: each character is mapped on its own. */
  function ToLower(s: string): (r: string)
    ensures |r| == |s|
    ensures forall i :: 0 <= i < |s| ==> r[i] == LowerChar(s[i])
  {
    seq(|s|, i requires 0 <= i < |s| => LowerChar(s[i]))
  }

  /** `p` occurs in `s` starting at index `i`. */
  predicate OccursAt(s: string, p: string, i: nat) {
    i + |p| <= |s| && s[i..i + |p|] == p
  }

  lemma OccursShift(s: string, p: string, i: nat)
    requires s != []
    ensures OccursAt(s, p, i + 1) <==> OccursAt(s[1..], p, i)
  {
    if i + 1 + |p| <= |s| {
      assert s[i + 1..i + 1 + |p|] == s[1..][i..i + |p|];
    }
  }

  /** `str::find` for a string pattern: the first index at which `p` occurs. */
  function Find(s: string, p: string): (r: Option<nat>)
    ensures r.Some? ==> OccursAt(s, p, r.value)
    ensures r.Some? ==> forall i: nat :: i < r.value ==> !OccursAt(s, p, i)
    ensures r.None? ==> forall i: nat :: !OccursAt(s, p, i)
  {
    if p <= s then
      assert s[0..0 + |p|] == p;
      Some(0)
    else if s == [] then None
    else
      assert !OccursAt(s, p, 0);
      match Find(s[1..], p)
      case None =>
        assert forall i: nat :: OccursAt(s, p, i + 1) ==> OccursAt(s[1..], p, i) by {
          forall i: nat ensures OccursAt(s, p, i + 1) ==> OccursAt(s[1..], p, i) { OccursShift(s, p, i); }
        }
        assert forall i: nat :: i > 0 ==> !OccursAt(s, p, i) by {
          forall i: nat | i > 0 ensures !OccursAt(s, p, i) { OccursShift(s, p, i - 1); }
        }
        None
      case Some(k) =>
        OccursShift(s, p, k);
        assert forall i: nat :: 0 < i < k + 1 ==> !OccursAt(s, p, i) by {
          forall i: nat | 0 < i < k + 1 ensures !OccursAt(s, p, i) { OccursShift(s, p, i - 1); }
        }
        Some(k + 1)
  }

  /** `str::contains` for a string pattern. */
  predicate Contains(s: string, p: string) {
    exists i: nat :: i <= |s| && OccursAt(s, p, i)
  }

  /** `find` succeeds exactly when `contains` holds. */
  lemma FindContains(s: string, p: string)
    ensures Find(s, p).Some? <==> Contains(s, p)
  {
  }

  /** `str::find` for a character predicate. */
  function FindWhere(s: string, want: char -> bool): (r: Option<nat>)
    ensures r.Some? ==> r.value < |s| && want(s[r.value])
    ensures r.Some? ==> forall i :: 0 <= i < r.value ==> !want(s[i])
    ensures r.None? ==> forall i :: 0 <= i < |s| ==> !want(s[i])
  {
    if s == [] then None
    else if want(s[0]) then Some(0)
    else match FindWhere(s[1..], want)
      case None => None
      case Some(k) => Some(k + 1)
  }

  /** The first position whose character is wanted is the one `FindWhere` returns. */
  lemma FindWhereAt(s: string, want: char -> bool, k: nat)
    requires k < |s| && want(s[k])
    requires forall i :: 0 <= i < k ==> !want(s[i])
    ensures FindWhere(s, want) == Some(k)
  {
  }

  /** `str::ends_with`. */
  predicate EndsWith(s: string, p: string) {
    |p| <= |s| && s[|s| - |p|..] == p
  }

  /**
   * `str::replace`: every non-overlapping occurrence of `from`, scanning
   * left to right, is replaced by `to`. What it computes is stated by
   * `ReplaceAbsent`, `ReplaceFirst`, `ReplaceLength` and `ReplaceChars`.
   */
  function Replace(s: string, from: string, to: string): string
    requires from != []
    decreases |s|
  {
    if from <= s then
      to + Replace(s[|from|..], from, to)
    else if s == [] then
      []
    else
      [s[0]] + Replace(s[1..], from, to)
  }

  /** A text without the pattern is returned unchanged. */
  lemma {:induction false} ReplaceAbsent(s: string, from: string, to: string)
    requires from != [] && !Contains(s, from)
    ensures Replace(s, from, to) == s
    decreases |s|
  {
    if s != [] {
      OccursAtStart(s, from);
      assert !OccursAt(s, from, 0);
      forall i: nat ensures !OccursAt(s[1..], from, i) {
        OccursShift(s, from, i);
      }
      ReplaceAbsent(s[1..], from, to);
      assert Replace(s, from, to) == [s[0]] + Replace(s[1..], from, to);
      assert [s[0]] + s[1..] == s;
    }
  }

  /** Replacing by something no longer never makes the text longer. */
  lemma {:induction false} ReplaceLength(s: string, from: string, to: string)
    requires from != [] && |to| <= |from|
    ensures |Replace(s, from, to)| <= |s|
    decreases |s|
  {
    if from <= s {
      ReplaceLength(s[|from|..], from, to);
    } else if s != [] {
      ReplaceLength(s[1..], from, to);
    }
  }

  /** Every character of the result comes from the text or from the replacement. */
  lemma {:induction false} ReplaceChars(s: string, from: string, to: string)
    requires from != []
    ensures forall c :: c in Replace(s, from, to) ==> c in s || c in to
    decreases |s|
  {
    if from <= s {
      ReplaceChars(s[|from|..], from, to);
      forall c | c in s[|from|..] ensures c in s {
        var i :| 0 <= i < |s[|from|..]| && s[|from|..][i] == c;
        assert s[|from| + i] == c;
      }
    } else if s != [] {
      ReplaceChars(s[1..], from, to);
      forall c | c in s[1..] ensures c in s {
        var i :| 0 <= i < |s[1..]| && s[1..][i] == c;
        assert s[1 + i] == c;
      }
    }
  }

  /** The pattern occurs at the start exactly when it is a prefix. */
  lemma OccursAtStart(s: string, p: string)
    ensures OccursAt(s, p, 0) <==> p <= s
  {
  }

  /** An occurrence with none before it is the one `find` returns. */
  lemma FindAt(s: string, p: string, k: nat)
    requires OccursAt(s, p, k)
    requires forall i: nat :: i < k ==> !OccursAt(s, p, i)
    ensures Find(s, p) == Some(k)
  {
  }

  /**
   * `replace` in terms of `find`: the text before the first occurrence is
   * kept, the occurrence becomes `to`, and the rest is replaced in turn.
   * With `ReplaceAbsent` for the text after the last occurrence, this fixes
   * the result.
   */
  lemma ReplaceFirst(s: string, from: string, to: string, k: nat)
    requires from != [] && Find(s, from) == Some(k)
    ensures k + |from| <= |s|
    ensures Replace(s, from, to) == s[..k] + to + Replace(s[k + |from|..], from, to)
  {
    ReplaceAt(s, from, to, k);
  }

  /** `ReplaceFirst` for an occurrence with none before it. */
  lemma ReplaceAt(s: string, from: string, to: string, k: nat)
    requires from != [] && OccursAt(s, from, k)
    requires forall i: nat :: i < k ==> !OccursAt(s, from, i)
    ensures k + |from| <= |s|
    ensures Replace(s, from, to) == s[..k] + to + Replace(s[k + |from|..], from, to)
  {
    var head, tail := s[..k], s[k..];
    assert s == head + tail;
    ReplaceSkip(head, tail, from, to);
    var after := s[k + |from|..];
    SplitAt(s, from, k);
    ReplacePrefix(after, from, to);
    var rest := Replace(after, from, to);
    assert Replace(tail, from, to) == to + rest;
    assert Replace(s, from, to) == head + (to + rest);
    assert head + (to + rest) == head + to + rest;
  }

  /** The text from an occurrence on is the pattern followed by the rest. */
  lemma SplitAt(s: string, p: string, k: nat)
    requires OccursAt(s, p, k)
    ensures s[k..] == p + s[k + |p|..]
  {
    assert s[k..] == s[k..k + |p|] + s[k + |p|..];
  }

  /** A prefix in which no occurrence of `from` starts is copied unchanged. */
  lemma {:induction false} ReplaceSkip(a: string, s: string, from: string, to: string)
    requires from != []
    requires forall i: nat :: i < |a| ==> !OccursAt(a + s, from, i)
    ensures Replace(a + s, from, to) == a + Replace(s, from, to)
    decreases |a|
  {
    if a == [] {
      assert a + s == s;
    } else {
      NoOccurrenceTail(a, s, from);
      ReplaceSkip(a[1..], s, from, to);
      ReplaceSkipStep(a, s, from, to);
    }
  }

  /** Dropping the first character of an occurrence-free prefix keeps it occurrence-free. */
  lemma NoOccurrenceTail(a: string, s: string, from: string)
    requires a != []
    requires forall i: nat :: i < |a| ==> !OccursAt(a + s, from, i)
    ensures !(from <= a + s)
    ensures forall i: nat :: i < |a[1..]| ==> !OccursAt(a[1..] + s, from, i)
  {
    OccursAtStart(a + s, from);
    assert (a + s)[1..] == a[1..] + s;
    forall i: nat | i < |a[1..]| ensures !OccursAt(a[1..] + s, from, i) {
      OccursShift(a + s, from, i);
    }
  }

  lemma ReplaceSkipStep(a: string, s: string, from: string, to: string)
    requires from != [] && a != [] && !(from <= a + s)
    requires Replace(a[1..] + s, from, to) == a[1..] + Replace(s, from, to)
    ensures Replace(a + s, from, to) == a + Replace(s, from, to)
  {
    assert (a + s)[1..] == a[1..] + s;
    var rest := Replace(s, from, to);
    assert Replace(a + s, from, to) == [a[0]] + Replace(a[1..] + s, from, to);
    assert [a[0]] + (a[1..] + rest) == ([a[0]] + a[1..]) + rest;
    assert [a[0]] + a[1..] == a;
  }

  /** A pattern found at the start is replaced at once. */
  lemma ReplacePrefix(s: string, from: string, to: string)
    requires from != []
    ensures Replace(from + s, from, to) == to + Replace(s, from, to)
  {
    assert (from + s)[|from|..] == s;
  }

  /** A text with exactly one occurrence, not overlapped from the left, has that one replaced. */
  lemma ReplaceOnly(x: string, y: string, from: string, to: string)
    requires from != []
    requires forall i: nat :: i < |x| ==> !OccursAt(x + (from + y), from, i)
    requires !Contains(y, from)
    ensures Replace(x + from + y, from, to) == x + to + y
  {
    assert x + from + y == x + (from + y);
    ReplaceSkip(x, from + y, from, to);
    ReplacePrefix(y, from, to);
    ReplaceAbsent(y, from, to);
    assert x + (to + y) == x + to + y;
  }

  /**
   * No occurrence of `p` starts inside `x` when the `j`-th character of `p`
   * is missing from `x` and from the first `j` characters after it.
   */
  lemma NoOccurrenceIn(x: string, rest: string, p: string, j: nat)
    requires j < |p| && p[j] !in x
    requires forall m :: 0 <= m < j && m < |rest| ==> rest[m] != p[j]
    ensures forall i: nat :: i < |x| ==> !OccursAt(x + rest, p, i)
  {
    var s := x + rest;
    forall i: nat | i < |x| ensures !OccursAt(s, p, i) {
      if i + |p| <= |s| {
        assert s[i..i + |p|][j] == s[i + j];
        if i + j < |x| {
          assert s[i + j] == x[i + j];
        } else {
          assert s[i + j] == rest[i + j - |x|];
        }
      }
    }
  }

  /**
   * No occurrence of `p` starts in [lo, hi) when the `j`-th character of `p`
   * is missing from the positions such an occurrence would put it at.
   */
  lemma NoOccurrenceBetween(s: string, p: string, j: nat, lo: nat, hi: nat)
    requires j < |p|
    requires forall k :: lo + j <= k < hi + j && k < |s| ==> s[k] != p[j]
    ensures forall i: nat :: lo <= i < hi ==> !OccursAt(s, p, i)
  {
    forall i: nat | lo <= i < hi ensures !OccursAt(s, p, i) {
      if i + |p| <= |s| {
        assert s[i..i + |p|][j] == s[i + j];
      }
    }
  }

  /** Replacing one character by another maps the string character by character. */
  lemma {:induction false} ReplaceChar(s: string, a: char, b: char)
    ensures |Replace(s, [a], [b])| == |s|
    ensures forall i :: 0 <= i < |s| ==> Replace(s, [a], [b])[i] == if s[i] == a then b else s[i]
    decreases |s|
  {
    if s != [] {
      ReplaceChar(s[1..], a, b);
      assert [a] <= s <==> s[0] == a;
    }
  }

  /** Lower-casing never turns a white-space character into another kind. */
  lemma LowerKeepsWhitespace(c: char)
    ensures IsWhitespace(LowerChar(c)) == IsWhitespace(c)
  {
  }

  lemma {:induction false} StripStartLower(s: string)
    ensures StripStart(ToLower(s), IsWhitespace) == ToLower(StripStart(s, IsWhitespace))
  {
    if s != [] {
      LowerKeepsWhitespace(s[0]);
      assert ToLower(s)[1..] == ToLower(s[1..]);
      StripStartLower(s[1..]);
    }
  }

  lemma {:induction false} StripEndLower(s: string)
    ensures StripEnd(ToLower(s), IsWhitespace) == ToLower(StripEnd(s, IsWhitespace))
  {
    if s != [] {
      LowerKeepsWhitespace(s[|s| - 1]);
      assert ToLower(s)[..|s| - 1] == ToLower(s[..|s| - 1]);
      StripEndLower(s[..|s| - 1]);
    }
  }

  /** Trimming and ASCII lower-casing commute. */
  lemma TrimLower(s: string)
    ensures Trim(ToLower(s)) == ToLower(Trim(s))
  {
    StripStartLower(s);
    StripEndLower(StripStart(s, IsWhitespace));
  }

  /** Text that neither starts nor ends with white space is its own trim. */
  lemma TrimUnchanged(s: string)
    requires s != [] && !IsWhitespace(s[0]) && !IsWhitespace(s[|s| - 1])
    ensures Trim(s) == s
  {
  }

  /** A run of digits is its own trim. */
  lemma TrimDigits(d: string)
    requires d != [] && AllDigits(d)
    ensures Trim(d) == d
  {
    TrimUnchanged(d);
  }

  /** Text without ASCII capitals is its own lower-case form. */
  lemma LowerUnchanged(s: string)
    requires forall i :: 0 <= i < |s| ==> !('A' <= s[i] <= 'Z')
    ensures ToLower(s) == s
  {
  }

  /** A pattern holding a character the text lacks does not occur in it. */
  lemma MissingChar(s: string, p: string, j: nat)
    requires j < |p| && p[j] !in s
    ensures !Contains(s, p)
  {
    forall i: nat ensures !OccursAt(s, p, i) {
      if i + |p| <= |s| {
        assert s[i..i + |p|][j] == s[i + j];
      }
    }
  }

  /** A pattern that starts the text occurs in it. */
  lemma PrefixContains(s: string, p: string)
    requires p <= s
    ensures Contains(s, p)
  {
    assert OccursAt(s, p, 0);
  }

  /** A string that ends with `p` contains `p`. */
  lemma EndsWithContains(s: string, p: string)
    requires EndsWith(s, p)
    ensures Contains(s, p)
  {
    assert OccursAt(s, p, |s| - |p|);
  }

  /* ---------------- u64::from_str ---------------- */

  /** One more than `u64::MAX`. */
  const U64_LIMIT: nat := 0x1_0000_0000_0000_0000

  predicate IsDigit(c: char) {
    '0' <= c <= '9'
  }

  predicate AllDigits(s: string) {
    forall i :: 0 <= i < |s| ==> IsDigit(s[i])
  }

  /** The value of a run of ASCII decimal digits. */
  function DigitsValue(s: string): nat
    requires AllDigits(s)
  {
    if s == [] then 0 else DigitsValue(s[..|s| - 1]) * 10 + (s[|s| - 1] as int - '0' as int)
  }

  /** The digits `u64::from_str` reads: one leading '+' is allowed before them. */
  function UnsignedDigits(s: string): string {
    if |s| > 1 && s[0] == '+' then s[1..] else s
  }

  /**
   * `str::parse::<u64>`: one optional '+', then at least one ASCII digit,
   * and a value that fits in 64 bits; anything else is an error (None).
   */
  function ParseU64(s: string): (r: Option<nat>)
    ensures r.Some? ==> r.value < U64_LIMIT
  {
    var d := UnsignedDigits(s);
    if d != [] && AllDigits(d) && DigitsValue(d) < U64_LIMIT then Some(DigitsValue(d)) else None
  }

  /** A run of digits parses to its value when that value fits in 64 bits. */
  lemma ParseDigits(d: string)
    requires d != [] && AllDigits(d)
    ensures ParseU64(d) == if DigitsValue(d) < U64_LIMIT then Some(DigitsValue(d)) else None
  {
    assert UnsignedDigits(d) == d;
  }

  /** The decimal text of `n`, without leading zeros: the reference `ParseU64` inverts. */
  function Decimal(n: nat): (r: string)
    ensures r != [] && AllDigits(r)
  {
    if n < 10 then ['0' + n as char] else Decimal(n / 10) + ['0' + (n % 10) as char]
  }

  lemma {:induction false} DecimalValue(n: nat)
    ensures DigitsValue(Decimal(n)) == n
  {
    if n >= 10 {
      DecimalValue(n / 10);
      var d := Decimal(n);
      assert d[..|d| - 1] == Decimal(n / 10);
    }
  }

  /** Round trip: the decimal text of a u64, with or without a '+', parses back to it; larger values overflow. */
  lemma ParseDecimal(n: nat)
    ensures ParseU64(Decimal(n)) == if n < U64_LIMIT then Some(n) else None
    ensures ParseU64("+" + Decimal(n)) == if n < U64_LIMIT then Some(n) else None
  {
    DecimalValue(n);
    assert Decimal(n)[0] != '+';
    assert ("+" + Decimal(n))[1..] == Decimal(n);
  }
}
