/**
 * The three line patterns of main.go:31-33, matched by hand instead of by the Go
 * regular-expression engine:
 *   refRegexp     `\[(\w+)\][^:]`   (all non-overlapping matches, left to right)
 *   extLinkRegexp `^\[(\w+)\]:\s+`
 *   headerRegexp  `^(#+)\s+(.+)`
 * The character classes are those of RE2: `\w` is `[0-9A-Za-z_]`, `\s` is
 * `[\t\n\f\r ]`, and `.` is any character but a newline.
 */
module Patterns {
  import opened Wrappers
  import opened Text

  predicate IsWordChar(c: char)
  {
    'a' <= c <= 'z' || 'A' <= c <= 'Z' || '0' <= c <= '9' || c == '_'
  }

  predicate IsSpace(c: char)
  {
    c == '\t' || c == '\n' || c == '\U{000C}' || c == '\r' || c == ' '
  }

  /** The character classes the three patterns repeat with `+`: `\w`, `\s`, a literal
      `#`, and `.`. */
  datatype CharClass = Word | Space | Hash | AnyButNewline

  predicate InClass(c: char, k: CharClass)
  {
    match k {
      case Word => IsWordChar(c)
      case Space => IsSpace(c)
      case Hash => c == '#'
      case AnyButNewline => c != '\n'
    }
  }

  /** What `(\w+)` captures: a non-empty run of word characters. */
  predicate IsIdentifier(s: string)
  {
    |s| > 0 && forall i :: 0 <= i < |s| ==> IsWordChar(s[i])
  }

  /** The end of the longest run of characters of a class that starts at `i`
      (what a greedy `X+` or `X*` consumes). */
  function SpanEnd(s: string, i: nat, k: CharClass): (j: nat)
    requires i <= |s|
    ensures i <= j <= |s|
    ensures forall m :: i <= m < j ==> InClass(s[m], k)
    ensures j == |s| || !InClass(s[j], k)
    decreases |s| - i
  {
    if i < |s| && InClass(s[i], k) then SpanEnd(s, i + 1, k) else i
  }

  /** A run is the longest one exactly when the next character is outside the class. */
  lemma SpanEndAt(s: string, i: nat, j: nat, k: CharClass)
    requires i <= j <= |s|
    requires forall m :: i <= m < j ==> InClass(s[m], k)
    requires j == |s| || !InClass(s[j], k)
    ensures SpanEnd(s, i, k) == j
  {
  }

  // ---------------------------------------------------------------- references

  /** `\[(\w+)\][^:]` matches at index `p`: an opening bracket, a word, a closing
      bracket and one more character that is not a colon. */
  predicate RefAt(s: string, p: nat)
  {
    p < |s| && s[p] == '[' &&
    var q := SpanEnd(s, p + 1, Word);
    p + 1 < q && q + 1 < |s| && s[q] == ']' && s[q + 1] != ':'
  }

  /** The captured identifier of the match at `p`. */
  function RefName(s: string, p: nat): string
    requires RefAt(s, p)
  {
    s[p + 1..SpanEnd(s, p + 1, Word)]
  }

  /** `FindAllStringSubmatch(s, -1)` from index `p`: after a match the scan resumes
      behind the character that followed the closing bracket. */
  function RefNamesFrom(s: string, p: nat): seq<string>
    requires p <= |s|
    decreases |s| - p
  {
    if p == |s| then []
    else if RefAt(s, p) then [RefName(s, p)] + RefNamesFrom(s, SpanEnd(s, p + 1, Word) + 2)
    else RefNamesFrom(s, p + 1)
  }

  /** The identifiers of every reference marker on a line, left to right. */
  function RefNames(s: string): seq<string>
  {
    RefNamesFrom(s, 0)
  }

  /** A match at `p` spells `[name]` followed by a character other than `:`. */
  lemma RefAtSpells(s: string, p: nat)
    requires RefAt(s, p)
    ensures var n := RefName(s, p);
      IsIdentifier(n) && p + |n| + 2 < |s| &&
      s[p..p + |n| + 2] == "[" + n + "]" && s[p + |n| + 2] != ':'
  {
    var n := RefName(s, p);
    assert s[p..p + |n| + 2] == [s[p]] + n + [s[p + |n| + 1]];
  }

  /** Conversely, `[name]` followed by a non-colon character is a match at `p`. */
  lemma SpelledRefAt(s: string, p: nat, n: string)
    requires IsIdentifier(n) && p + |n| + 2 < |s|
    requires s[p..p + |n| + 2] == "[" + n + "]" && s[p + |n| + 2] != ':'
    ensures RefAt(s, p) && RefName(s, p) == n
  {
    assert s[p] == s[p..p + |n| + 2][0];
    forall k | p + 1 <= k < p + |n| + 1
      ensures s[k] == n[k - p - 1] && IsWordChar(s[k])
    {
      assert s[k] == s[p..p + |n| + 2][k - p] == n[k - p - 1];
    }
    assert s[p + |n| + 1] == s[p..p + |n| + 2][|n| + 1];
    SpanEndAt(s, p + 1, p + |n| + 1, Word);
    assert s[p + 1..p + |n| + 1] == n;
  }

  /** The scan finds nothing exactly when no index from `p` on starts a match. */
  lemma {:induction false} RefNamesEmptyIff(s: string, p: nat)
    requires p <= |s|
    ensures RefNamesFrom(s, p) == [] <==> forall k :: p <= k < |s| ==> !RefAt(s, k)
    decreases |s| - p
  {
    if p < |s| && !RefAt(s, p) {
      RefNamesEmptyIff(s, p + 1);
    }
  }

  /** Every identifier the scan reports is the identifier of a match at or after `p`. */
  lemma {:induction false} RefNamesSound(s: string, p: nat)
    requires p <= |s|
    ensures forall n :: n in RefNamesFrom(s, p) ==>
      exists k :: p <= k < |s| && RefAt(s, k) && RefName(s, k) == n
    decreases |s| - p
  {
    if p < |s| {
      if RefAt(s, p) {
        RefNamesSound(s, SpanEnd(s, p + 1, Word) + 2);
      } else {
        RefNamesSound(s, p + 1);
      }
    }
  }

  /** The scan passes over indices at which no match starts. */
  lemma {:induction false} RefNamesSkip(s: string, p: nat, q: nat)
    requires p <= q <= |s|
    requires forall k :: p <= k < q ==> !RefAt(s, k)
    ensures RefNamesFrom(s, p) == RefNamesFrom(s, q)
    decreases q - p
  {
    if p < q {
      RefNamesSkip(s, p + 1, q);
    }
  }

  // --------------------------------------------------------------- definitions

  /** `^\[(\w+)\]:\s+`: the identifier of a reference-definition line. */
  function DefinitionName(s: string): Option<string>
  {
    if |s| > 0 && s[0] == '[' then
      var q := SpanEnd(s, 1, Word);
      if 1 < q && q + 2 < |s| && s[q] == ']' && s[q + 1] == ':' && IsSpace(s[q + 2])
      then Some(s[1..q]) else None
    else None
  }

  /** A defined identifier is spelled out at the start of the line. */
  lemma DefinitionNameSpelled(s: string, n: string)
    requires DefinitionName(s) == Some(n)
    ensures IsIdentifier(n) && |n| + 3 < |s| && s[..|n| + 3] == "[" + n + "]:" && IsSpace(s[|n| + 3])
  {
    assert s[..|n| + 3] == [s[0]] + n + [s[|n| + 1], s[|n| + 2]];
  }

  /** A line spelling out `[n]:` and whitespace defines `n`. */
  lemma SpelledDefinitionName(s: string, n: string)
    requires IsIdentifier(n) && |n| + 3 < |s| && s[..|n| + 3] == "[" + n + "]:" && IsSpace(s[|n| + 3])
    ensures DefinitionName(s) == Some(n)
  {
    var p := s[..|n| + 3];
    assert s[0] == p[0] == '[';
    forall k | 1 <= k < |n| + 1
      ensures IsWordChar(s[k])
    {
      assert s[k] == p[k] == n[k - 1];
    }
    assert s[|n| + 1] == p[|n| + 1] == ']';
    assert s[|n| + 2] == p[|n| + 2] == ':';
    SpanEndAt(s, 1, |n| + 1, Word);
    assert s[1..|n| + 1] == p[1..|n| + 1] == n;
  }

  /** A line defines `n` exactly when it starts with `[n]:` and a whitespace character. */
  lemma DefinitionNameIff(s: string, n: string)
    ensures DefinitionName(s) == Some(n) <==>
      IsIdentifier(n) && |n| + 3 < |s| && s[..|n| + 3] == "[" + n + "]:" && IsSpace(s[|n| + 3])
  {
    if DefinitionName(s) == Some(n) {
      DefinitionNameSpelled(s, n);
    }
    if IsIdentifier(n) && |n| + 3 < |s| && s[..|n| + 3] == "[" + n + "]:" && IsSpace(s[|n| + 3]) {
      SpelledDefinitionName(s, n);
    }
  }

  // ------------------------------------------------------------------ headings

  /** The two groups of `^(#+)\s+(.+)`: the number of leading `#` and the text. */
  datatype Heading = Heading(level: nat, text: string)

  /** The largest index in `lo..hi` at which `.+` can start: inside the line and not
      a newline. Greedy `\s+` gives back characters only as far as `.+` needs. */
  function TextStart(s: string, lo: nat, hi: nat): (r: Option<nat>)
    ensures r.Some? ==> lo <= r.value <= hi && r.value < |s| && s[r.value] != '\n'
    ensures r.Some? ==> forall j :: r.value < j <= hi && j < |s| ==> s[j] == '\n'
    ensures r.None? ==> forall j :: lo <= j <= hi && j < |s| ==> s[j] == '\n'
    decreases hi
  {
    if hi < lo then None
    else if hi < |s| && s[hi] != '\n' then Some(hi)
    else if hi == 0 then None
    else TextStart(s, lo, hi - 1)
  }

  /** `headerRegexp.FindStringSubmatch`: the level and the text of a heading line. */
  function HeadingMatch(s: string): Option<Heading>
  {
    var h := SpanEnd(s, 0, Hash);
    var e := SpanEnd(s, h, Space);
    if h == 0 || e == h then None
    else match TextStart(s, h + 1, e) {
      case None => None
      case Some(k) => Some(Heading(h, s[k..SpanEnd(s, k, AnyButNewline)]))
    }
  }

  /** A heading match has a level of at least one leading `#`, whitespace right after
      them, and a non-empty text without newlines taken from behind that whitespace. */
  lemma HeadingMatchShape(s: string)
    ensures HeadingMatch(s).Some? ==>
      var h := HeadingMatch(s).value;
      0 < h.level < |s| && IsSpace(s[h.level]) &&
      (forall i :: 0 <= i < h.level ==> s[i] == '#') &&
      |h.text| > 0 && (forall i :: 0 <= i < |h.text| ==> h.text[i] != '\n') &&
      exists k :: h.level < k && OccursAt(s, h.text, k)
  {
    if HeadingMatch(s).Some? {
      var h := SpanEnd(s, 0, Hash);
      var e := SpanEnd(s, h, Space);
      var k := TextStart(s, h + 1, e).value;
      assert OccursAt(s, s[k..SpanEnd(s, k, AnyButNewline)], k);
    }
  }

  /** The number of leading `#` of a heading line; 0 for every other line. */
  function Level(s: string): nat
  {
    match HeadingMatch(s) {
      case Some(h) => h.level
      case None => 0
    }
  }

  /** An ordinary heading line: `level` hashes, whitespace, then text that starts
      with a non-space character and runs to the end of the line. */
  lemma HeadingOfPlainLine(s: string, level: nat, w: nat)
    requires 0 < level < w < |s|
    requires forall i :: 0 <= i < level ==> s[i] == '#'
    requires forall i :: level <= i < w ==> IsSpace(s[i])
    requires !IsSpace(s[w])
    requires forall i :: w <= i < |s| ==> s[i] != '\n'
    ensures HeadingMatch(s) == Some(Heading(level, s[w..]))
  {
    SpanEndAt(s, 0, level, Hash);
    SpanEndAt(s, level, w, Space);
    assert SpanEnd(s, 0, Hash) == level;
    assert SpanEnd(s, level, Space) == w;
    assert TextStart(s, level + 1, w) == Some(w);
    SpanEndAt(s, w, |s|, AnyButNewline);
    assert SpanEnd(s, w, AnyButNewline) == |s|;
    assert s[w..SpanEnd(s, w, AnyButNewline)] == s[w..];
  }

  /** A line that does not start with `#` is never a heading. */
  lemma NoHashNoHeading(s: string)
    requires s == [] || s[0] != '#'
    ensures HeadingMatch(s) == None && Level(s) == 0
  {
    SpanEndAt(s, 0, 0, Hash);
  }
}
