# markproc in Dafny

A Dafny model of the Markdown cross-reference preprocessor in `main.go`, plus the
section-numbering helpers in `main_test.go`.

The preprocessor reads a document's lines and runs five passes over them:

- **passFindRefs** scans each line for matches of `\[(\w+)\][^:]`. A match is a `[word]`
  followed by one character other than `:`, and the scan resumes after that character. It
  records one unresolved `Reference` per match, with its line index. For each match it then
  replaces every `[word]` on the line with the link `[word](#word)`. Two consequences:
  - a marker written directly behind another, as in `[a][b]x`, is not found;
  - a `[word]` followed by `:` is still rewritten when the same word is matched elsewhere on
    the line, so `[a]: [a] x` stops being a definition line.
- **passMkExterns** records a `Target` for every reference-definition line `[word]: …` and
  writes an anchor `<a name="word"></a>` for it.
- **passMkHeads** digests the whole document. It then records a `Target` for every heading
  `#… text`, named `text-<digest>`. It writes every line, and puts an anchor before each
  heading.
- **passLinkExterns** marks a reference resolved when some target carries exactly its name.
- **passLinkHeads** handles every reference still unresolved:
  - it asks a fuzzy matcher to compare the lower-cased name against the lower-cased
    headings;
  - it keeps only the results with insertions and no deletions or substitutions;
  - it warns when none or several remain.

## Structure

- `wrappers.dfy`: `Option`.
- `text.dfy` (module `Text`): the Go string helpers used by the core. These are
  `strings.ToLower`, `strings.Contains`, `strings.Replace(…, -1)` and `strconv.Itoa`.
- `patterns.dfy` (module `Patterns`): the three regular expressions of main.go:31-33, matched
  by hand.
  - The character classes follow RE2: `\w` is `[0-9A-Za-z_]`, `\s` is `[\t\n\f\r ]` and `.`
    is any character except a newline.
  - `FindAllStringSubmatch` resumes its scan after the character that `[^:]` consumed.
  - In `^(#+)\s+(.+)`, the greedy `\s+` gives back whitespace when `.+` needs it.
- `registry.dfy` (module `Registry`):
  - the `Reference` and `Target` records;
  - the specification functions that say what each pass computes over a whole document:
    rewritten lines, references, targets and the output log.
- `resolution.dfy` (module `Resolution`): the resolution policy of passLinkHeads. It covers
  the lowered-heading map, `keys`, the insertions-only filter and the three-way decision.
- `passes.dfy` (module `Passes`): the passes as imperative code.
  - `main` hands its `references` and `targets` slices and its stdout writer to the passes by
    pointer. Here they are the fields `references`, `targets` and `output` of one
    `Preprocessor` object.
  - Each pass is a method that updates those fields. Each is proved against the
    specification functions of `Registry` and `Resolution`.
  - `Process` runs the passes in `main`'s order.
- `numbering.dfy` (module `SectionNumbering`):
  - `generateExpectedSectionNumbers` keeps a five-slot counter array. It is modelled with an
    array that is updated in place.
  - `findSection` is modelled as a linear search.

The tests in main_test.go expect more than main.go does. The model follows main.go:

- `TestPassMkHeads` (main_test.go:32-50) expects numbered headings with `sec` anchors.
  main.go does not number headings.
- `TestPassLinkHeads` (main_test.go:70-98) expects a single fuzzy match to be rewritten into
  a link (main_test.go:84). main.go leaves that branch empty.
- `TestVerify` (main_test.go:100-121) expects duplicate anchors and missing link targets to be
  reported. main.go has no such check.

## Model

| member | source | states |
|---|---|---|
| Text.ToLower | main.go:87 | The result has the input's length. Each ASCII upper-case letter becomes its lower-case letter, and every other character is kept. |
| Text.ContainsIff | main_test.go:243 | `strings.Contains` holds exactly when the substring occurs at some index. |
| Text.ReplaceAllAbsent | main.go:73 | Replacing a non-empty pattern that does not occur returns the string unchanged. |
| Text.ReplaceAllGrows | main.go:73 | A replacement at least as long as the pattern never shortens the string. A strictly longer one lengthens every string that contains the pattern. |
| Text.ReplaceAllKeepsRep | main.go:73 | After replacing a pattern that occurs, the result contains the replacement. |
| Text.Itoa | main_test.go:231 | The decimal form is never empty, and a non-negative number yields only digits. |
| Text.ItoaValue | main_test.go:231 | The digits denote the number: read back in decimal they give `n`, behind a `-` when `n` is negative. |
| Patterns.SpanEnd | main.go:31-33 | A greedy `X+` run ends at the first character outside the class, and every character before it is in the class. |
| Patterns.RefAtSpells | main.go:31 | A `refRegexp` match spells `[name]`: the name is a non-empty word and the next character is not `:`. |
| Patterns.SpelledRefAt | main.go:31 | Conversely, `[name]` followed by a character other than `:` is a match that captures `name`. |
| Patterns.RefNamesEmptyIff | main.go:69 | The scan finds no marker exactly when no index of the line starts a match. |
| Patterns.RefNamesSound | main.go:69-71 | Every identifier the scan reports is the capture of a match on the line. |
| Patterns.DefinitionNameIff | main.go:32 | A line defines `n` exactly when it starts with `[n]:` followed by whitespace and `n` is a word. |
| Patterns.TextStart | main.go:33 | `.+` starts at the last non-newline character inside the whitespace run or right after it. Nothing is found when all of them are newlines. |
| Patterns.HeadingMatchShape | main.go:33 | A heading match has level ≥ 1 and that many leading `#`, then whitespace, then a non-empty newline-free text that occurs behind the hashes. |
| Patterns.HeadingOfPlainLine | main.go:33 | `#…#`, whitespace, then text that starts with a non-space character and has no newline is a heading of that level with exactly that text. |
| Patterns.NoHashNoHeading | main.go:33 | A line that does not start with `#` is no heading (level 0). |
| Registry.RewriteAllGrows | main.go:70-74 | The successive replacements never shorten a line, and they lengthen it when the first marker occurs in it. |
| Registry.RewriteLineUnchangedIff | main.go:69-76 | passFindRefs returns a line unchanged exactly when the line holds no reference marker. |
| Registry.DuplicateMarkersFound | main.go:69 | `[n]c[n]d` reports `n` twice when neither `c` nor `d` is `:`. The first match consumes only `c`, so the scan resumes at the second `[`. |
| Registry.AdjacentMarkerHidden | main.go:69 | `[n][n]d` reports `n` once. The `[^:]` of the first match consumes the second `[`. |
| Registry.DefinitionLostWhenReferenced | main.go:69-74 | On a definition line of `n` whose only match is `n`, the rewrite turns the leading `[n]:` into `[n](#n):`, so the line no longer defines `n`. |
| Registry.SelfReferringDefinitionLost | main.go:69-74 | For example, `[n]: [n]d` defines `n` and matches only `n`, and after passFindRefs it defines nothing. |
| Registry.DuplicateNameRewrapped | main.go:70-74 | A name reported twice is replaced twice: the second `strings.Replace` finds `[n]` inside the links the first wrote and lengthens the line again. |
| Registry.RefsAtShape | main.go:70-72 | One unresolved reference per identifier found on a line, in order, carrying the line index. |
| Registry.RefsOfFacts | main.go:68-75 | Every recorded reference is unresolved and points at a line whose markers include its name. References come in document order. |
| Registry.RefsOfPrefix | main.go:68-72 | References recorded for earlier lines are never altered by later lines. |
| Registry.ExternTargetsIff | main.go:84-87 | A target is collected by passMkExterns exactly when some line is a definition of its name, with the whole line as heading and that line lower-cased. |
| Registry.HeadTargetsIff | main.go:103-107 | A target is collected by passMkHeads exactly when some heading line has its text, named text-dash-digest, with the text lower-cased. |
| Registry.TargetsPrefix | main.go:84-87 | Targets of earlier lines come first: the targets of a prefix of the document are a prefix of the document's targets. |
| Resolution.InsertionOnlyIff | main.go:140-145 | A string is kept exactly when it is the original of some result with insertions and no deletions or substitutions. |
| Resolution.LoweredTargetsLast | main.go:130-133 | The map's keys are exactly the lower-cased headings. Each maps to the name of the last target with that lower-cased heading. |
| Resolution.Keys | main.go:163-169 | Returns every key of the map exactly once, so the result's length is the map's size. |
| Resolution.Decide | main.go:146-156 | No acceptable result gives no match. Exactly one gives a single match whose target is the map's value for it, or "" if absent. Two or more give multiple matches with every candidate kept. |
| Resolution.WarningsEmptyIff | main.go:146-156 | No warning is printed exactly when every examined reference had exactly one acceptable result. |
| Resolution.SingleMatchTarget | main.go:149-150 | If the matcher returns candidates only, a single match names the target of the last heading with that lower-cased text. |
| Resolution.UnresolvedIff | main.go:137-138 | A reference is examined by passLinkHeads exactly when it is recorded and not yet resolved. |
| Passes.Linked | main.go:117-127 | After linking, every reference keeps its name and line. It is resolved exactly when it already was or some target carries its name (case-sensitive). |
| Passes.Digested | main.go:96-99 | The digest is fed the concatenation of all lines, without separators. |
| Passes.Preprocessor.constructor | main.go:37-38 | The references, targets and output all start empty. |
| Passes.Preprocessor.FindRefs | main.go:69-75 | One line: the result is the rewritten line, and one reference per marker is appended. |
| Passes.Preprocessor.PassFindRefs | main.go:66-80 | Returns each line rewritten and appends the references of the whole document. Writes every rewritten line. |
| Passes.Preprocessor.MkExtern | main.go:85-89 | One line: a definition appends its target and writes its anchor, and any other line changes nothing. |
| Passes.Preprocessor.PassMkExterns | main.go:82-93 | Returns the lines unchanged, appends the definition targets and writes their anchors. |
| Passes.Preprocessor.MkHead | main.go:104-112 | One line: a heading appends its target and writes its anchor before the line. Every line is written. |
| Passes.Preprocessor.MkHeads | main.go:102-114 | Returns the lines unchanged. Appends every heading target for the given digest and writes the heading log. |
| Passes.Preprocessor.PassMkHeads | main.go:95-115 | The same, with the digest taken over the concatenated lines. |
| Passes.Preprocessor.PassLinkExterns | main.go:117-127 | Returns the lines unchanged. The references become `Linked` against the targets, and the targets are untouched. |
| Passes.Preprocessor.PassLinkHeads | main.go:129-161 | Returns the lines unchanged and changes no field. There is one outcome per unresolved reference, each explained by the policy over some key order, and the warnings are those of the outcomes. |
| Passes.LowerTargets | main.go:130-133 | Builds exactly the lowered-heading map (see `LoweredTargetsLast`). |
| Passes.FilterInsertionOnly | main.go:140-145 | Keeps exactly the insertions-only originals, in the matcher's order (see `InsertionOnlyIff`). |
| Passes.LinkReference | main.go:138-156 | The outcome is the decision for the matcher's results on the lower-cased name and some order of the map's keys. The warning is that outcome's. |
| Passes.LinkAll | main.go:137-158 | One outcome per unresolved reference, in order. The warnings are the concatenation of theirs. |
| Passes.DefinitionSurvives | main.go:54-55 | A definition line without markers of its own passes passFindRefs unchanged, so passMkExterns collects a target with its name. |
| Passes.DefinedReferencesResolve | main.go:54-57 | Round trip: every reference whose name is defined on a marker-free definition line is resolved after passLinkExterns. |
| Passes.Process | main.go:54-63 | After the five passes in main's order, the lines, targets, references, output, outcomes and warnings are those the specification functions give. |
| SectionNumbering.LevelOfHeading | main_test.go:223-224 | A line is a heading exactly when its level is positive, and the level is the number of leading `#`. |
| SectionNumbering.Advance | main_test.go:225-228 | A heading of level L adds one to slot L-1, clears slots L..4 and keeps every slot below L-1. |
| SectionNumbering.Counters | main_test.go:220-228 | The counter vector always has five slots. |
| SectionNumbering.Parent | main_test.go:229-232 | The parent number is empty exactly for a top-level heading. |
| SectionNumbering.Bump | main_test.go:225-228 | The in-place update of the counter array is exactly `Advance`. |
| SectionNumbering.NumberLine | main_test.go:223-235 | One line: a heading advances the counters and yields the number built from its level, its index and its parent. Any other line changes nothing and yields nothing. |
| SectionNumbering.GenerateExpectedSectionNumbers | main_test.go:219-238 | Returns exactly the numbers `Expected` defines for the document. |
| SectionNumbering.HeadingsIff | main_test.go:222-223 | The heading indices are exactly the lines with a level, in increasing order. |
| SectionNumbering.ExpectedCount | main_test.go:222-236 | Exactly one number per heading line. |
| SectionNumbering.ExpectedPerHeading | main_test.go:222-236 | The k-th number is the one generated from the counters just after the k-th heading line. |
| SectionNumbering.CountersNonNegative | main_test.go:220-228 | No counter is ever negative. |
| SectionNumbering.AdvanceGrows | main_test.go:225-228 | A heading moves the counter vector strictly forward in lexicographic order. |
| SectionNumbering.CountersMonotone | main_test.go:222-228 | The counter vector never moves backwards along the document. |
| SectionNumbering.HeadingsStrictlyOrdered | main_test.go:222-228 | The counters just after a heading come strictly after those at any earlier line. |
| SectionNumbering.FindSection | main_test.go:241-248 | Returns -1 exactly when no line contains the section number. Otherwise it returns the smallest index of a line that does. |

## Left out

- `main`'s reading of standard input, the scanner error path and `os.Exit` (main.go:39-52) are left out. `Process` takes the lines as a parameter. Everything the passes and `main` write to standard output is one `output` sequence of strings. Buffering and flushing are not modelled.
- The warnings passLinkHeads prints to standard error (main.go:148, 155) are returned as a sequence instead. How they interleave with standard output is not modelled.
- SHA-256 and hex encoding (main.go:96-101) are a parameter `digest`. The model proves only that the digest is applied to the concatenation of the lines.
- `fuzzy.Match` (main.go:139) is a parameter `Matcher`. Only the fields passLinkHeads reads are kept.
- Resolution.SingleMatchTarget: requires that the matcher return originals drawn from the candidates. The matcher's body is not available, so this is an assumption about it.
- Go's map iteration order in `keys` (main.go:165) is left unspecified. `Keys` picks keys in any order, and the contracts about passLinkHeads hold for every order.
- Text.ToLower: lowers only the ASCII letters. Go's Unicode case mapping is not modelled.
- The regular-expression engine is replaced by hand-written matchers for the three patterns.
  - Strings are sequences of characters, one per rune.
  - Byte offsets and invalid UTF-8 are not modelled.
- Integers are unbounded. Go's 64-bit `int` for line indices and counters could only overflow past any real document size.
- main.go:150 declares `resolvedName` and never uses it, and Go does not compile an unused local. The model evaluates the lookup and records it in the `SingleMatch` outcome. It changes no state, just as the branch's `XXX` comments leave the renaming undone.
- SectionNumbering.GenerateExpectedSectionNumbers: requires every heading to have at most five `#`. A deeper heading indexes the Go slice out of range and panics.
- `generateSectionNumber` (main_test.go:233) is not part of this model. It is a parameter `Numberer`, and the strings it builds are not modelled.
- The test functions of main_test.go are left out. That covers random shuffling, `verify`, and the one-argument pass signatures they call, which `main.go` does not define.
