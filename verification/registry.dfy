/**
 * The reference and target records of main.go and the specification functions of
 * what the passes compute over a whole document: the rewritten lines, the
 * references found, the targets collected and the lines written to the output.
 */
module Registry {
  import opened Wrappers
  import opened Text
  import opened Patterns

  /** A `[word]` marker found on a line (main.go:15-19). */
  datatype Reference = Reference(name: string, line: int, resolved: bool)

  /** A link target: a reference definition or a heading (main.go:21-25). */
  datatype Target = Target(name: string, heading: string, headingLower: string)

  function Marker(n: string): string { "[" + n + "]" }

  function Link(n: string): string { "[" + n + "](#" + n + ")" }

  /** The anchor tag written before a target line. */
  function Anchor(name: string): string { "<a name=\"" + name + "\"></a>" }

  // ------------------------------------------------------------- passFindRefs

  /** The successive `strings.Replace` calls of passFindRefs, one per identifier in order. */
  function RewriteAll(line: string, names: seq<string>): string
  {
    if names == [] then line
    else
      var n := names[|names| - 1];
      ReplaceAll(RewriteAll(line, names[..|names| - 1]), Marker(n), Link(n))
  }

  /** The line passFindRefs emits for `line`. */
  function RewriteLine(line: string): string
  {
    RewriteAll(line, RefNames(line))
  }

  /** Rewriting never shortens a line, and lengthens it when the first marker occurs in it. */
  lemma {:induction false} RewriteAllGrows(line: string, names: seq<string>)
    ensures |RewriteAll(line, names)| >= |line|
    ensures names != [] && Contains(line, Marker(names[0])) ==> |RewriteAll(line, names)| > |line|
  {
    if names != [] {
      var init, n := names[..|names| - 1], names[|names| - 1];
      RewriteAllGrows(line, init);
      ReplaceAllGrows(RewriteAll(line, init), Marker(n), Link(n));
      if init != [] {
        assert init[0] == names[0];
      }
    }
  }

  /** A line comes out of passFindRefs unchanged exactly when it holds no reference marker. */
  lemma RewriteLineUnchangedIff(line: string)
    ensures RewriteLine(line) == line <==> RefNames(line) == []
  {
    var names := RefNames(line);
    if names != [] {
      RefNamesSound(line, 0);
      assert names[0] in names;
      var k :| 0 <= k < |line| && RefAt(line, k) && RefName(line, k) == names[0];
      RefAtSpells(line, k);
      assert OccursAt(line, Marker(names[0]), k);
      ContainsIff(line, Marker(names[0]));
      RewriteAllGrows(line, names);
    }
  }

  /** Two markers with the same identifier, each followed by one character other than
      a colon, are both found: the first match consumes only the character behind it ... */
  lemma DuplicateMarkersFound(n: string, c: char, d: char)
    requires IsIdentifier(n) && c != ':' && d != ':'
    ensures RefNames(Marker(n) + [c] + Marker(n) + [d]) == [n, n]
  {
    var s := Marker(n) + [c] + Marker(n) + [d];
    var w := |n| + 3;
    assert s[..|n| + 2] == "[" + n + "]";
    SpelledRefAt(s, 0, n);
    assert s[w..w + |n| + 2] == "[" + n + "]";
    SpelledRefAt(s, w, n);
    assert SpanEnd(s, 1, Word) == |n| + 1 && SpanEnd(s, w + 1, Word) == w + |n| + 1;
    assert RefNamesFrom(s, w) == [n];
  }

  /** ... and then the second `strings.Replace` finds the marker again inside the
      links the first one wrote, so the line is rewritten a second time and grows. */
  lemma DuplicateNameRewrapped(line: string, n: string)
    requires Contains(line, Marker(n))
    ensures |RewriteAll(line, [n, n])| > |RewriteAll(line, [n])|
  {
    var once := ReplaceAll(line, Marker(n), Link(n));
    assert [n, n][..1] == [n];
    assert RewriteAll(line, [n]) == once;
    ReplaceAllKeepsRep(line, Marker(n), Link(n));
    ContainsShorter(once, Link(n), Marker(n));
    ReplaceAllGrows(once, Marker(n), Link(n));
  }

  /** A marker written directly behind another is not found: the `[^:]` of the first
      match consumes its opening bracket, and the scan resumes inside it. */
  lemma AdjacentMarkerHidden(n: string, d: char)
    requires IsIdentifier(n) && d != ':'
    ensures RefNames(Marker(n) + Marker(n) + [d]) == [n]
  {
    var s := Marker(n) + Marker(n) + [d];
    assert s[..|n| + 2] == "[" + n + "]";
    SpelledRefAt(s, 0, n);
    assert SpanEnd(s, 1, Word) == |n| + 1;
    forall k | |n| + 3 <= k < |s|
      ensures !RefAt(s, k)
    {
      if k < 2 * |n| + 3 {
        assert s[k] == n[k - |n| - 3];
      }
    }
    RefNamesSkip(s, |n| + 3, |s|);
  }

  /** A definition line whose identifier is also the one marker found further on loses
      its definition: `strings.Replace` rewrites the `[n]` in front of the colon too. */
  lemma DefinitionLostWhenReferenced(line: string, n: string)
    requires DefinitionName(line) == Some(n) && RefNames(line) == [n]
    ensures DefinitionName(RewriteLine(line)) == None
  {
    DefinitionNameSpelled(line, n);
    assert line[..|Marker(n)|] == Marker(n);
    var r := RewriteLine(line);
    assert [n][..0] == [] && RewriteAll(line, []) == line;
    assert r == RewriteAll(line, [n]) == ReplaceAll(line, Marker(n), Link(n));
    assert r == Link(n) + ReplaceAll(line[|Marker(n)|..], Marker(n), Link(n));
    forall m | 1 <= m < |n| + 1
      ensures IsWordChar(r[m])
    {
      assert r[m] == Link(n)[m] == n[m - 1];
    }
    assert r[|n| + 1] == Link(n)[|n| + 1] == ']';
    SpanEndAt(r, 1, |n| + 1, Word);
    assert r[|n| + 2] == Link(n)[|n| + 2] == '(';
  }

  /** For instance `[n]: [n]x` is a definition with one marker, and after passFindRefs
      it is no definition any more. */
  lemma SelfReferringDefinitionLost(n: string, d: char)
    requires IsIdentifier(n) && d != ':'
    ensures var line := Marker(n) + ": " + Marker(n) + [d];
      DefinitionName(line) == Some(n) && RefNames(line) == [n] &&
      DefinitionName(RewriteLine(line)) == None
  {
    var line := Marker(n) + ": " + Marker(n) + [d];
    var w := |n| + 4;
    assert line[..|n| + 3] == "[" + n + "]:";
    SpelledDefinitionName(line, n);
    forall k | 0 <= k < w
      ensures !RefAt(line, k)
    {
      if k == 0 {
        assert SpanEnd(line, 1, Word) == |n| + 1;
      } else if k < |n| + 1 {
        assert line[k] == n[k - 1];
      }
    }
    RefNamesSkip(line, 0, w);
    assert line[w..w + |n| + 2] == "[" + n + "]";
    SpelledRefAt(line, w, n);
    assert SpanEnd(line, w + 1, Word) == w + |n| + 1;
    assert RefNamesFrom(line, w) == [n];
    DefinitionLostWhenReferenced(line, n);
  }

  /** The references recorded for the identifiers `names` found on line `i`. */
  function RefsAt(names: seq<string>, i: int): seq<Reference>
  {
    if names == [] then [] else RefsAt(names[..|names| - 1], i) + [Reference(names[|names| - 1], i, false)]
  }

  /** The references passFindRefs appends for a whole document. */
  function RefsOf(lines: seq<string>): seq<Reference>
  {
    if lines == [] then []
    else RefsOf(lines[..|lines| - 1]) + RefsAt(RefNames(lines[|lines| - 1]), |lines| - 1)
  }

  /** One unresolved reference per identifier, carrying the line index. */
  lemma {:induction false} RefsAtShape(names: seq<string>, i: int)
    ensures |RefsAt(names, i)| == |names|
    ensures forall k :: 0 <= k < |names| ==> RefsAt(names, i)[k] == Reference(names[k], i, false)
  {
    if names != [] {
      RefsAtShape(names[..|names| - 1], i);
    }
  }

  /** Every recorded reference is unresolved, points at a line of the document whose
      markers include its name, and references come in document order. */
  lemma {:induction false} RefsOfFacts(lines: seq<string>)
    ensures forall k :: 0 <= k < |RefsOf(lines)| ==>
      var r := RefsOf(lines)[k];
      !r.resolved && 0 <= r.line < |lines| && r.name in RefNames(lines[r.line])
    ensures forall a, b :: 0 <= a < b < |RefsOf(lines)| ==> RefsOf(lines)[a].line <= RefsOf(lines)[b].line
  {
    if lines != [] {
      var init, last := lines[..|lines| - 1], lines[|lines| - 1];
      RefsOfFacts(init);
      RefsAtShape(RefNames(last), |lines| - 1);
      var r0, ra := RefsOf(init), RefsAt(RefNames(last), |lines| - 1);
      assert RefsOf(lines) == r0 + ra;
      forall k | 0 <= k < |r0|
        ensures lines[r0[k].line] == init[r0[k].line]
      {
      }
    }
  }

  /** The references of a prefix of the document are a prefix of the document's:
      references found earlier are never altered by later lines. */
  lemma {:induction false} RefsOfPrefix(lines: seq<string>, i: nat)
    requires i <= |lines|
    ensures RefsOf(lines[..i]) <= RefsOf(lines)
    decreases |lines| - i
  {
    if i < |lines| {
      var init := lines[..|lines| - 1];
      assert lines[..i] == init[..i];
      RefsOfPrefix(init, i);
    } else {
      assert lines[..i] == lines;
    }
  }

  // ------------------------------------------------- passMkExterns, passMkHeads

  /** The target a reference-definition line introduces. */
  function DefinitionTarget(line: string): Option<Target>
  {
    match DefinitionName(line) {
      case Some(n) => Some(Target(n, line, ToLower(line)))
      case None => None
    }
  }

  /** The target a heading line introduces; `docHash` stands for the document digest. */
  function HeadingTarget(line: string, docHash: string): Option<Target>
  {
    match HeadingMatch(line) {
      case Some(h) => Some(Target(h.text + "-" + docHash, h.text, ToLower(h.text)))
      case None => None
    }
  }

  /** The targets a pass appends when each line introduces at most one, in document order. */
  function Gather(lines: seq<string>, introduces: string -> Option<Target>): seq<Target>
  {
    if lines == [] then []
    else
      var last := introduces(lines[|lines| - 1]);
      Gather(lines[..|lines| - 1], introduces) + (if last.Some? then [last.value] else [])
  }

  /** A target is gathered exactly when some line introduces it. */
  lemma {:induction false} GatherIff(lines: seq<string>, introduces: string -> Option<Target>, t: Target)
    ensures t in Gather(lines, introduces) <==> exists i :: 0 <= i < |lines| && introduces(lines[i]) == Some(t)
  {
    if lines != [] {
      var init := lines[..|lines| - 1];
      GatherIff(init, introduces, t);
      if exists i :: 0 <= i < |lines| && introduces(lines[i]) == Some(t) {
        var i :| 0 <= i < |lines| && introduces(lines[i]) == Some(t);
        if i < |init| {
          assert init[i] == lines[i];
        }
      }
      if t in Gather(init, introduces) {
        var i :| 0 <= i < |init| && introduces(init[i]) == Some(t);
        assert lines[i] == init[i];
      }
    }
  }

  /** Targets of earlier lines come first. */
  lemma {:induction false} GatherPrefix(lines: seq<string>, introduces: string -> Option<Target>, i: nat)
    requires i <= |lines|
    ensures Gather(lines[..i], introduces) <= Gather(lines, introduces)
    decreases |lines| - i
  {
    if i < |lines| {
      var init := lines[..|lines| - 1];
      assert lines[..i] == init[..i];
      GatherPrefix(init, introduces, i);
    } else {
      assert lines[..i] == lines;
    }
  }

  /** The targets passMkExterns appends. */
  function ExternTargets(lines: seq<string>): seq<Target>
  {
    Gather(lines, DefinitionTarget)
  }

  /** The targets passMkHeads appends. */
  function HeadTargets(lines: seq<string>, docHash: string): seq<Target>
  {
    Gather(lines, line => HeadingTarget(line, docHash))
  }

  /** A target is collected by passMkExterns exactly when some line of the document
      is a definition that introduces it (its identifier, the whole line, and the
      line in lower case). */
  lemma ExternTargetsIff(lines: seq<string>, t: Target)
    ensures t in ExternTargets(lines) <==>
      exists i :: 0 <= i < |lines| && DefinitionTarget(lines[i]) == Some(t)
  {
    GatherIff(lines, DefinitionTarget, t);
  }

  /** A target is collected by passMkHeads exactly when some heading line of the
      document introduces it (the heading text, that text with a dash and the
      document digest as its name, and the text in lower case). */
  lemma HeadTargetsIff(lines: seq<string>, docHash: string, t: Target)
    ensures t in HeadTargets(lines, docHash) <==>
      exists i :: 0 <= i < |lines| && HeadingTarget(lines[i], docHash) == Some(t)
  {
    GatherIff(lines, line => HeadingTarget(line, docHash), t);
  }

  /** Targets of earlier lines come first: the registry grows in document order. */
  lemma TargetsPrefix(lines: seq<string>, docHash: string, i: nat)
    requires i <= |lines|
    ensures ExternTargets(lines[..i]) <= ExternTargets(lines)
    ensures HeadTargets(lines[..i], docHash) <= HeadTargets(lines, docHash)
  {
    GatherPrefix(lines, DefinitionTarget, i);
    GatherPrefix(lines, line => HeadingTarget(line, docHash), i);
  }

  // --------------------------------------------------------------- output log

  /** What writing every line followed by a newline puts on the output. */
  function Emitted(lines: seq<string>): seq<string>
  {
    if lines == [] then [] else Emitted(lines[..|lines| - 1]) + [lines[|lines| - 1] + "\n"]
  }

  /** What passMkExterns writes: an anchor for every reference definition. */
  function ExternAnchors(lines: seq<string>): seq<string>
  {
    if lines == [] then []
    else ExternAnchors(lines[..|lines| - 1]) + ExternAnchorOf(lines[|lines| - 1])
  }

  /** The share of one line in the targets of passMkExterns. */
  function ExternTargetOf(line: string): seq<Target>
  {
    var t := DefinitionTarget(line);
    if t.Some? then [t.value] else []
  }

  /** The share of one line in the output of passMkExterns. */
  function ExternAnchorOf(line: string): seq<string>
  {
    var n := DefinitionName(line);
    if n.Some? then [Anchor(n.value) + "\n"] else []
  }

  /** One more line extends the targets and the output of passMkExterns by that line's share. */
  lemma ExternStep(lines: seq<string>, i: nat)
    requires i < |lines|
    ensures ExternTargets(lines[..i + 1]) == ExternTargets(lines[..i]) + ExternTargetOf(lines[i])
    ensures ExternAnchors(lines[..i + 1]) == ExternAnchors(lines[..i]) + ExternAnchorOf(lines[i])
  {
    assert lines[..i + 1][..i] == lines[..i];
  }

  /** What passMkHeads writes for one line: the line, preceded by an anchor when it is a heading. */
  function HeadLines(line: string, docHash: string): seq<string>
  {
    match HeadingTarget(line, docHash) {
      case Some(t) => [Anchor(t.name) + "\n", line + "\n"]
      case None => [line + "\n"]
    }
  }

  /** What passMkHeads writes for a whole document. */
  function HeadLog(lines: seq<string>, docHash: string): seq<string>
  {
    if lines == [] then []
    else HeadLog(lines[..|lines| - 1], docHash) + HeadLines(lines[|lines| - 1], docHash)
  }

  /** The share of one line in the targets of passMkHeads. */
  function HeadTargetOf(line: string, docHash: string): seq<Target>
  {
    var h := HeadingMatch(line);
    if h.Some? then [Target(h.value.text + "-" + docHash, h.value.text, ToLower(h.value.text))] else []
  }

  /** The share of one line in the output of passMkHeads. */
  function HeadAnchorOf(line: string, docHash: string): seq<string>
  {
    var h := HeadingMatch(line);
    if h.Some? then [Anchor(h.value.text + "-" + docHash) + "\n"] else []
  }

  /** One more line extends the targets and the output of passMkHeads by that line's share. */
  lemma HeadStep(lines: seq<string>, i: nat, docHash: string)
    requires i < |lines|
    ensures HeadTargets(lines[..i + 1], docHash) == HeadTargets(lines[..i], docHash) + HeadTargetOf(lines[i], docHash)
    ensures HeadLog(lines[..i + 1], docHash) ==
      HeadLog(lines[..i], docHash) + (HeadAnchorOf(lines[i], docHash) + [lines[i] + "\n"])
  {
    assert lines[..i + 1][..i] == lines[..i];
  }

  /** The same step behind whatever targets and output came before. */
  lemma HeadStepAfter(targets: seq<Target>, output: seq<string>, lines: seq<string>, i: nat, docHash: string)
    requires i < |lines|
    ensures targets + HeadTargets(lines[..i + 1], docHash) ==
      (targets + HeadTargets(lines[..i], docHash)) + HeadTargetOf(lines[i], docHash)
    ensures output + HeadLog(lines[..i + 1], docHash) ==
      (output + HeadLog(lines[..i], docHash)) + (HeadAnchorOf(lines[i], docHash) + [lines[i] + "\n"])
  {
    HeadStep(lines, i, docHash);
    AppendAssoc(targets, HeadTargets(lines[..i], docHash), HeadTargetOf(lines[i], docHash));
    AppendAssoc(output, HeadLog(lines[..i], docHash), HeadAnchorOf(lines[i], docHash) + [lines[i] + "\n"]);
  }

  lemma AppendAssoc<T>(a: seq<T>, b: seq<T>, c: seq<T>)
    ensures a + (b + c) == (a + b) + c
  {
  }

  /** The bytes passMkHeads feeds to the digest: the lines with no separator. */
  function Concat(lines: seq<string>): string
  {
    if lines == [] then "" else Concat(lines[..|lines| - 1]) + lines[|lines| - 1]
  }
}
