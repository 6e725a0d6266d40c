/**
 * The five passes of main.go over the document's lines. The references and targets
 * that `main` hands to the passes by pointer, and the buffered standard-output
 * writer, are the fields of one `Preprocessor` object that the passes update.
 */
module Passes {
  import opened Wrappers
  import opened Text
  import opened Patterns
  import opened Registry
  import opened Resolution

  /** Some target carries the name `n` exactly (case-sensitive). */
  predicate HasTarget(ts: seq<Target>, n: string)
  {
    exists k :: 0 <= k < |ts| && ts[k].name == n
  }

  /** The references after passLinkExterns: each keeps its name and line, and is
      resolved when it already was or when some target carries its name. */
  function Linked(refs: seq<Reference>, targets: seq<Target>): (r: seq<Reference>)
    ensures |r| == |refs|
    ensures forall i :: 0 <= i < |refs| ==>
      r[i].name == refs[i].name && r[i].line == refs[i].line &&
      (r[i].resolved <==> refs[i].resolved || HasTarget(targets, refs[i].name))
  {
    seq(|refs|, i requires 0 <= i < |refs| => refs[i].(resolved := refs[i].resolved || HasTarget(targets, refs[i].name)))
  }

  /** What passFindRefs returns for a whole document. */
  function RewriteLines(lines: seq<string>): seq<string>
  {
    seq(|lines|, i requires 0 <= i < |lines| => RewriteLine(lines[i]))
  }

  /** The loop of passMkHeads that feeds every line to the digest, with no separator. */
  method Digested(lines: seq<string>) returns (hashed: string)
    ensures hashed == Concat(lines)
  {
    hashed := "";
    var i := 0;
    while i < |lines|
      invariant 0 <= i <= |lines|
      invariant hashed == Concat(lines[..i])
    {
      assert lines[..i + 1][..i] == lines[..i];
      hashed := hashed + lines[i];
      i := i + 1;
    }
    assert lines[..i] == lines;
  }

  class Preprocessor {
    /** `references`, grown by passFindRefs and updated by passLinkExterns. */
    var references: seq<Reference>
    /** `targets`, grown by passMkExterns and passMkHeads. */
    var targets: seq<Target>
    /** Every string written to the buffered standard output, in order. */
    var output: seq<string>

    constructor ()
      ensures references == [] && targets == [] && output == []
    {
      references, targets, output := [], [], [];
    }

    /** The body of passFindRefs' loop for line `i`: every marker is rewritten to a
        link and recorded as an unresolved reference, in the order they appear. */
    method FindRefs(line: string, i: nat) returns (newLine: string)
      modifies this`references
      ensures newLine == RewriteLine(line)
      ensures references == old(references) + RefsAt(RefNames(line), i)
    {
      var refMatch := RefNames(line);
      newLine := line;
      var j := 0;
      while j < |refMatch|
        invariant 0 <= j <= |refMatch|
        invariant newLine == RewriteAll(line, refMatch[..j])
        invariant references == old(references) + RefsAt(refMatch[..j], i)
      {
        var ref := refMatch[j];
        assert refMatch[..j + 1][..j] == refMatch[..j];
        references := references + [Reference(ref, i, false)];
        newLine := ReplaceAll(newLine, Marker(ref), Link(ref));
        j := j + 1;
      }
      assert refMatch[..j] == refMatch;
    }

    /** passFindRefs: rewrites every `[word]` marker to a link and records one
        unresolved reference per marker, with its line index. */
    method PassFindRefs(lines: seq<string>) returns (newLines: seq<string>)
      modifies this`references, this`output
      ensures |newLines| == |lines|
      ensures forall i :: 0 <= i < |lines| ==> newLines[i] == RewriteLine(lines[i])
      ensures references == old(references) + RefsOf(lines)
      ensures output == old(output) + Emitted(newLines)
    {
      newLines := [];
      var i := 0;
      while i < |lines|
        invariant 0 <= i <= |lines|
        invariant |newLines| == i
        invariant forall k :: 0 <= k < i ==> newLines[k] == RewriteLine(lines[k])
        invariant references == old(references) + RefsOf(lines[..i])
        invariant output == old(output) + Emitted(newLines)
      {
        var line := FindRefs(lines[i], i);
        assert lines[..i + 1][..i] == lines[..i];
        assert RefsOf(lines[..i + 1]) == RefsOf(lines[..i]) + RefsAt(RefNames(lines[i]), i);
        AppendAssoc(old(references), RefsOf(lines[..i]), RefsAt(RefNames(lines[i]), i));
        assert (newLines + [line])[..i] == newLines;
        newLines := newLines + [line];
        output := output + [line + "\n"];
        i := i + 1;
      }
      assert lines[..i] == lines;
    }

    /** passMkExterns: records a target for every reference-definition line and
        writes its anchor; the lines themselves are returned unchanged. */
    method PassMkExterns(lines: seq<string>) returns (newLines: seq<string>)
      modifies this`targets, this`output
      ensures newLines == lines
      ensures targets == old(targets) + ExternTargets(lines)
      ensures output == old(output) + ExternAnchors(lines)
    {
      newLines := [];
      var i := 0;
      while i < |lines|
        invariant 0 <= i <= |lines|
        invariant newLines == lines[..i]
        invariant targets == old(targets) + ExternTargets(lines[..i])
        invariant output == old(output) + ExternAnchors(lines[..i])
      {
        var line := lines[i];
        ExternStep(lines, i);
        AppendAssoc(old(targets), ExternTargets(lines[..i]), ExternTargetOf(line));
        AppendAssoc(old(output), ExternAnchors(lines[..i]), ExternAnchorOf(line));
        MkExtern(line);
        newLines := newLines + [line];
        i := i + 1;
      }
      assert lines[..i] == lines;
    }

    /** The body of passMkExterns' loop for one line: a reference definition gets a
        target carrying its identifier and the line, and its anchor is written. */
    method MkExtern(line: string)
      modifies this`targets, this`output
      ensures targets == old(targets) + ExternTargetOf(line)
      ensures output == old(output) + ExternAnchorOf(line)
    {
      match DefinitionName(line) {
        case Some(ref) =>
          targets := targets + [Target(ref, line, ToLower(line))];
          output := output + [Anchor(ref) + "\n"];
        case None =>
      }
    }

    /** The body of passMkHeads' second loop for one line: a heading gets a target
        named after its text and the digest, and its anchor is written before it. */
    method MkHead(line: string, docHash: string)
      modifies this`targets, this`output
      ensures targets == old(targets) + HeadTargetOf(line, docHash)
      ensures output == old(output) + (HeadAnchorOf(line, docHash) + [line + "\n"])
    {
      var headerMatch := HeadingMatch(line);
      if headerMatch.Some? {
        var headerName := headerMatch.value.text;
        var headerLink := headerName + "-" + docHash;
        targets := targets + [Target(headerLink, headerName, ToLower(headerName))];
        output := output + [Anchor(headerLink) + "\n"];
      }
      AppendAssoc(old(output), HeadAnchorOf(line, docHash), [line + "\n"]);
      output := output + [line + "\n"];
    }

    /** passMkHeads: digests the document, then records a target for every heading
        line (named after its text and the digest) and writes every line, each
        heading preceded by its anchor; the lines are returned unchanged. */
    method PassMkHeads(lines: seq<string>, digest: string -> string) returns (newLines: seq<string>)
      modifies this`targets, this`output
      ensures newLines == lines
      ensures targets == old(targets) + HeadTargets(lines, digest(Concat(lines)))
      ensures output == old(output) + HeadLog(lines, digest(Concat(lines)))
    {
      var hashed := Digested(lines);
      var docHash := digest(hashed);
      newLines := MkHeads(lines, docHash);
    }

    /** passMkHeads' second loop, once the document digest is known. */
    method MkHeads(lines: seq<string>, docHash: string) returns (newLines: seq<string>)
      modifies this`targets, this`output
      ensures newLines == lines
      ensures targets == old(targets) + HeadTargets(lines, docHash)
      ensures output == old(output) + HeadLog(lines, docHash)
    {
      newLines := [];
      var i := 0;
      while i < |lines|
        invariant 0 <= i <= |lines|
        invariant newLines == lines[..i]
        invariant targets == old(targets) + HeadTargets(lines[..i], docHash)
        invariant output == old(output) + HeadLog(lines[..i], docHash)
      {
        var line := lines[i];
        HeadStepAfter(old(targets), old(output), lines, i, docHash);
        MkHead(line, docHash);
        newLines := newLines + [line];
        i := i + 1;
      }
      assert lines[..i] == lines;
    }

    /** passLinkExterns: marks a reference resolved when some target carries exactly
        its name; nothing else about the references, targets or lines changes. */
    method PassLinkExterns(lines: seq<string>) returns (newLines: seq<string>)
      modifies this`references
      ensures newLines == lines
      ensures references == Linked(old(references), targets)
    {
      var i := 0;
      while i < |references|
        invariant 0 <= i <= |references|
        invariant |references| == |old(references)|
        invariant forall k :: 0 <= k < i ==>
          references[k].name == old(references[k].name) && references[k].line == old(references[k].line) &&
          (references[k].resolved <==> old(references[k].resolved) || HasTarget(targets, references[k].name))
        invariant forall k :: i <= k < |references| ==> references[k] == old(references[k])
      {
        var ref := references[i];
        ghost var before := references;
        var j := 0;
        while j < |targets|
          invariant 0 <= j <= |targets|
          invariant references == before
          invariant forall m :: 0 <= m < j ==> targets[m].name != ref.name
        {
          if ref.name == targets[j].name {
            references := references[i := references[i].(resolved := true)];
            break;
          }
          j := j + 1;
        }
        i := i + 1;
      }
      newLines := lines;
    }

    /** passLinkHeads: for every unresolved reference, queries the matcher with the
        lower-cased name against the lower-cased headings, keeps the insertions-only
        results and decides on their number; warns on none or several. The lines,
        references and targets are left as they are. */
    method PassLinkHeads(lines: seq<string>, fuzzy: Matcher)
      returns (newLines: seq<string>, outcomes: seq<Outcome>, warnings: seq<string>)
      ensures newLines == lines
      ensures |outcomes| == |Unresolved(references)|
      ensures forall j :: 0 <= j < |outcomes| ==>
        Explains(outcomes[j], Unresolved(references)[j], LoweredTargets(targets), fuzzy)
      ensures warnings == Warnings(outcomes)
    {
      var loweredTargets := LowerTargets(targets);
      newLines := lines;
      outcomes, warnings := LinkAll(references, loweredTargets, fuzzy);
    }
  }

  /** The map from lower-cased heading to target name that passLinkHeads builds
      first; a later target overwrites an earlier one with the same heading. */
  method LowerTargets(targets: seq<Target>) returns (lowered: map<string, string>)
    ensures lowered == LoweredTargets(targets)
  {
    lowered := map[];
    var t := 0;
    while t < |targets|
      invariant 0 <= t <= |targets|
      invariant lowered == LoweredTargets(targets[..t])
    {
      assert targets[..t + 1][..t] == targets[..t];
      lowered := lowered[targets[t].headingLower := targets[t].name];
      t := t + 1;
    }
    assert targets[..t] == targets;
  }

  /** The filter over the matcher's results: the originals of the insertions-only
      results, in the matcher's order. */
  method FilterInsertionOnly(matches: seq<FuzzyMatch>) returns (insertionOnly: seq<string>)
    ensures insertionOnly == InsertionOnly(matches)
  {
    insertionOnly := [];
    var m := 0;
    while m < |matches|
      invariant 0 <= m <= |matches|
      invariant insertionOnly == InsertionOnly(matches[..m])
    {
      assert matches[..m + 1][..m] == matches[..m];
      if matches[m].insertions > 0 && matches[m].substitutions == 0 && matches[m].deletions == 0 {
        insertionOnly := insertionOnly + [matches[m].original];
      }
      m := m + 1;
    }
    assert matches[..m] == matches;
  }

  /** The body of passLinkHeads' loop for one unresolved reference: the matcher is
      queried with the lower-cased name against the map's keys in some order, and
      the number of insertions-only results decides the outcome and the warning. */
  method LinkReference(ref: Reference, loweredTargets: map<string, string>, fuzzy: Matcher)
    returns (outcome: Outcome, warning: seq<string>)
    ensures Explains(outcome, ref, loweredTargets, fuzzy)
    ensures outcome.ref == ref.name
    ensures warning == Warning(outcome)
  {
    var ks := Keys(loweredTargets);
    var matches := fuzzy(ToLower(ref.name), ks);
    var insertionOnly := FilterInsertionOnly(matches);
    if |insertionOnly| == 0 {
      outcome := NoMatches(ref.name);
      warning := ["Warning: No matches for unresolved reference [" + ref.name + "]\n"];
    } else if |insertionOnly| == 1 {
      var resolvedName := if insertionOnly[0] in loweredTargets then loweredTargets[insertionOnly[0]] else "";
      outcome := SingleMatch(ref.name, insertionOnly[0], resolvedName);
      warning := [];
    } else {
      outcome := MultipleMatches(ref.name, insertionOnly);
      warning := ["Warning: Multiple matches for unresolved reference [" + ref.name + "]\n"];
    }
    assert IsKeyOrder(ks, loweredTargets) && outcome == Decide(ref.name, InsertionOnly(matches), loweredTargets);
  }

  /** passLinkHeads' loop over the references: every unresolved one, in order,
      yields one outcome and its warnings. */
  method LinkAll(references: seq<Reference>, loweredTargets: map<string, string>, fuzzy: Matcher)
    returns (outcomes: seq<Outcome>, warnings: seq<string>)
    ensures |outcomes| == |Unresolved(references)|
    ensures forall j :: 0 <= j < |outcomes| ==>
      Explains(outcomes[j], Unresolved(references)[j], loweredTargets, fuzzy)
    ensures warnings == Warnings(outcomes)
  {
    outcomes, warnings := [], [];
    var r := 0;
    while r < |references|
      invariant 0 <= r <= |references|
      invariant |outcomes| == |Unresolved(references[..r])|
      invariant forall j :: 0 <= j < |outcomes| ==>
        Explains(outcomes[j], Unresolved(references[..r])[j], loweredTargets, fuzzy)
      invariant warnings == Warnings(outcomes)
    {
      ghost var before := Unresolved(references[..r]);
      assert references[..r + 1][..r] == references[..r];
      if !references[r].resolved {
        assert Unresolved(references[..r + 1]) == before + [references[r]];
        var outcome, warning := LinkReference(references[r], loweredTargets, fuzzy);
        outcomes := outcomes + [outcome];
        warnings := warnings + warning;
      } else {
        assert Unresolved(references[..r + 1]) == before;
      }
      r := r + 1;
    }
    assert references[..r] == references;
  }

  /** A definition line without reference markers of its own comes through
      passFindRefs unchanged, so passMkExterns collects a target with its identifier. */
  lemma DefinitionSurvives(input: seq<string>, j: nat)
    requires j < |input| && DefinitionName(input[j]).Some? && RefNames(input[j]) == []
    ensures HasTarget(ExternTargets(RewriteLines(input)), DefinitionName(input[j]).value)
  {
    var lines := RewriteLines(input);
    assert lines[j] == input[j];
    var t := DefinitionTarget(lines[j]).value;
    ExternTargetsIff(lines, t);
    var k :| 0 <= k < |ExternTargets(lines)| && ExternTargets(lines)[k] == t;
  }

  /** Round trip of the document: a reference whose identifier is defined on a line
      of its own without markers ends up resolved, whatever the headings add. */
  lemma DefinedReferencesResolve(input: seq<string>, docHash: string)
    ensures var lines := RewriteLines(input);
      var refs := Linked(RefsOf(input), ExternTargets(lines) + HeadTargets(lines, docHash));
      forall i, j :: 0 <= i < |refs| && 0 <= j < |input| &&
        DefinitionName(input[j]) == Some(refs[i].name) && RefNames(input[j]) == []
        ==> refs[i].resolved
  {
    var lines := RewriteLines(input);
    var externs := ExternTargets(lines);
    var targets := externs + HeadTargets(lines, docHash);
    var refs := Linked(RefsOf(input), targets);
    forall i, j | 0 <= i < |refs| && 0 <= j < |input| &&
      DefinitionName(input[j]) == Some(refs[i].name) && RefNames(input[j]) == []
      ensures refs[i].resolved
    {
      DefinitionSurvives(input, j);
      var k :| 0 <= k < |externs| && externs[k].name == refs[i].name;
      assert targets[k] == externs[k];
    }
  }

  /** The passes in the order `main` runs them, with reading standard input and the
      final write left to the caller: the lines `main` writes last, the warnings,
      and the object holding the references, targets and everything written. */
  method Process(input: seq<string>, digest: string -> string, fuzzy: Matcher)
    returns (p: Preprocessor, lines: seq<string>, outcomes: seq<Outcome>, warnings: seq<string>)
    ensures lines == RewriteLines(input)
    ensures p.targets == ExternTargets(lines) + HeadTargets(lines, digest(Concat(lines)))
    ensures p.output == Emitted(lines) + ExternAnchors(lines) + HeadLog(lines, digest(Concat(lines))) + Emitted(lines)
    ensures p.references == Linked(RefsOf(input), p.targets)
    ensures |outcomes| == |Unresolved(p.references)|
    ensures forall j :: 0 <= j < |outcomes| ==>
      Explains(outcomes[j], Unresolved(p.references)[j], LoweredTargets(p.targets), fuzzy)
    ensures warnings == Warnings(outcomes)
  {
    p := new Preprocessor();
    var found := p.PassFindRefs(input);
    ghost var refs, out0 := p.references, p.output;
    assert found == RewriteLines(input) && refs == RefsOf(input) && out0 == Emitted(found);
    var externed := p.PassMkExterns(found);
    ghost var externs, out1 := p.targets, p.output;
    assert externs == ExternTargets(found) && out1 == out0 + ExternAnchors(found);
    ghost var docHash := digest(Concat(found));
    var headed := p.PassMkHeads(externed, digest);
    ghost var targets, out2 := p.targets, p.output;
    assert targets == externs + HeadTargets(found, docHash) && out2 == out1 + HeadLog(found, docHash);
    var linked := p.PassLinkExterns(headed);
    assert p.references == Linked(refs, targets);
    lines, outcomes, warnings := p.PassLinkHeads(linked, fuzzy);
    p.output := p.output + Emitted(lines);
  }
}
