/**
 * The section-number helpers of main_test.go: a vector of five counters, one per
 * heading level, advanced by every heading line, and the search for the first line
 * that mentions a section number. The function that turns a level, an index and a
 * parent number into a section-number string is not shown in the source, so it is a
 * parameter (`Numberer`) here.
 */
module SectionNumbering {
  import opened Text
  import opened Patterns

  /** The number of counter slots, and so the deepest heading level supported. */
  const Slots := 5

  /** generateSectionNumber(level, index, parent), whose body is not available. */
  type Numberer = (int, int, string) -> string

  /** Every heading of the document has at most `Slots` leading `#`; a deeper one
      indexes the counter vector out of range. */
  predicate Shallow(lines: seq<string>)
  {
    forall i :: 0 <= i < |lines| ==> Level(lines[i]) <= Slots
  }

  /** A heading line has a level of at least one. */
  lemma LevelOfHeading(s: string)
    ensures HeadingMatch(s).Some? <==> Level(s) > 0
    ensures HeadingMatch(s).Some? ==> Level(s) == HeadingMatch(s).value.level
  {
    HeadingMatchShape(s);
  }

  /** The counter vector after a heading of the given level: that level's slot goes
      up by one, every deeper slot is cleared and every shallower slot is kept. */
  function Advance(c: seq<int>, level: nat): (d: seq<int>)
    requires |c| == Slots && 1 <= level <= Slots
    ensures |d| == Slots
    ensures d[level - 1] == c[level - 1] + 1
    ensures forall i :: level <= i < Slots ==> d[i] == 0
    ensures forall i :: 0 <= i < level - 1 ==> d[i] == c[i]
  {
    c[..level - 1] + [c[level - 1] + 1] + seq(Slots - level, _ => 0)
  }

  /** The counter vector after a prefix of the document, starting from all zeros. */
  function Counters(lines: seq<string>): (c: seq<int>)
    requires Shallow(lines)
    ensures |c| == Slots
  {
    if lines == [] then seq(Slots, _ => 0)
    else
      var c := Counters(lines[..|lines| - 1]);
      var level := Level(lines[|lines| - 1]);
      if level == 0 then c else Advance(c, level)
  }

  /** The parent number handed to the numberer: the counter one level up, and
      nothing for a top-level heading. */
  function Parent(c: seq<int>, level: nat): (r: string)
    requires |c| == Slots && 1 <= level <= Slots
    ensures r == "" <==> level == 1
  {
    if level > 1 then Itoa(c[level - 2]) else ""
  }

  /** The number generated for a heading of the given level once the counters
      have been advanced past it. */
  function Number(c: seq<int>, level: nat, gen: Numberer): string
    requires |c| == Slots && 1 <= level <= Slots
  {
    gen(level, c[level - 1] - 1, Parent(c, level))
  }

  /** The numbers generateExpectedSectionNumbers returns for a document. */
  function Expected(lines: seq<string>, gen: Numberer): seq<string>
    requires Shallow(lines)
  {
    if lines == [] then []
    else
      var level := Level(lines[|lines| - 1]);
      Expected(lines[..|lines| - 1], gen) + (if level == 0 then [] else [Number(Counters(lines), level, gen)])
  }

  /** One more line advances the counters by that line's heading, if it is one. */
  lemma CountersStep(lines: seq<string>, n: nat)
    requires n < |lines| && Shallow(lines)
    ensures Counters(lines[..n + 1]) ==
      if Level(lines[n]) == 0 then Counters(lines[..n]) else Advance(Counters(lines[..n]), Level(lines[n]))
  {
    assert lines[..n + 1][..n] == lines[..n];
  }

  /** One more line extends the numbers by that line's share. */
  lemma ExpectedStep(lines: seq<string>, n: nat, gen: Numberer)
    requires n < |lines| && Shallow(lines)
    ensures Expected(lines[..n + 1], gen) ==
      Expected(lines[..n], gen) + (if Level(lines[n]) == 0 then [] else [Number(Counters(lines[..n + 1]), Level(lines[n]), gen)])
  {
    assert lines[..n + 1][..n] == lines[..n];
  }

  /** The in-place update of the counter array for a heading of the given level:
      increment its slot, then clear every deeper one. */
  method Bump(sectionNumbers: array<int>, level: nat)
    requires sectionNumbers.Length == Slots && 1 <= level <= Slots
    modifies sectionNumbers
    ensures sectionNumbers[..] == Advance(old(sectionNumbers[..]), level)
  {
    sectionNumbers[level - 1] := sectionNumbers[level - 1] + 1;
    for i := level to Slots
      invariant forall k :: 0 <= k < Slots ==> (
        sectionNumbers[k] ==
          if k < level - 1 then old(sectionNumbers[k])
          else if k == level - 1 then old(sectionNumbers[k]) + 1
          else if k < i then 0
          else old(sectionNumbers[k]))
    {
      sectionNumbers[i] := 0;
    }
  }

  /** The body of generateExpectedSectionNumbers' loop for one line: a heading
      advances the counters in place and yields its number; any other line changes
      nothing and yields none. */
  method NumberLine(sectionNumbers: array<int>, line: string, gen: Numberer) returns (number: seq<string>)
    requires sectionNumbers.Length == Slots && Level(line) <= Slots
    modifies sectionNumbers
    ensures Level(line) == 0 ==> sectionNumbers[..] == old(sectionNumbers[..]) && number == []
    ensures Level(line) > 0 ==> sectionNumbers[..] == Advance(old(sectionNumbers[..]), Level(line))
    ensures Level(line) > 0 ==> number == [Number(sectionNumbers[..], Level(line), gen)]
  {
    LevelOfHeading(line);
    number := [];
    var headerMatch := HeadingMatch(line);
    if headerMatch.Some? {
      var level := headerMatch.value.level;
      Bump(sectionNumbers, level);
      var parentNumber := "";
      if level > 1 {
        parentNumber := Itoa(sectionNumbers[level - 2]);
      }
      var sectionNumber := gen(level, sectionNumbers[level - 1] - 1, parentNumber);
      number := [sectionNumber];
    }
  }

  /** generateExpectedSectionNumbers: walks the document with the counter vector held
      in a five-slot array, and appends one number per heading line. */
  method GenerateExpectedSectionNumbers(lines: seq<string>, gen: Numberer) returns (numbers: seq<string>)
    requires Shallow(lines)
    ensures numbers == Expected(lines, gen)
  {
    var sectionNumbers := new int[Slots](_ => 0);
    numbers := [];
    for n := 0 to |lines|
      invariant sectionNumbers[..] == Counters(lines[..n])
      invariant numbers == Expected(lines[..n], gen)
    {
      CountersStep(lines, n);
      ExpectedStep(lines, n, gen);
      var number := NumberLine(sectionNumbers, lines[n], gen);
      numbers := numbers + number;
    }
    assert lines[..|lines|] == lines;
  }

  /** The indices of the heading lines, in document order. */
  function Headings(lines: seq<string>): seq<nat>
  {
    if lines == [] then []
    else Headings(lines[..|lines| - 1]) + (if Level(lines[|lines| - 1]) == 0 then [] else [|lines| - 1])
  }

  /** The heading indices are exactly the lines with a level, in increasing order. */
  lemma {:induction false} HeadingsIff(lines: seq<string>)
    ensures forall i :: i in Headings(lines) <==> 0 <= i < |lines| && Level(lines[i]) > 0
    ensures forall a, b :: 0 <= a < b < |Headings(lines)| ==> Headings(lines)[a] < Headings(lines)[b]
  {
    if lines != [] {
      var init := lines[..|lines| - 1];
      HeadingsIff(init);
      var hs := Headings(init);
      assert forall i :: 0 <= i < |init| ==> init[i] == lines[i];
      assert forall a :: 0 <= a < |hs| ==> hs[a] < |init| by {
        forall a | 0 <= a < |hs|
          ensures hs[a] < |init|
        {
          assert hs[a] in hs;
        }
      }
    }
  }

  /** The number of the heading at index `h`, from the counters just after it. */
  function NumberAt(lines: seq<string>, h: nat, gen: Numberer): string
    requires Shallow(lines) && h < |lines| && Level(lines[h]) > 0
  {
    Number(Counters(lines[..h + 1]), Level(lines[h]), gen)
  }

  /** A heading's number depends only on the lines up to it. */
  lemma NumberAtPrefix(lines: seq<string>, m: nat, h: nat, gen: Numberer)
    requires Shallow(lines) && h < m <= |lines| && Level(lines[..m][h]) > 0
    ensures Level(lines[h]) > 0 && NumberAt(lines[..m], h, gen) == NumberAt(lines, h, gen)
  {
    var prefix := lines[..m];
    assert prefix[h] == lines[h];
    assert prefix[..h + 1] == lines[..h + 1];
  }

  /** One number per heading line. */
  lemma {:induction false} ExpectedCount(lines: seq<string>, gen: Numberer)
    requires Shallow(lines)
    ensures |Expected(lines, gen)| == |Headings(lines)|
  {
    if lines != [] {
      ExpectedCount(lines[..|lines| - 1], gen);
    }
  }

  /** The numbers come in document order: the k-th number is the one generated from
      the counters just after the k-th heading line. */
  lemma {:induction false} ExpectedPerHeading(lines: seq<string>, gen: Numberer)
    requires Shallow(lines)
    ensures |Expected(lines, gen)| == |Headings(lines)|
    ensures forall k :: 0 <= k < |Headings(lines)| ==>
      Headings(lines)[k] < |lines| && Level(lines[Headings(lines)[k]]) > 0 &&
      Expected(lines, gen)[k] == NumberAt(lines, Headings(lines)[k], gen)
  {
    ExpectedCount(lines, gen);
    if lines != [] {
      var n := |lines| - 1;
      var init := lines[..n];
      ExpectedPerHeading(init, gen);
      var es, hs := Expected(init, gen), Headings(init);
      var last := if Level(lines[n]) == 0 then [] else [n];
      assert Headings(lines) == hs + last;
      assert Expected(lines, gen) == es + (if Level(lines[n]) == 0 then [] else [Number(Counters(lines), Level(lines[n]), gen)]);
      forall k | 0 <= k < |Headings(lines)|
        ensures Headings(lines)[k] < |lines| && Level(lines[Headings(lines)[k]]) > 0 &&
          Expected(lines, gen)[k] == NumberAt(lines, Headings(lines)[k], gen)
      {
        if k < |hs| {
          assert Headings(lines)[k] == hs[k] && Expected(lines, gen)[k] == es[k];
          NumberAtPrefix(lines, n, hs[k], gen);
        } else {
          assert lines[..n + 1] == lines;
        }
      }
    }
  }

  /** No counter is ever negative. */
  lemma {:induction false} CountersNonNegative(lines: seq<string>)
    requires Shallow(lines)
    ensures forall i :: 0 <= i < Slots ==> Counters(lines)[i] >= 0
  {
    if lines != [] {
      CountersNonNegative(lines[..|lines| - 1]);
    }
  }

  /** `a` comes strictly before `b` in lexicographic order. */
  predicate LexLess(a: seq<int>, b: seq<int>)
  {
    |a| == |b| && exists k :: 0 <= k < |a| && a[..k] == b[..k] && a[k] < b[k]
  }

  lemma LexLessTrans(a: seq<int>, b: seq<int>, c: seq<int>)
    requires LexLess(a, b) && LexLess(b, c)
    ensures LexLess(a, c)
  {
    var i :| 0 <= i < |a| && a[..i] == b[..i] && a[i] < b[i];
    var j :| 0 <= j < |b| && b[..j] == c[..j] && b[j] < c[j];
    var k := if i < j then i else j;
    assert a[..k] == a[..i][..k] && b[..k] == b[..j][..k] && c[..k] == c[..j][..k];
    assert a[k] < c[k] by {
      if i < j {
        assert b[..j][i] == c[..j][i];
      } else if j < i {
        assert a[..i][j] == b[..i][j];
      }
    }
  }

  /** A heading moves the counter vector strictly forward. */
  lemma AdvanceGrows(c: seq<int>, level: nat)
    requires |c| == Slots && 1 <= level <= Slots
    ensures LexLess(c, Advance(c, level))
  {
    var d := Advance(c, level);
    assert c[..level - 1] == d[..level - 1];
  }

  /** The counter vector never moves backwards along the document. */
  lemma {:induction false} CountersMonotone(lines: seq<string>, i: nat, j: nat)
    requires Shallow(lines) && i <= j <= |lines|
    ensures Counters(lines[..i]) == Counters(lines[..j]) || LexLess(Counters(lines[..i]), Counters(lines[..j]))
  {
    if i < j {
      CountersMonotone(lines, i, j - 1);
      CountersStep(lines, j - 1);
      var a, b, c := Counters(lines[..i]), Counters(lines[..j - 1]), Counters(lines[..j]);
      var level := Level(lines[j - 1]);
      if level > 0 {
        AdvanceGrows(b, level);
        if a != b {
          LexLessTrans(a, b, c);
        }
      }
    }
  }

  /** The counters just after any heading come strictly after those at every earlier
      line, so no two headings are numbered from the same counter vector. */
  lemma HeadingsStrictlyOrdered(lines: seq<string>, h1: nat, h2: nat)
    requires Shallow(lines) && h1 < h2 < |lines| && Level(lines[h2]) > 0
    ensures LexLess(Counters(lines[..h1 + 1]), Counters(lines[..h2 + 1]))
  {
    CountersMonotone(lines, h1 + 1, h2);
    CountersStep(lines, h2);
    var a, b, c := Counters(lines[..h1 + 1]), Counters(lines[..h2]), Counters(lines[..h2 + 1]);
    AdvanceGrows(b, Level(lines[h2]));
    if a != b {
      LexLessTrans(a, b, c);
    }
  }

  /** findSection: the first line containing the section number, or -1. */
  method FindSection(lines: seq<string>, sectionNumber: string) returns (idx: int)
    ensures idx == -1 <==> forall i :: 0 <= i < |lines| ==> !Contains(lines[i], sectionNumber)
    ensures idx != -1 ==> 0 <= idx < |lines| && Contains(lines[idx], sectionNumber)
    ensures idx != -1 ==> forall i :: 0 <= i < idx ==> !Contains(lines[i], sectionNumber)
  {
    for i := 0 to |lines|
      invariant forall k :: 0 <= k < i ==> !Contains(lines[k], sectionNumber)
    {
      if Contains(lines[i], sectionNumber) {
        return i;
      }
    }
    return -1;
  }
}
