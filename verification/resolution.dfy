/**
 * The heading-resolution policy of passLinkHeads: the map from lower-cased heading
 * to target name, `keys` over it, the insertions-only filter over the fuzzy
 * matcher's results, and the three-way decision on their number.
 */
module Resolution {
  import opened Wrappers
  import opened Text
  import opened Registry

  /** The fields of a fuzzy-matcher result that passLinkHeads reads. */
  datatype FuzzyMatch = FuzzyMatch(original: string, insertions: int, deletions: int, substitutions: int)

  /** The matcher, seen as a function from a query and candidate strings to results. */
  type Matcher = (string, seq<string>) -> seq<FuzzyMatch>

  /** The acceptance rule: characters were only inserted, at least one of them. */
  predicate InsertionsOnly(m: FuzzyMatch)
  {
    m.insertions > 0 && m.substitutions == 0 && m.deletions == 0
  }

  /** The `insertionOnly` slice built from the matcher's results, in their order. */
  function InsertionOnly(ms: seq<FuzzyMatch>): seq<string>
  {
    if ms == [] then []
    else
      var m := ms[|ms| - 1];
      InsertionOnly(ms[..|ms| - 1]) + (if InsertionsOnly(m) then [m.original] else [])
  }

  /** A string is kept exactly when it is the original of some insertions-only result. */
  lemma {:induction false} InsertionOnlyIff(ms: seq<FuzzyMatch>, x: string)
    ensures x in InsertionOnly(ms) <==> exists m :: m in ms && InsertionsOnly(m) && m.original == x
  {
    if ms != [] {
      var init := ms[..|ms| - 1];
      InsertionOnlyIff(init, x);
      if exists m :: m in ms && InsertionsOnly(m) && m.original == x {
        var m :| m in ms && InsertionsOnly(m) && m.original == x;
        if m != ms[|ms| - 1] {
          assert m in init by {
            var j :| 0 <= j < |ms| && ms[j] == m;
            assert init[j] == m;
          }
        }
      }
    }
  }

  /** `loweredTargets`: each target's lower-cased heading mapped to its name; a later
      target overwrites an earlier one with the same lower-cased heading. */
  function LoweredTargets(ts: seq<Target>): map<string, string>
  {
    if ts == [] then map[]
    else
      var t := ts[|ts| - 1];
      LoweredTargets(ts[..|ts| - 1])[t.headingLower := t.name]
  }

  /** The keys are the lower-cased headings, and each maps to the name of the LAST
      target with that lower-cased heading. */
  lemma {:induction false} LoweredTargetsLast(ts: seq<Target>, k: string)
    ensures k in LoweredTargets(ts) <==> exists i :: 0 <= i < |ts| && ts[i].headingLower == k
    ensures k in LoweredTargets(ts) ==>
      exists i :: 0 <= i < |ts| && ts[i].headingLower == k && LoweredTargets(ts)[k] == ts[i].name &&
        forall j :: i < j < |ts| ==> ts[j].headingLower != k
  {
    if ts != [] {
      var init, t := ts[..|ts| - 1], ts[|ts| - 1];
      LoweredTargetsLast(init, k);
      if t.headingLower == k {
        assert ts[|ts| - 1].headingLower == k;
      } else {
        if exists i :: 0 <= i < |ts| && ts[i].headingLower == k {
          var i :| 0 <= i < |ts| && ts[i].headingLower == k;
          assert init[i] == ts[i];
        }
        if k in LoweredTargets(init) {
          var i :| 0 <= i < |init| && init[i].headingLower == k && LoweredTargets(init)[k] == init[i].name &&
            forall j :: i < j < |init| ==> init[j].headingLower != k;
          assert ts[i] == init[i];
          assert forall j :: i < j < |ts| ==> ts[j].headingLower != k by {
            forall j | i < j < |ts|
              ensures ts[j].headingLower != k
            {
              if j < |init| {
                assert ts[j] == init[j];
              }
            }
          }
        }
      }
    }
  }

  predicate NoDuplicates(s: seq<string>)
  {
    forall a, b :: 0 <= a < b < |s| ==> s[a] != s[b]
  }

  /** `s` lists every key of `m` exactly once, in some order. */
  ghost predicate IsKeyOrder(s: seq<string>, m: map<string, string>)
  {
    (forall k :: k in s <==> k in m) && NoDuplicates(s)
  }

  /** `keys`: the keys of a map, each once, in the map's (unspecified) iteration order. */
  method Keys(m: map<string, string>) returns (s: seq<string>)
    ensures IsKeyOrder(s, m)
    ensures |s| == |m|
  {
    s := [];
    var rest := m.Keys;
    while rest != {}
      invariant rest <= m.Keys
      invariant forall k :: k in m <==> k in s || k in rest
      invariant forall k :: k in s ==> k !in rest
      invariant NoDuplicates(s)
      invariant |s| + |rest| == |m|
      decreases |rest|
    {
      var k :| k in rest;
      s := s + [k];
      rest := rest - {k};
    }
  }

  /** Which branch of the switch on `len(insertionOnly)` a reference takes. */
  datatype Outcome =
    | NoMatches(ref: string)
    | SingleMatch(ref: string, heading: string, target: string)
    | MultipleMatches(ref: string, candidates: seq<string>)

  /** Go's map index: the value for a present key, the empty string otherwise. */
  function Lookup(m: map<string, string>, k: string): string
  {
    if k in m then m[k] else ""
  }

  /** The switch on the number of acceptable results. */
  function Decide(ref: string, insertionOnly: seq<string>, lowered: map<string, string>): (o: Outcome)
    ensures o.ref == ref
    ensures o.NoMatches? <==> |insertionOnly| == 0
    ensures o.SingleMatch? <==> |insertionOnly| == 1
    ensures o.MultipleMatches? <==> |insertionOnly| >= 2
    ensures o.SingleMatch? ==> o.heading == insertionOnly[0] && o.target == Lookup(lowered, o.heading)
    ensures o.MultipleMatches? ==> o.candidates == insertionOnly
  {
    match |insertionOnly| {
      case 0 => NoMatches(ref)
      case 1 => SingleMatch(ref, insertionOnly[0], Lookup(lowered, insertionOnly[0]))
      case _ => MultipleMatches(ref, insertionOnly)
    }
  }

  /** The warning printed to standard error for an outcome, if any. */
  function Warning(o: Outcome): seq<string>
  {
    match o {
      case NoMatches(ref) => ["Warning: No matches for unresolved reference [" + ref + "]\n"]
      case SingleMatch(_, _, _) => []
      case MultipleMatches(ref, _) => ["Warning: Multiple matches for unresolved reference [" + ref + "]\n"]
    }
  }

  /** The warnings for a sequence of outcomes, in order. */
  function Warnings(os: seq<Outcome>): seq<string>
  {
    if os == [] then [] else Warnings(os[..|os| - 1]) + Warning(os[|os| - 1])
  }

  /** No warning is printed exactly when every examined reference had one acceptable result. */
  lemma {:induction false} WarningsEmptyIff(os: seq<Outcome>)
    ensures Warnings(os) == [] <==> forall j :: 0 <= j < |os| ==> os[j].SingleMatch?
  {
    if os != [] {
      var init := os[..|os| - 1];
      WarningsEmptyIff(init);
      if Warnings(os) == [] {
        assert Warnings(init) == [];
        forall j | 0 <= j < |os|
          ensures os[j].SingleMatch?
        {
          if j < |init| {
            assert init[j] == os[j];
          }
        }
      }
      if forall j :: 0 <= j < |os| ==> os[j].SingleMatch? {
        assert forall j :: 0 <= j < |init| ==> init[j] == os[j];
        assert os[|os| - 1].SingleMatch?;
      }
    }
  }

  /** A single acceptable result names the target of the last heading with that
      lower-cased text, provided the matcher returns originals from the candidates. */
  lemma SingleMatchTarget(ref: string, ms: seq<FuzzyMatch>, ts: seq<Target>)
    requires forall m :: m in ms ==> m.original in LoweredTargets(ts)
    requires Decide(ref, InsertionOnly(ms), LoweredTargets(ts)).SingleMatch?
    ensures var o := Decide(ref, InsertionOnly(ms), LoweredTargets(ts));
      exists i :: 0 <= i < |ts| && ts[i].headingLower == o.heading && ts[i].name == o.target &&
        forall j :: i < j < |ts| ==> ts[j].headingLower != o.heading
  {
    var o := Decide(ref, InsertionOnly(ms), LoweredTargets(ts));
    var acc := InsertionOnly(ms);
    assert acc[0] in acc;
    InsertionOnlyIff(ms, acc[0]);
    LoweredTargetsLast(ts, o.heading);
  }

  /** The references passLinkHeads examines: those not yet resolved, in order. */
  function Unresolved(refs: seq<Reference>): seq<Reference>
  {
    if refs == [] then []
    else
      var r := refs[|refs| - 1];
      Unresolved(refs[..|refs| - 1]) + (if r.resolved then [] else [r])
  }

  /** A reference is examined exactly when it is recorded and not resolved. */
  lemma {:induction false} UnresolvedIff(refs: seq<Reference>, r: Reference)
    ensures r in Unresolved(refs) <==> r in refs && !r.resolved
  {
    if refs != [] {
      var init := refs[..|refs| - 1];
      UnresolvedIff(init, r);
      if r in refs && r != refs[|refs| - 1] {
        var j :| 0 <= j < |refs| && refs[j] == r;
        assert init[j] == r;
      }
    }
  }

  /** The outcome `o` is what passLinkHeads decides for `ref` with the matcher queried on
      the lower-cased name and the keys of `lowered` in some iteration order. */
  ghost predicate Explains(o: Outcome, ref: Reference, lowered: map<string, string>, fuzzy: Matcher)
  {
    exists ks :: IsKeyOrder(ks, lowered) && o == Decide(ref.name, InsertionOnly(fuzzy(ToLower(ref.name), ks)), lowered)
  }
}
