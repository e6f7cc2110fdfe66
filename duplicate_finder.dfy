/** `find_duplicates`: a loop that fills the groups in place, then three
    nested loops that append to the report. The loops are split into
    methods along the source's own two phases. */
module DuplicateFinder {
  import opened Wrappers
  import opened PyStr
  import opened OrderedDict
  import opened Records
  import opened DuplicateSpec

  method FindDuplicates(individuals: Dict<string, Individual>) returns (report: seq<DuplicateCandidate>)
    requires Valid(individuals)
    ensures report == Report(individuals)
  {
    var groups := GroupRecords(Values(individuals));
    report := CollectPairs(groups);
  }

  /** The second loop: the pairs of each group with more than one member,
      group by group in the order of the keys. */
  method CollectPairs(groups: Groups) returns (report: seq<DuplicateCandidate>)
    requires Valid(groups)
    ensures report == ReportUpTo(groups, |groups.keys|)
  {
    report := [];
    for t := 0 to |groups.keys|
      invariant report == ReportUpTo(groups, t)
    {
      var people := groups.entries[groups.keys[t]];
      if |people| > 1 {
        var pairs := GroupPairs(people);
        report := report + pairs;
      } else {
        assert Rows(people, |people|) == [];
      }
    }
  }

  /** The first loop: the groups, by key, in order of first appearance. */
  method GroupRecords(vals: seq<Individual>) returns (groups: Groups)
    ensures groups == Group(Tag(vals))
  {
    groups := Empty();
    for i := 0 to |vals|
      invariant groups == Group(Tag(vals[..i]))
    {
      var ind := vals[i];
      var first := Normalize(ind.firstName);
      var last := Normalize(ind.lastName);
      var birth := Normalize(ind.birthDate);
      GroupStep(vals, i);
      if first == "" && last == "" && birth == "" {
        continue;
      }
      var key := Key(first, last, birth);
      var people := if key in groups.entries then groups.entries[key] else [];
      groups := Put(groups, key, people + [ind]);
    }
    assert vals[..|vals|] == vals;
  }

  lemma GroupStep(vals: seq<Individual>, i: nat)
    requires i < |vals|
    ensures var g := Group(Tag(vals[..i])); var k := KeyOf(vals[i]);
      Group(Tag(vals[..i + 1])) ==
        if Blank(k) then g
        else Put(g, k, (if k in g.entries then g.entries[k] else []) + [vals[i]])
  {
    assert vals[..i + 1] == vals[..i] + [vals[i]];
    TagSnoc(vals[..i], vals[i]);
    GroupSnoc(Tag(vals[..i]), KeyOf(vals[i]), vals[i]);
  }

  /** The two inner loops for one group: every pair `i < j`, by `i` then
      `j`. */
  method GroupPairs(people: seq<Individual>) returns (pairs: seq<DuplicateCandidate>)
    ensures pairs == PairsOf(people)
  {
    pairs := [];
    for i := 0 to |people|
      invariant pairs == Rows(people, i)
    {
      for j := i + 1 to |people|
        invariant pairs == Rows(people, i) + Row(people, i)[..j - i - 1]
      {
        var a := people[i];
        var b := people[j];
        var sameParents := a.fatherId == b.fatherId && a.motherId == b.motherId && a.fatherId.Some?;
        assert Row(people, i)[..j - i] == Row(people, i)[..j - i - 1] + [Candidate(a, b)];
        pairs := pairs + [DuplicateCandidate(
          a.id, b.id,
          a.firstName.GetOr(""), a.lastName.GetOr(""), a.birthDate.GetOr(""),
          a.birthPlace.GetOr(""), b.birthPlace.GetOr(""),
          sameParents)];
      }
      assert Row(people, i)[..|people| - i - 1] == Row(people, i);
    }
  }
}
