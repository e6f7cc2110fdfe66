/** `find_duplicates` as functions: the grouping of the individuals by
    normalized (first name, last name, birth date), and the report that
    lists, group by group, every pair of members of a group in the order
    the nested loops visit them. */
module DuplicateSpec {
  import opened Wrappers
  import opened PyStr
  import opened OrderedDict
  import opened Records

  /** The grouping key: the three fields, `None` read as empty, stripped
      and lower-cased. */
  datatype Key = Key(first: string, last: string, birth: string)

  function Normalize(o: Option<string>): string {
    Lower(Strip(o.GetOr("")))
  }

  function KeyOf(ind: Individual): Key {
    Key(Normalize(ind.firstName), Normalize(ind.lastName), Normalize(ind.birthDate))
  }

  /** A record whose three fields are all empty after normalization; such a
      record is in no group. */
  predicate Blank(k: Key) {
    k.first == "" && k.last == "" && k.birth == ""
  }

  /** One entry of the report. */
  datatype DuplicateCandidate = DuplicateCandidate(
    aId: string,
    bId: string,
    firstName: string,
    lastName: string,
    birthDate: string,
    birthPlaceA: string,
    birthPlaceB: string,
    sameParents: bool)

  /** Both fathers and both mothers equal, and the father known. Two
      records without any known parent therefore never have the same
      parents, while two with the same father and no mother do. */
  predicate SameParents(a: Individual, b: Individual) {
    a.fatherId == b.fatherId && a.motherId == b.motherId && a.fatherId.Some?
  }

  /** The entry for the pair `(a, b)`: the shown fields are `a`'s, unset
      ones as the empty string, and each record's own birth place. */
  function Candidate(a: Individual, b: Individual): DuplicateCandidate {
    DuplicateCandidate(
      a.id, b.id,
      a.firstName.GetOr(""), a.lastName.GetOr(""), a.birthDate.GetOr(""),
      a.birthPlace.GetOr(""), b.birthPlace.GetOr(""),
      SameParents(a, b))
  }

  type Groups = Dict<Key, seq<Individual>>

  /** Each record with its key. */
  type Tagged = seq<(Key, Individual)>

  function Tag(vals: seq<Individual>): (ts: Tagged)
    ensures |ts| == |vals|
  {
    if vals == [] then [] else Tag(vals[..|vals| - 1]) + [(KeyOf(vals[|vals| - 1]), vals[|vals| - 1])]
  }

  /** The groups after the first loop: each non-blank record is appended
      to the list of its key, a new key going last. */
  function Group(ts: Tagged): (g: Groups)
    ensures Valid(g)
  {
    if ts == [] then Empty()
    else
      var g := Group(ts[..|ts| - 1]);
      var (k, v) := ts[|ts| - 1];
      if Blank(k) then g
      else Put(g, k, (if k in g.entries then g.entries[k] else []) + [v])
  }

  lemma TagSnoc(q: seq<Individual>, v: Individual)
    ensures Tag(q + [v]) == Tag(q) + [(KeyOf(v), v)]
  {
    assert (q + [v])[..|q|] == q;
  }

  lemma GroupSnoc(ts: Tagged, k: Key, v: Individual)
    ensures Group(ts + [(k, v)]) ==
      if Blank(k) then Group(ts)
      else Put(Group(ts), k, (if k in Group(ts).entries then Group(ts).entries[k] else []) + [v])
  {
    assert (ts + [(k, v)])[..|ts|] == ts;
  }

  /** The entries of one pass of the middle loop: `people[i]` with each
      later member. */
  function Row(people: seq<Individual>, i: nat): (r: seq<DuplicateCandidate>)
    requires i < |people|
    ensures |r| == |people| - i - 1
  {
    seq(|people| - i - 1, t requires 0 <= t < |people| - i - 1 => Candidate(people[i], people[i + 1 + t]))
  }

  /** The entries of the first `n` passes of the middle loop. */
  function Rows(people: seq<Individual>, n: nat): seq<DuplicateCandidate>
    requires n <= |people|
  {
    if n == 0 then [] else Rows(people, n - 1) + Row(people, n - 1)
  }

  /** The entries one group contributes. */
  function PairsOf(people: seq<Individual>): seq<DuplicateCandidate> {
    Rows(people, |people|)
  }

  /** The entries of the first `n` groups, in the order of the keys. */
  function ReportUpTo(g: Groups, n: nat): seq<DuplicateCandidate>
    requires Valid(g) && n <= |g.keys|
  {
    if n == 0 then [] else ReportUpTo(g, n - 1) + PairsOf(g.entries[g.keys[n - 1]])
  }

  /** `find_duplicates(individuals)`. */
  function Report(individuals: Dict<string, Individual>): seq<DuplicateCandidate>
    requires Valid(individuals)
  {
    var g := Group(Tag(Values(individuals)));
    ReportUpTo(g, |g.keys|)
  }
}
