/** What the duplicate report contains, stated on the list of individuals
    alone: exactly one entry for each pair of positions `p < q` whose
    records have the same non-blank key, each built from the earlier record
    `a` and the later record `b`. */
module DuplicateProperties {
  import opened Wrappers
  import opened PyStr
  import opened OrderedDict
  import opened Records
  import opened DuplicateSpec

  /** Two records the finder pairs: equal keys, not blank. */
  predicate Matching(a: Individual, b: Individual) {
    KeyOf(a) == KeyOf(b) && !Blank(KeyOf(a))
  }

  // ---------------------------------------------------------------------
  // Keys and group members

  lemma {:induction false} TagAt(vals: seq<Individual>, m: nat)
    requires m < |vals|
    ensures Tag(vals)[m] == (KeyOf(vals[m]), vals[m])
    decreases |vals|
  {
    if m < |vals| - 1 {
      TagAt(vals[..|vals| - 1], m);
    }
  }

  /** The positions below `n` whose key is `k`, in increasing order. */
  function Members(ts: Tagged, k: Key, n: nat): (ms: seq<nat>)
    requires n <= |ts|
    ensures forall i :: 0 <= i < |ms| ==> ms[i] < n && ts[ms[i]].0 == k
  {
    if n == 0 then []
    else Members(ts, k, n - 1) + if ts[n - 1].0 == k then [n - 1] else []
  }

  /** The members are listed in increasing order, and every position with
      key `k` is one. */
  lemma {:induction false} MembersSorted(ts: Tagged, k: Key, n: nat)
    requires n <= |ts|
    ensures forall i, j :: 0 <= i < j < |Members(ts, k, n)| ==> Members(ts, k, n)[i] < Members(ts, k, n)[j]
    ensures forall m :: 0 <= m < n && ts[m].0 == k ==> m in Members(ts, k, n)
    decreases n
  {
    if n > 0 {
      MembersSorted(ts, k, n - 1);
    }
  }

  lemma {:induction false} MembersPrefix(ts: Tagged, x: (Key, Individual), k: Key, n: nat)
    requires n <= |ts|
    ensures Members(ts + [x], k, n) == Members(ts, k, n)
    decreases n
  {
    if n > 0 {
      MembersPrefix(ts, x, k, n - 1);
    }
  }

  lemma MembersSnoc(ts: Tagged, x: (Key, Individual), k: Key)
    ensures Members(ts + [x], k, |ts| + 1) == Members(ts, k, |ts|) + if x.0 == k then [|ts|] else []
  {
    MembersPrefix(ts, x, k, |ts|);
  }

  /** The records at positions `ms`. */
  function Pick(ts: Tagged, ms: seq<nat>): (r: seq<Individual>)
    requires forall i :: 0 <= i < |ms| ==> ms[i] < |ts|
    ensures |r| == |ms|
  {
    seq(|ms|, i requires 0 <= i < |ms| => ts[ms[i]].1)
  }

  lemma PickSnoc(ts: Tagged, x: (Key, Individual), ms: seq<nat>)
    requires forall i :: 0 <= i < |ms| ==> ms[i] < |ts|
    ensures Pick(ts + [x], ms) == Pick(ts, ms)
    ensures Pick(ts + [x], ms + [|ts|]) == Pick(ts, ms) + [x.1]
  {
  }

  /** There is a group for every non-blank key some record has, and for
      no other key. */
  lemma {:induction false} GroupKeys(ts: Tagged, k: Key)
    ensures k in Group(ts).entries <==> !Blank(k) && Members(ts, k, |ts|) != []
    decreases |ts|
  {
    if ts != [] {
      var q := ts[..|ts| - 1];
      var x := ts[|ts| - 1];
      assert ts == q + [x];
      MembersSnoc(q, x, k);
      GroupKeys(q, k);
      GroupSnoc(q, x.0, x.1);
    }
  }

  /** Each group lists the records of its key in their order. */
  lemma {:induction false} GroupMembers(ts: Tagged, k: Key)
    requires k in Group(ts).entries
    ensures Group(ts).entries[k] == Pick(ts, Members(ts, k, |ts|))
    decreases |ts|
  {
    var q := ts[..|ts| - 1];
    var x := ts[|ts| - 1];
    assert ts == q + [x];
    var mq := Members(q, k, |q|);
    MembersSnoc(q, x, k);
    GroupSnoc(q, x.0, x.1);
    PickSnoc(q, x, mq);
    var g := Group(q);
    GroupKeys(ts, k);
    GroupKeys(q, k);
    if x.0 == k {
      if k in g.entries {
        GroupMembers(q, k);
      }
      assert Group(ts).entries[k] == Pick(q, mq) + [x.1];
    } else {
      assert k in g.entries && Group(ts).entries[k] == g.entries[k];
      GroupMembers(q, k);
    }
  }

  /** The groups come in order of the first record of each key. */
  lemma GroupKeysGrow(q: Tagged, x: (Key, Individual))
    ensures Group(q + [x]).keys ==
      Group(q).keys + if !Blank(x.0) && x.0 !in Group(q).entries then [x.0] else []
  {
    GroupSnoc(q, x.0, x.1);
  }

  lemma {:induction false} GroupOrder(ts: Tagged, i: nat, j: nat)
    requires i < j < |Group(ts).keys|
    ensures Members(ts, Group(ts).keys[i], |ts|) != []
    ensures Members(ts, Group(ts).keys[j], |ts|) != []
    ensures Members(ts, Group(ts).keys[i], |ts|)[0] < Members(ts, Group(ts).keys[j], |ts|)[0]
    decreases |ts|
  {
    var g := Group(ts);
    var ki, kj := g.keys[i], g.keys[j];
    GroupKeys(ts, ki);
    GroupKeys(ts, kj);
    var q := ts[..|ts| - 1];
    var x := ts[|ts| - 1];
    assert ts == q + [x];
    var gq := Group(q);
    GroupKeysGrow(q, x);
    MembersSnoc(q, x, ki);
    MembersSnoc(q, x, kj);
    assert ki == gq.keys[i];
    GroupKeys(q, ki);
    if j < |gq.keys| {
      assert kj == gq.keys[j];
      GroupOrder(q, i, j);
    } else {
      assert kj == x.0 && kj !in gq.entries;
      GroupKeys(q, kj);
    }
  }

  // ---------------------------------------------------------------------
  // Pairs of one group

  /** Every pair `i < j` with `i < n` is in the first `n` rows. */
  lemma {:induction false} RowsHavePair(people: seq<Individual>, n: nat, i: nat, j: nat)
    requires i < n <= |people| && i < j < |people|
    ensures Candidate(people[i], people[j]) in Rows(people, n)
    decreases n
  {
    if i == n - 1 {
      assert Row(people, i)[j - n] == Candidate(people[i], people[j]);
    } else {
      RowsHavePair(people, n - 1, i, j);
    }
  }

  /** Every entry of the first `n` rows is the candidate of a pair `i < j`
      with `i < n`. */
  lemma {:induction false} RowsPair(people: seq<Individual>, n: nat, c: DuplicateCandidate) returns (i: nat, j: nat)
    requires n <= |people| && c in Rows(people, n)
    ensures i < n && i < j < |people| && c == Candidate(people[i], people[j])
    decreases n
  {
    var r := Row(people, n - 1);
    if c in r {
      var t :| 0 <= t < |r| && r[t] == c;
      i, j := n - 1, n + t;
    } else {
      i, j := RowsPair(people, n - 1, c);
    }
  }

  /** A group of `n` records contributes `n * (n - 1) / 2` entries. */
  lemma PairsCount(people: seq<Individual>)
    ensures |PairsOf(people)| == |people| * (|people| - 1) / 2
  {
    RowsCount(people, |people|);
  }

  lemma {:induction false} RowsCount(people: seq<Individual>, n: nat)
    requires n <= |people|
    ensures 2 * |Rows(people, n)| == n * (2 * |people| - n - 1)
    decreases n
  {
    if n > 0 {
      RowsCount(people, n - 1);
    }
  }

  /** The rows grow by extension: the first entries of a later prefix are
      those of an earlier one. */
  lemma {:induction false} RowsKeep(people: seq<Individual>, m: nat, n: nat, e: nat)
    requires m <= n <= |people| && e < |Rows(people, m)|
    ensures e < |Rows(people, n)| && Rows(people, n)[e] == Rows(people, m)[e]
    decreases n
  {
    if m < n {
      RowsKeep(people, m, n - 1, e);
    }
  }

  /** The entries of a group are in the loops' order: the pair `(i, j)`
      comes right after the entries of the rows before row `i` (there are
      `i * (2 * |people| - i - 1) / 2` of those, by `RowsCount`), at offset
      `j - i - 1` in its row. */
  lemma PairPosition(people: seq<Individual>, i: nat, j: nat)
    requires i < j < |people|
    ensures |Rows(people, i)| + (j - i - 1) < |PairsOf(people)|
    ensures PairsOf(people)[|Rows(people, i)| + (j - i - 1)] == Candidate(people[i], people[j])
  {
    var r, w := Rows(people, i), Row(people, i);
    var t := j - i - 1;
    assert w[t] == Candidate(people[i], people[j]);
    assert Rows(people, i + 1) == r + w;
    assert (r + w)[|r| + t] == w[t];
    RowsKeep(people, i + 1, |people|, |r| + t);
  }

  // ---------------------------------------------------------------------
  // The report

  lemma {:induction false} ReportUpToEntry(g: Groups, n: nat, c: DuplicateCandidate) returns (t: nat)
    requires Valid(g) && n <= |g.keys| && c in ReportUpTo(g, n)
    ensures t < n && c in PairsOf(g.entries[g.keys[t]])
    decreases n
  {
    if c in PairsOf(g.entries[g.keys[n - 1]]) {
      t := n - 1;
    } else {
      t := ReportUpToEntry(g, n - 1, c);
    }
  }

  lemma {:induction false} ReportUpToHas(g: Groups, n: nat, t: nat, c: DuplicateCandidate)
    requires Valid(g) && t < n <= |g.keys| && c in PairsOf(g.entries[g.keys[t]])
    ensures c in ReportUpTo(g, n)
    decreases n
  {
    if t < n - 1 {
      ReportUpToHas(g, n - 1, t, c);
    }
  }

  /** The sum of `k * (k - 1) / 2` over the sizes `k` of the first `n`
      groups. */
  function PairTotal(g: Groups, n: nat): nat
    requires Valid(g) && n <= |g.keys|
  {
    if n == 0 then 0
    else
      var k := |g.entries[g.keys[n - 1]]|;
      PairTotal(g, n - 1) + k * (k - 1) / 2
  }

  /** The report has one entry per unordered pair of each group. */
  lemma {:induction false} ReportLength(g: Groups, n: nat)
    requires Valid(g) && n <= |g.keys|
    ensures |ReportUpTo(g, n)| == PairTotal(g, n)
    decreases n
  {
    if n > 0 {
      ReportLength(g, n - 1);
      PairsCount(g.entries[g.keys[n - 1]]);
    }
  }

  /** Every entry of the report is the candidate of two records at
      positions `p < q` of `individuals.values()` that have the same
      non-blank key. */
  lemma ReportSound(individuals: Dict<string, Individual>, c: DuplicateCandidate) returns (p: nat, q: nat)
    requires Valid(individuals) && c in Report(individuals)
    ensures var vals := Values(individuals);
      p < q < |vals| && Matching(vals[p], vals[q]) && c == Candidate(vals[p], vals[q])
  {
    var vals := Values(individuals);
    var ts := Tag(vals);
    var g := Group(ts);
    var t := ReportUpToEntry(g, |g.keys|, c);
    var k := g.keys[t];
    GroupKeys(ts, k);
    GroupMembers(ts, k);
    var ms := Members(ts, k, |ts|);
    var people := g.entries[k];
    var i, j := RowsPair(people, |people|, c);
    MembersSorted(ts, k, |ts|);
    p, q := ms[i], ms[j];
    TagAt(vals, p);
    TagAt(vals, q);
    assert people[i] == vals[p] && people[j] == vals[q];
  }

  /** Field by field, an entry of the report: the ids of the earlier record
      `a` and the later record `b`, `a`'s unnormalized name and birth date
      and each record's birth place (unset as the empty string), and the
      parents flag, which needs a known father: two records without parents
      never have the same parents. */
  lemma ReportEntryFields(individuals: Dict<string, Individual>, c: DuplicateCandidate) returns (a: Individual, b: Individual)
    requires Valid(individuals) && c in Report(individuals)
    ensures a in Values(individuals) && b in Values(individuals) && Matching(a, b)
    ensures c.aId == a.id && c.bId == b.id
    ensures c.firstName == a.firstName.GetOr("") && c.lastName == a.lastName.GetOr("")
    ensures c.birthDate == a.birthDate.GetOr("")
    ensures c.birthPlaceA == a.birthPlace.GetOr("") && c.birthPlaceB == b.birthPlace.GetOr("")
    ensures c.sameParents <==> a.fatherId.Some? && a.fatherId == b.fatherId && a.motherId == b.motherId
  {
    var p, q := ReportSound(individuals, c);
    a, b := Values(individuals)[p], Values(individuals)[q];
  }

  lemma GroupPairsHave(ts: Tagged, p: nat, q: nat)
    requires p < q < |ts| && ts[p].0 == ts[q].0 && !Blank(ts[p].0)
    ensures var g := Group(ts); Candidate(ts[p].1, ts[q].1) in ReportUpTo(g, |g.keys|)
  {
    var g := Group(ts);
    var k := ts[p].0;
    var ms := Members(ts, k, |ts|);
    MembersSorted(ts, k, |ts|);
    var i :| 0 <= i < |ms| && ms[i] == p;
    var j :| 0 <= j < |ms| && ms[j] == q;
    GroupKeys(ts, k);
    GroupMembers(ts, k);
    var people := g.entries[k];
    assert people[i] == ts[p].1 && people[j] == ts[q].1;
    RowsHavePair(people, |people|, i, j);
    var t :| 0 <= t < |g.keys| && g.keys[t] == k;
    ReportUpToHas(g, |g.keys|, t, Candidate(ts[p].1, ts[q].1));
  }

  /** Every two records at positions `p < q` with the same non-blank key
      have their candidate in the report. */
  lemma ReportComplete(individuals: Dict<string, Individual>, p: nat, q: nat)
    requires Valid(individuals)
    requires var vals := Values(individuals); p < q < |vals| && Matching(vals[p], vals[q])
    ensures var vals := Values(individuals); Candidate(vals[p], vals[q]) in Report(individuals)
  {
    var vals := Values(individuals);
    TagAt(vals, p);
    TagAt(vals, q);
    GroupPairsHave(Tag(vals), p, q);
  }

  /** Without two matching records the report is empty. */
  lemma NoMatchNoReport(individuals: Dict<string, Individual>)
    requires Valid(individuals)
    requires var vals := Values(individuals);
      forall p, q :: 0 <= p < q < |vals| ==> !Matching(vals[p], vals[q])
    ensures Report(individuals) == []
  {
    if Report(individuals) != [] {
      var p, q := ReportSound(individuals, Report(individuals)[0]);
    }
  }

  /** When every record carries its own key as id, no entry pairs a record
      with itself. */
  lemma NoSelfPairs(individuals: Dict<string, Individual>, c: DuplicateCandidate)
    requires Valid(individuals) && c in Report(individuals)
    requires forall id :: id in individuals.entries ==> individuals.entries[id].id == id
    ensures c.aId != c.bId
  {
    var p, q := ReportSound(individuals, c);
    assert c.aId == individuals.keys[p] && c.bId == individuals.keys[q];
  }

  /** Two records with the same non-blank key give exactly one entry, the
      pair in input order. */
  lemma TwoMatchingOnePair(individuals: Dict<string, Individual>)
    requires Valid(individuals) && |individuals.keys| == 2
    requires Matching(Values(individuals)[0], Values(individuals)[1])
    ensures Report(individuals) == [Candidate(Values(individuals)[0], Values(individuals)[1])]
  {
    var vals := Values(individuals);
    var a, b := vals[0], vals[1];
    assert vals == [a, b];
    TagTwo(a, b);
    var k := KeyOf(a);
    assert Tag(vals) == [(k, a), (k, b)];
    GroupTwo(k, a, b);
    var g := Group(Tag(vals));
    assert g.keys == [k] && g.entries == map[k := [a, b]];
    assert ReportUpTo(g, 1) == ReportUpTo(g, 0) + PairsOf([a, b]);
    PairsOfTwo(a, b);
  }

  /** The keys of two records. */
  lemma TagTwo(a: Individual, b: Individual)
    ensures Tag([a, b]) == [(KeyOf(a), a), (KeyOf(b), b)]
  {
    var e: seq<Individual> := [];
    TagSnoc(e, a);
    assert e + [a] == [a];
    assert Tag([a]) == [(KeyOf(a), a)];
    TagSnoc([a], b);
    assert [a] + [b] == [a, b];
  }

  /** Two records under one non-blank key form one group of two. */
  lemma GroupTwo(k: Key, a: Individual, b: Individual)
    requires !Blank(k)
    ensures Group([(k, a), (k, b)]).keys == [k]
    ensures Group([(k, a), (k, b)]).entries == map[k := [a, b]]
  {
    var e: Tagged := [];
    GroupSnoc(e, k, a);
    assert e + [(k, a)] == [(k, a)];
    var none: seq<Individual> := [];
    assert Group(e) == Empty() && k !in Group(e).entries;
    assert none + [a] == [a];
    var g1 := Group([(k, a)]);
    assert g1.keys == [k] && g1.entries == map[k := [a]];
    GroupSnoc([(k, a)], k, b);
    assert [(k, a)] + [(k, b)] == [(k, a), (k, b)];
    assert [a] + [b] == [a, b];
  }

  /** A group of two yields its one pair. */
  lemma PairsOfTwo(a: Individual, b: Individual)
    ensures PairsOf([a, b]) == [Candidate(a, b)]
  {
    var p := [a, b];
    assert Row(p, 0) == [Candidate(a, b)];
    assert Row(p, 1) == [];
    assert Rows(p, 1) == Rows(p, 0) + Row(p, 0) == [Candidate(a, b)];
    assert PairsOf(p) == Rows(p, 1) + Row(p, 1);
  }
}
