/** The three sweeps of the record parser as functions of the lines: each
    sweep is a left fold of a one-line step over the line sequence, and the
    parse is the three sweeps one after the other. The parser method in
    `GedcomParser` is proved to compute exactly `Parse`; the properties of
    `Parse` are proved in `GedcomProperties`. */
module GedcomSweeps {
  import opened Wrappers
  import opened PyStr
  import opened OrderedDict
  import opened Records
  import opened GedcomSyntax

  type Individuals = Dict<string, Individual>
  type Families = Dict<string, Family>

  // ---------------------------------------------------------------------
  // Sweep 1: headers, NAME, FAMC, HUSB, WIFE, CHIL

  /** What a non-header line does to the current INDI record in sweep 1. */
  function IndiLine(ind: Individual, line: string): Individual {
    if StartsWith(line, NameTag) then
      var nameVal := After(line, NameTag);
      var named := ind.(nameRaw := Some(nameVal));
      match NameMatch(nameVal)
      case Some((g1, g2)) => named.(firstName := OrNone(Strip(g1)), lastName := OrNone(Strip(g2)))
      case None => named
    else if StartsWith(line, FamcTag) then
      ind.(familyAsChild := Some(RefValue(line, FamcTag)))
    else
      ind
  }

  /** What a non-header line does to the current FAM record in sweep 1. */
  function FamLine(fam: Family, line: string): Family {
    if StartsWith(line, HusbTag) then fam.(husbandId := Some(RefValue(line, HusbTag)))
    else if StartsWith(line, WifeTag) then fam.(wifeId := Some(RefValue(line, WifeTag)))
    else if StartsWith(line, ChilTag) then fam.(childrenIds := fam.childrenIds + [RefValue(line, ChilTag)])
    else fam
  }

  /** The variables of sweep 1: the two dictionaries and the cursor
      (`current_id`, `current_type`). */
  datatype Sweep1State = Sweep1State(
    individuals: Individuals,
    families: Families,
    currentId: Option<string>,
    currentType: Option<RecordType>)

  /** The cursor is set together with its type, and always names a record
      of that type. */
  ghost predicate Sweep1Inv(s: Sweep1State) {
    && Valid(s.individuals) && Valid(s.families)
    && (s.currentId.Some? <==> s.currentType.Some?)
    && (s.currentType == Some(Indi) ==> s.currentId.value in s.individuals.entries)
    && (s.currentType == Some(Fam) ==> s.currentId.value in s.families.entries)
  }

  function Sweep1Start(): (s: Sweep1State)
    ensures Sweep1Inv(s)
  {
    Sweep1State(Empty(), Empty(), None, None)
  }

  /** One iteration of the first loop. A header (re)creates a fresh record
      under its id and moves the cursor to it; any other line updates the
      record under the cursor, if there is one. */
  function Sweep1Step(s: Sweep1State, line: string): (r: Sweep1State)
    requires Sweep1Inv(s)
    ensures Sweep1Inv(r)
    ensures s.individuals.entries.Keys <= r.individuals.entries.Keys
    ensures s.families.entries.Keys <= r.families.entries.Keys
    ensures Header(line).Some? && Header(line).value.1 == Indi ==> Header(line).value.0 in r.individuals.entries
  {
    match Header(line)
    case Some((id, t)) =>
      if t == Indi then Sweep1State(Put(s.individuals, id, NewIndividual(id)), s.families, Some(id), Some(t))
      else Sweep1State(s.individuals, Put(s.families, id, NewFamily(id)), Some(id), Some(t))
    case None =>
      if s.currentType == Some(Indi) then
        var id := s.currentId.value;
        s.(individuals := Put(s.individuals, id, IndiLine(s.individuals.entries[id], line)))
      else if s.currentType == Some(Fam) then
        var id := s.currentId.value;
        s.(families := Put(s.families, id, FamLine(s.families.entries[id], line)))
      else
        s
  }

  /** Every INDI header of `lines` names an entry of `d`. */
  ghost predicate IndisKnown(lines: seq<string>, d: Individuals)
    decreases |lines|
  {
    lines != [] ==>
      && IndisKnown(lines[..|lines| - 1], d)
      && (IndiId(lines[|lines| - 1]).Some? ==> IndiId(lines[|lines| - 1]).value in d.entries)
  }

  lemma {:induction false} IndisKnownGrow(lines: seq<string>, d: Individuals, e: Individuals)
    requires IndisKnown(lines, d) && d.entries.Keys <= e.entries.Keys
    ensures IndisKnown(lines, e)
    decreases |lines|
  {
    if lines != [] {
      IndisKnownGrow(lines[..|lines| - 1], d, e);
    }
  }

  lemma {:induction false} IndisKnownPrefix(lines: seq<string>, d: Individuals, n: nat)
    requires IndisKnown(lines, d) && n <= |lines|
    ensures IndisKnown(lines[..n], d)
    decreases |lines|
  {
    if n < |lines| {
      assert lines[..|lines| - 1][..n] == lines[..n];
      IndisKnownPrefix(lines[..|lines| - 1], d, n);
    } else {
      assert lines[..n] == lines;
    }
  }

  lemma {:induction false} IndisKnownSuffix(a: seq<string>, b: seq<string>, d: Individuals)
    requires IndisKnown(a + b, d)
    ensures IndisKnown(b, d)
    decreases |b|
  {
    if b != [] {
      var q := b[..|b| - 1];
      assert (a + b)[..|a + b| - 1] == a + q && (a + b)[|a + b| - 1] == b[|b| - 1];
      IndisKnownSuffix(a, q, d);
    }
  }

  /** Sweep 1 over `lines` from state `s`. */
  function Run1(s: Sweep1State, lines: seq<string>): (r: Sweep1State)
    requires Sweep1Inv(s)
    ensures Sweep1Inv(r)
    ensures s.individuals.entries.Keys <= r.individuals.entries.Keys
    ensures IndisKnown(lines, r.individuals)
    decreases |lines|
  {
    if lines == [] then s
    else
      var p := lines[..|lines| - 1];
      var r0 := Run1(s, p);
      var r := Sweep1Step(r0, lines[|lines| - 1]);
      IndisKnownGrow(p, r0.individuals, r.individuals);
      r
  }

  function Sweep1(lines: seq<string>): Sweep1State {
    Run1(Sweep1Start(), lines)
  }

  // ---------------------------------------------------------------------
  // Sweep 2: birth blocks

  /** What a line does to the current individual while a birth block is
      open. */
  function BirthLine(ind: Individual, line: string): Individual {
    if StartsWith(line, DateTag) then ind.(birthDate := OrNone(Strip(After(line, DateTag))))
    else if StartsWith(line, PlacTag) then ind.(birthPlace := OrNone(Strip(After(line, PlacTag))))
    else ind
  }

  /** The variables of sweep 2: the individuals, the cursor `current_id`
      and the flag `in_birth_block`. */
  datatype Sweep2State = Sweep2State(
    individuals: Individuals,
    currentId: Option<string>,
    inBirthBlock: bool)

  ghost predicate Sweep2Inv(s: Sweep2State) {
    && Valid(s.individuals)
    && (s.currentId.Some? ==> s.currentId.value in s.individuals.entries)
    && (s.inBirthBlock ==> s.currentId.Some?)
  }

  /** One iteration of the second loop. Only an INDI header moves the
      cursor (and closes the block); `1 BIRT...` opens a block; any other
      `1 ` line closes it; DATE/PLAC lines inside an open block set the
      birth fields. Lines before the first INDI header are skipped. */
  function Sweep2Step(s: Sweep2State, line: string): (r: Sweep2State)
    requires Sweep2Inv(s)
    requires IndiId(line).Some? ==> IndiId(line).value in s.individuals.entries
    ensures Sweep2Inv(r)
    ensures r.individuals.keys == s.individuals.keys
    ensures r.individuals.entries.Keys == s.individuals.entries.Keys
  {
    if IndiId(line).Some? then Sweep2State(s.individuals, IndiId(line), false)
    else if s.currentId.None? then s
    else if StartsWith(line, BirtTag) then s.(inBirthBlock := true)
    else
      var open := if StartsWith(line, LevelOneTag) && !StartsWith(line, BirtTag) then false else s.inBirthBlock;
      if open then
        var id := s.currentId.value;
        Sweep2State(Put(s.individuals, id, BirthLine(s.individuals.entries[id], line)), s.currentId, open)
      else
        s.(inBirthBlock := open)
  }

  /** Sweep 2 over `lines` from state `s`. */
  function Run2(s: Sweep2State, lines: seq<string>): (r: Sweep2State)
    requires Sweep2Inv(s) && IndisKnown(lines, s.individuals)
    ensures Sweep2Inv(r)
    ensures r.individuals.keys == s.individuals.keys
    ensures r.individuals.entries.Keys == s.individuals.entries.Keys
    decreases |lines|
  {
    if lines == [] then s
    else
      var p := lines[..|lines| - 1];
      Sweep2Step(Run2(s, p), lines[|lines| - 1])
  }

  function Sweep2Start(individuals: Individuals): (s: Sweep2State)
    requires Valid(individuals)
    ensures Sweep2Inv(s)
  {
    Sweep2State(individuals, None, false)
  }

  function Sweep2(individuals: Individuals, lines: seq<string>): Sweep2State
    requires Valid(individuals) && IndisKnown(lines, individuals)
  {
    Run2(Sweep2Start(individuals), lines)
  }

  // ---------------------------------------------------------------------
  // Sweep 3: parent resolution

  /** The parents of one individual: taken from the family named by
      `familyAsChild` when that name is non-empty and names a family;
      otherwise the record is left as it is. */
  function ResolveParents(ind: Individual, families: Families): Individual {
    match ind.familyAsChild
    case Some(famc) =>
      if famc != "" && famc in families.entries then
        ind.(fatherId := families.entries[famc].husbandId, motherId := families.entries[famc].wifeId)
      else ind
    case None => ind
  }

  function Resolve(individuals: Individuals, families: Families): (r: Individuals)
    requires Valid(individuals)
    ensures Valid(r) && r.keys == individuals.keys
  {
    Dict(individuals.keys, map id | id in individuals.entries :: ResolveParents(individuals.entries[id], families))
  }

  // ---------------------------------------------------------------------

  /** `parse_gedcom_content` on the lines of the content. */
  function Parse(lines: seq<string>): (Individuals, Families) {
    var s1 := Sweep1(lines);
    var s2 := Sweep2(s1.individuals, lines);
    (Resolve(s2.individuals, s1.families), s1.families)
  }
}
