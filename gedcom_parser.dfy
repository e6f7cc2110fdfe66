/** `parse_gedcom_content`: three sweeps over the lines, each a loop that
    updates the two dictionaries and the sweep's cursor variables in place.
    Its postcondition ties the result to `GedcomSweeps.Parse`, whose
    properties `GedcomProperties` proves. */
module GedcomParser {
  import opened Wrappers
  import opened PyStr
  import opened OrderedDict
  import opened Records
  import opened GedcomSyntax
  import opened GedcomSweeps

  method ParseGedcomContent(lines: seq<string>) returns (individuals: Individuals, families: Families)
    ensures (individuals, families) == Parse(lines)
  {
    individuals, families := RecordSweep(lines);
    individuals := BirthSweep(lines, individuals);
    individuals := ParentSweep(individuals, families);
  }

  /** First loop: headers, names and raw links. */
  method RecordSweep(lines: seq<string>) returns (individuals: Individuals, families: Families)
    ensures individuals == Sweep1(lines).individuals && families == Sweep1(lines).families
  {
    individuals := Empty();
    families := Empty();
    var currentId: Option<string> := None;
    var currentType: Option<RecordType> := None;

    // 1) records, names and raw links
    for i := 0 to |lines|
      invariant Sweep1State(individuals, families, currentId, currentType) == Sweep1(lines[..i])
    {
      var line := lines[i];
      assert lines[..i + 1][..i] == lines[..i];
      var header := Header(line);
      if header.Some? {
        var (id, t) := header.value;
        currentId := Some(id);
        currentType := Some(t);
        if t == Indi {
          individuals := Put(individuals, id, NewIndividual(id));
        } else {
          families := Put(families, id, NewFamily(id));
        }
        continue;
      }

      if currentType == Some(Indi) {
        var id := currentId.value;
        if StartsWith(line, NameTag) {
          var nameVal := After(line, NameTag);
          var ind := individuals.entries[id].(nameRaw := Some(nameVal));
          var m := NameMatch(nameVal);
          if m.Some? {
            ind := ind.(firstName := OrNone(Strip(m.value.0)), lastName := OrNone(Strip(m.value.1)));
          }
          individuals := Put(individuals, id, ind);
        } else if StartsWith(line, FamcTag) {
          var famc := Strip(After(line, FamcTag));
          famc := StripAt(famc);
          individuals := Put(individuals, id, individuals.entries[id].(familyAsChild := Some(famc)));
        } else {
          PutSame(individuals, id);
        }
      } else if currentType == Some(Fam) {
        var id := currentId.value;
        var fam := families.entries[id];
        if StartsWith(line, HusbTag) {
          var husb := StripAt(Strip(After(line, HusbTag)));
          families := Put(families, id, fam.(husbandId := Some(husb)));
        } else if StartsWith(line, WifeTag) {
          var wife := StripAt(Strip(After(line, WifeTag)));
          families := Put(families, id, fam.(wifeId := Some(wife)));
        } else if StartsWith(line, ChilTag) {
          var child := StripAt(Strip(After(line, ChilTag)));
          families := Put(families, id, fam.(childrenIds := fam.childrenIds + [child]));
        } else {
          PutSame(families, id);
        }
      }
    }
    assert lines[..|lines|] == lines;
  }

  /** Second loop: birth blocks, `1 BIRT` then `2 DATE` / `2 PLAC`. */
  method BirthSweep(lines: seq<string>, s1: Individuals) returns (individuals: Individuals)
    requires Valid(s1) && IndisKnown(lines, s1)
    ensures individuals == Sweep2(s1, lines).individuals
  {
    individuals := s1;
    var currentId: Option<string> := None;
    var inBirthBlock := false;
    for i := 0 to |lines|
      invariant IndisKnown(lines[..i], s1)
      invariant Sweep2State(individuals, currentId, inBirthBlock) == Sweep2(s1, lines[..i])
    {
      var line := lines[i];
      assert lines[..i + 1][..i] == lines[..i] && lines[..i + 1][i] == line;
      IndisKnownPrefix(lines, s1, i + 1);
      assert Sweep2(s1, lines[..i + 1]) == Sweep2Step(Sweep2State(individuals, currentId, inBirthBlock), line);
      var indi := IndiId(line);
      if indi.Some? {
        currentId := indi;
        inBirthBlock := false;
        continue;
      }
      if currentId.None? {
        continue;
      }
      if StartsWith(line, BirtTag) {
        inBirthBlock := true;
        continue;
      }
      if StartsWith(line, LevelOneTag) && !StartsWith(line, BirtTag) {
        inBirthBlock := false;
      }
      if inBirthBlock {
        var id := currentId.value;
        if StartsWith(line, DateTag) {
          individuals := Put(individuals, id, individuals.entries[id].(birthDate := OrNone(Strip(After(line, DateTag)))));
        } else if StartsWith(line, PlacTag) {
          individuals := Put(individuals, id, individuals.entries[id].(birthPlace := OrNone(Strip(After(line, PlacTag)))));
        } else {
          PutSame(individuals, id);
        }
      }
    }
    assert lines[..|lines|] == lines;
  }

  /** Third loop: father and mother through the family-as-child link. */
  method ParentSweep(s2: Individuals, families: Families) returns (individuals: Individuals)
    requires Valid(s2)
    ensures individuals == Resolve(s2, families)
  {
    individuals := s2;
    for k := 0 to |individuals.keys|
      invariant Valid(individuals)
      invariant individuals.keys == s2.keys
      invariant individuals.entries.Keys == s2.entries.Keys
      invariant forall n :: 0 <= n < k ==>
        individuals.entries[s2.keys[n]] == ResolveParents(s2.entries[s2.keys[n]], families)
      invariant forall n :: k <= n < |s2.keys| ==>
        individuals.entries[s2.keys[n]] == s2.entries[s2.keys[n]]
    {
      var id := individuals.keys[k];
      var ind := individuals.entries[id];
      ghost var before := individuals.entries;
      assert ind == s2.entries[id];
      var famc := ind.familyAsChild;
      if famc.Some? && famc.value != "" && famc.value in families.entries {
        ind := ind.(fatherId := families.entries[famc.value].husbandId,
                    motherId := families.entries[famc.value].wifeId);
        individuals := Put(individuals, id, ind);
      }
      assert individuals.entries == before[id := ResolveParents(s2.entries[id], families)];
      assert forall n :: 0 <= n < |s2.keys| && n != k ==> s2.keys[n] != id;
    }
    assert individuals.entries == Resolve(s2, families).entries by {
      forall id | id in s2.entries
        ensures individuals.entries[id] == ResolveParents(s2.entries[id], families)
      {
        var n :| 0 <= n < |s2.keys| && s2.keys[n] == id;
      }
    }
  }
}
