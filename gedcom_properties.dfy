/** What `parse_gedcom_content` returns, stated on the lines alone: which
    ids are keys and in what order, and where every field of every record
    comes from. */
module GedcomProperties {
  import opened Wrappers
  import opened PyStr
  import opened OrderedDict
  import opened Records
  import opened GedcomSyntax
  import opened GedcomSweeps
  import opened Sweep1Properties
  import opened BlockProperties
  import opened Sweep2Properties

  /** The parents a record gets from the family named by its FAMC link:
      the family's husband and wife when that link is set, non-empty and a
      key of `families`, and no parents otherwise. */
  predicate Resolvable(famc: Option<string>, families: Families) {
    famc.Some? && famc.value != "" && famc.value in families.entries
  }

  /** Both dictionaries list each id once, in order of the first header
      for it; a repeated header keeps the first place. */
  lemma ParseKeys(lines: seq<string>)
    ensures Parse(lines).0.keys == FirstIds(Headers(lines), Indi)
    ensures Parse(lines).1.keys == FirstIds(Headers(lines), Fam)
  {
    Sweep1Keys(lines);
  }

  /** A family record: present exactly when a FAM header names it; built
      from the block of its last header. */
  lemma ParseFamily(lines: seq<string>, id: string)
    ensures id in Parse(lines).1.entries <==> LastFor(Headers(lines), id, Fam).Some?
    ensures id in Parse(lines).1.entries ==>
      var seg := Block(lines, LastFor(Headers(lines), id, Fam).value);
      var f := Parse(lines).1.entries[id];
      && f.id == id
      && f.husbandId == RefFrom(seg, HusbTag, None)
      && f.wifeId == RefFrom(seg, WifeTag, None)
      && f.childrenIds == ChildRefs(seg)
  {
    Sweep1Family(lines, id);
    if id in Parse(lines).1.entries {
      var seg := Block(lines, LastFor(Headers(lines), id, Fam).value);
      FoldFamSpouses(NewFamily(id), seg);
      FoldFamChildren(NewFamily(id), seg);
    }
  }

  /** An individual after the first two sweeps: named by its last
      header's block, born by the DATE/PLAC lines fed to its id, and without
      parents yet. */
  lemma SweptIndividual(lines: seq<string>, id: string)
    requires id in Sweep1(lines).individuals.entries
    ensures LastFor(Headers(lines), id, Indi).Some?
    ensures var s1 := Sweep1(lines).individuals;
      var hs := Headers(lines);
      var seg := Block(lines, LastFor(hs, id, Indi).value);
      && id in Sweep2(s1, lines).individuals.entries
      && Sweep2(s1, lines).individuals.entries[id] == Individual(
           id, NameFrom(seg, None), SplitFrom(seg, 0, None), SplitFrom(seg, 1, None),
           BirthFrom(hs, lines, id, DateTag, None), BirthFrom(hs, lines, id, PlacTag, None),
           None, None, RefFrom(seg, FamcTag, None))
  {
    var s1 := Sweep1(lines);
    Sweep1Individual(lines, id);
    var seg := Block(lines, LastFor(Headers(lines), id, Indi).value);
    var r := NewIndividual(id);
    FoldIndiKeeps(r, seg);
    FoldIndiName(r, seg);
    FoldIndiFamc(r, seg);
    FoldIndiSplit(r, seg);
    Sweep2Birth(s1.individuals, lines, id);
  }

  /** An individual record: present exactly when an INDI header names it.
      The name fields and the FAMC link come from the block of its last
      header; the birth fields from the last DATE/PLAC line fed to its id;
      the parents from the family its link names. */
  lemma ParseIndividual(lines: seq<string>, id: string)
    ensures id in Parse(lines).0.entries <==> LastFor(Headers(lines), id, Indi).Some?
    ensures id in Parse(lines).0.entries ==>
      var hs := Headers(lines);
      var seg := Block(lines, LastFor(hs, id, Indi).value);
      var fams := Parse(lines).1;
      var i := Parse(lines).0.entries[id];
      && i.id == id
      && i.nameRaw == NameFrom(seg, None)
      && i.firstName == SplitFrom(seg, 0, None)
      && i.lastName == SplitFrom(seg, 1, None)
      && i.familyAsChild == RefFrom(seg, FamcTag, None)
      && i.birthDate == BirthFrom(hs, lines, id, DateTag, None)
      && i.birthPlace == BirthFrom(hs, lines, id, PlacTag, None)
      && i.fatherId == (if Resolvable(i.familyAsChild, fams) then fams.entries[i.familyAsChild.value].husbandId else None)
      && i.motherId == (if Resolvable(i.familyAsChild, fams) then fams.entries[i.familyAsChild.value].wifeId else None)
  {
    var s1 := Sweep1(lines);
    Sweep1Individual(lines, id);
    if id in s1.individuals.entries {
      SweptIndividual(lines, id);
    }
  }

  /** Lines before the first header make no difference to the result. */
  lemma ParseSkipsPreamble(pre: seq<string>, rest: seq<string>)
    requires LastAny(Headers(pre)).None?
    ensures Parse(pre + rest) == Parse(rest)
  {
    Sweep1SkipsPreamble(pre, rest);
    var s1 := Sweep1(rest);
    assert LastIndi(Headers(pre)).None?;
    Sweep2SkipsPreamble(s1.individuals, pre, rest);
  }
}
