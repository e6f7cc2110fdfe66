/** The parser and the finder together, as the upload endpoint runs them:
    every parsed record carries its own key as id, so the report on a
    parsed file never pairs a record with itself. */
module PipelineProperties {
  import opened Wrappers
  import opened PyStr
  import opened OrderedDict
  import opened GedcomSyntax
  import opened Sweep1Properties
  import opened BlockProperties
  import opened Sweep2Properties
  import opened Records
  import opened GedcomSweeps
  import opened GedcomProperties
  import opened DuplicateSpec
  import opened DuplicateProperties

  lemma ParsedIdsAreKeys(lines: seq<string>)
    ensures Valid(Parse(lines).0)
    ensures forall id :: id in Parse(lines).0.entries ==> Parse(lines).0.entries[id].id == id
  {
    forall id | id in Parse(lines).0.entries
      ensures Parse(lines).0.entries[id].id == id
    {
      ParseIndividual(lines, id);
    }
  }

  lemma ParsedReportHasNoSelfPairs(lines: seq<string>, c: DuplicateCandidate)
    requires c in Report(Parse(lines).0)
    ensures c.aId != c.bId
  {
    ParsedIdsAreKeys(lines);
    NoSelfPairs(Parse(lines).0, c);
  }

  /** A field that is unset or already stripped. */
  predicate Stripped(o: Option<string>) {
    o.None? || Strip(o.value) == o.value
  }

  /** The name parts the parser stores are stripped. */
  lemma SplitFromStripped(seg: seq<string>, g: nat)
    requires g < 2
    ensures Stripped(SplitFrom(seg, g, None))
  {
    LastSplitIsLast(seg);
    match LastSplit(seg)
    case Some(k) =>
      var m := NameMatch(After(seg[k], NameTag)).value;
      OrNoneStrip(if g == 0 then m.0 else m.1);
    case None =>
  }

  /** So are the birth fields. */
  lemma BirthFromStripped(hs: Heads, lines: seq<string>, id: string, tag: string)
    requires |hs| == |lines|
    ensures Stripped(BirthFrom(hs, lines, id, tag, None))
  {
    match LastFed(hs, lines, id, tag)
    case Some(m) => OrNoneStrip(After(lines[m], tag));
    case None =>
  }

  /** On a stripped field the finder's `strip()` changes nothing, and the
      normalization is lower-casing alone. */
  lemma NormalizeStripped(o: Option<string>)
    requires Stripped(o)
    ensures Normalize(o) == Lower(o.GetOr(""))
  {
    if o.None? {
      StripKeeps("", IsSpace);
    }
  }

  /** The grouping key of a parsed record is its first name, last name and
      birth date lower-cased, unset fields as the empty string: the finder
      strips again what the parser already stripped. */
  lemma ParsedKey(lines: seq<string>, id: string)
    requires id in Parse(lines).0.entries
    ensures var i := Parse(lines).0.entries[id];
      KeyOf(i) == Key(Lower(i.firstName.GetOr("")), Lower(i.lastName.GetOr("")), Lower(i.birthDate.GetOr("")))
  {
    ParseIndividual(lines, id);
    var hs := Headers(lines);
    var seg := Block(lines, LastFor(hs, id, Indi).value);
    var i := Parse(lines).0.entries[id];
    SplitFromStripped(seg, 0);
    SplitFromStripped(seg, 1);
    BirthFromStripped(hs, lines, id, DateTag);
    NormalizeStripped(i.firstName);
    NormalizeStripped(i.lastName);
    NormalizeStripped(i.birthDate);
  }
}
