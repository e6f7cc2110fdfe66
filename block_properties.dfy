/** What the lines of one block do to its record: every field the block
    sets comes from the LAST line with that field's tag (the name split from
    the last NAME line whose value matches the name pattern), the children
    are the CHIL lines in order, and every other field keeps its value. */
module BlockProperties {
  import opened Wrappers
  import opened PyStr
  import opened Records
  import opened GedcomSyntax
  import opened GedcomSweeps
  import opened Sweep1Properties

  /** The position of the last line of `seg` that starts with `tag`. */
  function LastTagged(seg: seq<string>, tag: string): (r: Option<nat>)
    ensures r.Some? ==> r.value < |seg| && StartsWith(seg[r.value], tag)
    ensures r.Some? ==> forall m :: r.value < m < |seg| ==> !StartsWith(seg[m], tag)
    ensures r.None? ==> forall m :: 0 <= m < |seg| ==> !StartsWith(seg[m], tag)
  {
    if seg == [] then None
    else if StartsWith(seg[|seg| - 1], tag) then Some(|seg| - 1)
    else
      var q := seg[..|seg| - 1];
      assert forall m :: 0 <= m < |q| ==> q[m] == seg[m];
      LastTagged(q, tag)
  }

  /** A NAME line whose value the name pattern matches. */
  predicate SplitsName(line: string) {
    StartsWith(line, NameTag) && NameMatch(After(line, NameTag)).Some?
  }

  /** The position of the last NAME line of `seg` whose value matches. */
  function LastSplit(seg: seq<string>): (r: Option<nat>)
    ensures r.Some? ==> r.value < |seg|
  {
    if seg == [] then None
    else if SplitsName(seg[|seg| - 1]) then Some(|seg| - 1)
    else LastSplit(seg[..|seg| - 1])
  }

  /** `LastSplit` finds a matching NAME line and no later one, and finds
      none only when there is none. */
  lemma {:induction false} LastSplitIsLast(seg: seq<string>)
    ensures LastSplit(seg).Some? ==> SplitsName(seg[LastSplit(seg).value])
    ensures LastSplit(seg).Some? ==> forall m :: LastSplit(seg).value < m < |seg| ==> !SplitsName(seg[m])
    ensures LastSplit(seg).None? ==> forall m :: 0 <= m < |seg| ==> !SplitsName(seg[m])
    decreases |seg|
  {
    if seg != [] && !SplitsName(seg[|seg| - 1]) {
      var q := seg[..|seg| - 1];
      LastSplitIsLast(q);
      var n := match LastSplit(q) case Some(k) => k + 1 case None => 0;
      forall m | n <= m < |seg| ensures !SplitsName(seg[m]) {
        if m < |q| {
          assert seg[m] == q[m];
        }
      }
      if LastSplit(q).Some? {
        assert seg[LastSplit(q).value] == q[LastSplit(q).value];
      }
    }
  }

  /** The references of the CHIL lines of `seg`, in order. */
  function ChildRefs(seg: seq<string>): (refs: seq<string>)
    ensures |refs| <= |seg|
  {
    if seg == [] then []
    else
      var x := seg[|seg| - 1];
      ChildRefs(seg[..|seg| - 1]) + if StartsWith(x, ChilTag) then [RefValue(x, ChilTag)] else []
  }

  /** The value the last NAME line gives `nameRaw`, or `d` without one. */
  function NameFrom(seg: seq<string>, d: Option<string>): Option<string> {
    match LastTagged(seg, NameTag)
    case Some(k) => Some(After(seg[k], NameTag))
    case None => d
  }

  /** The value a reference field takes from the last line with `tag`. */
  function RefFrom(seg: seq<string>, tag: string, d: Option<string>): Option<string> {
    match LastTagged(seg, tag)
    case Some(k) => Some(RefValue(seg[k], tag))
    case None => d
  }

  /** Group `g` (0 or 1) of the last matching NAME line, stripped, with the
      empty string as `None`; `d` without one. */
  function SplitFrom(seg: seq<string>, g: nat, d: Option<string>): Option<string>
    requires g < 2
  {
    LastSplitIsLast(seg);
    match LastSplit(seg)
    case Some(k) =>
      var m := NameMatch(After(seg[k], NameTag)).value;
      OrNone(Strip(if g == 0 then m.0 else m.1))
    case None => d
  }

  lemma TagsDiffer(line: string)
    ensures !(StartsWith(line, NameTag) && StartsWith(line, FamcTag))
    ensures !(StartsWith(line, HusbTag) && StartsWith(line, WifeTag))
    ensures !(StartsWith(line, HusbTag) && StartsWith(line, ChilTag))
    ensures !(StartsWith(line, WifeTag) && StartsWith(line, ChilTag))
  {
  }

  /** One line of an INDI block, field by field: a NAME line sets the raw
      name and, when its value matches, both name parts; a FAMC line sets the
      family link; nothing else changes. */
  lemma IndiLineFields(ind: Individual, x: string)
    ensures IndiLine(ind, x).nameRaw ==
      if StartsWith(x, NameTag) then Some(After(x, NameTag)) else ind.nameRaw
    ensures IndiLine(ind, x).familyAsChild ==
      if StartsWith(x, FamcTag) then Some(RefValue(x, FamcTag)) else ind.familyAsChild
    ensures IndiLine(ind, x).firstName ==
      if SplitsName(x) then OrNone(Strip(NameMatch(After(x, NameTag)).value.0)) else ind.firstName
    ensures IndiLine(ind, x).lastName ==
      if SplitsName(x) then OrNone(Strip(NameMatch(After(x, NameTag)).value.1)) else ind.lastName
    ensures IndiLine(ind, x).(nameRaw := ind.nameRaw, firstName := ind.firstName,
                              lastName := ind.lastName, familyAsChild := ind.familyAsChild) == ind
  {
    TagsDiffer(x);
  }

  /** A block leaves the id, the birth fields and the parents alone. */
  lemma {:induction false} FoldIndiKeeps(r: Individual, seg: seq<string>)
    ensures var f := FoldIndi(r, seg);
      && f.id == r.id && f.birthDate == r.birthDate && f.birthPlace == r.birthPlace
      && f.fatherId == r.fatherId && f.motherId == r.motherId
    decreases |seg|
  {
    if seg != [] {
      FoldIndiKeeps(r, seg[..|seg| - 1]);
    }
  }

  /** `nameRaw` is the value of the last NAME line. */
  lemma {:induction false} FoldIndiName(r: Individual, seg: seq<string>)
    ensures FoldIndi(r, seg).nameRaw == NameFrom(seg, r.nameRaw)
    decreases |seg|
  {
    if seg != [] {
      var q := seg[..|seg| - 1];
      FoldIndiName(r, q);
      if LastTagged(q, NameTag).Some? {
        assert seg[LastTagged(q, NameTag).value] == q[LastTagged(q, NameTag).value];
      }
    }
  }

  /** `familyAsChild` is the reference on the last FAMC line. */
  lemma {:induction false} FoldIndiFamc(r: Individual, seg: seq<string>)
    ensures FoldIndi(r, seg).familyAsChild == RefFrom(seg, FamcTag, r.familyAsChild)
    decreases |seg|
  {
    if seg != [] {
      var q := seg[..|seg| - 1];
      FoldIndiFamc(r, q);
      IndiLineFields(FoldIndi(r, q), seg[|seg| - 1]);
      if LastTagged(q, FamcTag).Some? {
        assert seg[LastTagged(q, FamcTag).value] == q[LastTagged(q, FamcTag).value];
      }
    }
  }

  /** The name parts come from the last NAME line whose value matches; a
      NAME line that does not match leaves them as they were. */
  lemma {:induction false} FoldIndiSplit(r: Individual, seg: seq<string>)
    ensures FoldIndi(r, seg).firstName == SplitFrom(seg, 0, r.firstName)
    ensures FoldIndi(r, seg).lastName == SplitFrom(seg, 1, r.lastName)
    decreases |seg|
  {
    if seg != [] {
      var q := seg[..|seg| - 1];
      FoldIndiSplit(r, q);
      IndiLineFields(FoldIndi(r, q), seg[|seg| - 1]);
      if LastSplit(q).Some? {
        assert seg[LastSplit(q).value] == q[LastSplit(q).value];
      }
    }
  }

  /** `husbandId` and `wifeId` are the references on the last HUSB and WIFE
      lines. */
  lemma {:induction false} FoldFamSpouses(r: Family, seg: seq<string>)
    ensures FoldFam(r, seg).id == r.id
    ensures FoldFam(r, seg).husbandId == RefFrom(seg, HusbTag, r.husbandId)
    ensures FoldFam(r, seg).wifeId == RefFrom(seg, WifeTag, r.wifeId)
    decreases |seg|
  {
    if seg != [] {
      var q := seg[..|seg| - 1];
      FoldFamSpouses(r, q);
      TagsDiffer(seg[|seg| - 1]);
      if LastTagged(q, HusbTag).Some? {
        assert seg[LastTagged(q, HusbTag).value] == q[LastTagged(q, HusbTag).value];
      }
      if LastTagged(q, WifeTag).Some? {
        assert seg[LastTagged(q, WifeTag).value] == q[LastTagged(q, WifeTag).value];
      }
    }
  }

  /** The children are the CHIL references in order, repetitions kept. */
  lemma {:induction false} FoldFamChildren(r: Family, seg: seq<string>)
    ensures FoldFam(r, seg).childrenIds == r.childrenIds + ChildRefs(seg)
    decreases |seg|
  {
    if seg != [] {
      var q, x := seg[..|seg| - 1], seg[|seg| - 1];
      FoldFamChildren(r, q);
      TagsDiffer(x);
      if StartsWith(x, ChilTag) {
        var v := RefValue(x, ChilTag);
        assert r.childrenIds + ChildRefs(q) + [v] == r.childrenIds + (ChildRefs(q) + [v]);
      } else {
        assert ChildRefs(seg) == ChildRefs(q) + [] == ChildRefs(q);
      }
    }
  }
}
