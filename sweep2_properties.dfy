/** What the birth sweep does, stated without its cursor and flag: the
    cursor is the id of the last INDI header so far (FAM headers do not move
    it), a birth block is open when the last INDI header or level-1 line so
    far is a `1 BIRT...` line that follows some INDI header, and each birth
    field of an individual comes from the last DATE (PLAC) line met while a
    block was open under that individual's id, whichever header of that id
    it followed. */
module Sweep2Properties {
  import opened Wrappers
  import opened PyStr
  import opened OrderedDict
  import opened Records
  import opened GedcomSyntax
  import opened GedcomSweeps
  import opened Sweep1Properties

  predicate IsIndiHead(h: Option<(string, RecordType)>) {
    h.Some? && h.value.1 == Indi
  }

  /** The position of the last INDI header. */
  function LastIndi(hs: Heads): (r: Option<nat>)
    ensures r.Some? ==> r.value < |hs| && IsIndiHead(hs[r.value])
    ensures r.Some? ==> forall m :: r.value < m < |hs| ==> !IsIndiHead(hs[m])
    ensures r.None? ==> forall m :: 0 <= m < |hs| ==> !IsIndiHead(hs[m])
  {
    if hs == [] then None
    else if IsIndiHead(hs[|hs| - 1]) then Some(|hs| - 1)
    else LastIndi(hs[..|hs| - 1])
  }

  /** The id of the last INDI header, if any. */
  function Cursor(hs: Heads): Option<string> {
    match LastIndi(hs)
    case Some(k) => Some(hs[k].value.0)
    case None => None
  }

  /** An INDI header or a level-1 line: the lines that decide whether a
      birth block is open. */
  predicate Boundary(h: Option<(string, RecordType)>, line: string) {
    IsIndiHead(h) || StartsWith(line, LevelOneTag)
  }

  /** The position of the last boundary line. */
  function LastBoundary(hs: Heads, lines: seq<string>): (r: Option<nat>)
    requires |hs| == |lines|
    ensures r.Some? ==> r.value < |lines| && Boundary(hs[r.value], lines[r.value])
    ensures r.Some? ==> forall m :: r.value < m < |lines| ==> !Boundary(hs[m], lines[m])
    ensures r.None? ==> forall m :: 0 <= m < |lines| ==> !Boundary(hs[m], lines[m])
  {
    if lines == [] then None
    else if Boundary(hs[|hs| - 1], lines[|lines| - 1]) then Some(|lines| - 1)
    else LastBoundary(hs[..|hs| - 1], lines[..|lines| - 1])
  }

  /** A birth block is open after `lines`: the last boundary line is a
      `1 BIRT...` line and an INDI header came before it. */
  predicate BirthOpen(hs: Heads, lines: seq<string>)
    requires |hs| == |lines|
  {
    match LastBoundary(hs, lines)
    case Some(j) => StartsWith(lines[j], BirtTag) && LastIndi(hs[..j]).Some?
    case None => false
  }

  /** A line with `tag` that the sweep feeds to the individual `id`: a birth
      block is open before it and the cursor is `id`. */
  predicate Feeds(hs: Heads, lines: seq<string>, m: nat, id: string, tag: string)
    requires |hs| == |lines| && m < |lines|
  {
    && StartsWith(lines[m], tag)
    && BirthOpen(hs[..m], lines[..m])
    && Cursor(hs[..m]) == Some(id)
  }

  /** Whether a line is fed depends only on the lines before it. */
  lemma FeedsPrefix(hs: Heads, lines: seq<string>, n: nat, m: nat, id: string, tag: string)
    requires |hs| == |lines| && m < n <= |lines|
    ensures Feeds(hs[..n], lines[..n], m, id, tag) == Feeds(hs, lines, m, id, tag)
  {
    assert hs[..n][..m] == hs[..m] && lines[..n][..m] == lines[..m];
  }

  /** The position of the last line with `tag` fed to `id`. */
  function LastFed(hs: Heads, lines: seq<string>, id: string, tag: string): (r: Option<nat>)
    requires |hs| == |lines|
    ensures r.Some? ==> r.value < |lines| && Feeds(hs, lines, r.value, id, tag)
  {
    if lines == [] then None
    else if Feeds(hs, lines, |lines| - 1, id, tag) then Some(|lines| - 1)
    else
      var n := |lines| - 1;
      var r := LastFed(hs[..n], lines[..n], id, tag);
      if r.Some? then FeedsPrefix(hs, lines, n, r.value, id, tag); r else r
  }

  /** No line after the one `LastFed` finds is fed, and none at all when it
      finds none. */
  lemma {:induction false} LastFedIsLast(hs: Heads, lines: seq<string>, id: string, tag: string, m: nat)
    requires |hs| == |lines| && m < |lines|
    requires LastFed(hs, lines, id, tag).Some? ==> LastFed(hs, lines, id, tag).value < m
    ensures !Feeds(hs, lines, m, id, tag)
    decreases |lines|
  {
    var n := |lines| - 1;
    if m < n && !Feeds(hs, lines, n, id, tag) {
      assert LastFed(hs, lines, id, tag) == LastFed(hs[..n], lines[..n], id, tag);
      FeedsPrefix(hs, lines, n, m, id, tag);
      LastFedIsLast(hs[..n], lines[..n], id, tag, m);
    }
  }

  /** The value a birth field ends with: that of the last line with `tag`
      fed to `id`, or `d` without one. */
  function BirthFrom(hs: Heads, lines: seq<string>, id: string, tag: string, d: Option<string>): Option<string>
    requires |hs| == |lines|
  {
    match LastFed(hs, lines, id, tag)
    case Some(m) => OrNone(Strip(After(lines[m], tag)))
    case None => d
  }

  // ---------------------------------------------------------------------
  // One more line

  lemma CursorSnoc(hs: Heads, h: Option<(string, RecordType)>)
    ensures Cursor(hs + [h]) == if IsIndiHead(h) then Some(h.value.0) else Cursor(hs)
  {
    SnocPrefix(hs, h);
  }

  lemma BirthOpenSnoc(hs: Heads, p: seq<string>, h: Option<(string, RecordType)>, x: string)
    requires |hs| == |p|
    ensures BirthOpen(hs + [h], p + [x]) ==
      if Boundary(h, x) then StartsWith(x, BirtTag) && LastIndi(hs).Some? else BirthOpen(hs, p)
  {
    SnocPrefix(hs, h);
    assert (p + [x])[..|p|] == p;
    var r := LastBoundary(hs, p);
    if !Boundary(h, x) && r.Some? {
      assert (p + [x])[r.value] == p[r.value];
      assert (hs + [h])[..r.value] == hs[..r.value];
    }
  }

  lemma LastFedSnoc(hs: Heads, p: seq<string>, h: Option<(string, RecordType)>, x: string, id: string, tag: string)
    requires |hs| == |p|
    ensures LastFed(hs + [h], p + [x], id, tag) ==
      if StartsWith(x, tag) && BirthOpen(hs, p) && Cursor(hs) == Some(id) then Some(|p|)
      else LastFed(hs, p, id, tag)
  {
    SnocPrefix(hs, h);
    assert (p + [x])[..|p|] == p;
    assert (p + [x])[|p|] == x;
  }

  /** The tag prefixes the birth sweep tests. */
  lemma BirthTags(x: string)
    ensures StartsWith(x, BirtTag) ==> StartsWith(x, LevelOneTag)
    ensures !(StartsWith(x, DateTag) && StartsWith(x, PlacTag))
    ensures StartsWith(x, DateTag) ==> !StartsWith(x, LevelOneTag)
    ensures StartsWith(x, PlacTag) ==> !StartsWith(x, LevelOneTag)
  {
    if StartsWith(x, BirtTag) {
      assert x[..2] == x[..6][..2];
    }
    if StartsWith(x, DateTag) || StartsWith(x, PlacTag) {
      assert x[0] == '2';
    }
  }

  /** One line of the birth sweep, read through the header classification
      `h` of that line. */
  lemma Sweep2StepView(s: Sweep2State, x: string, id: string)
    requires Sweep2Inv(s)
    requires IndiId(x).Some? ==> IndiId(x).value in s.individuals.entries
    ensures var h := Header(x); var r := Sweep2Step(s, x);
      && r.currentId == (if IsIndiHead(h) then Some(h.value.0) else s.currentId)
      && r.inBirthBlock == (
           if IsIndiHead(h) || s.currentId.None? then false
           else if StartsWith(x, BirtTag) then true
           else if StartsWith(x, LevelOneTag) then false
           else s.inBirthBlock)
      && (id in r.individuals.entries <==> id in s.individuals.entries)
      && (id in s.individuals.entries ==>
           r.individuals.entries[id] == (
             if !IsIndiHead(h) && s.currentId == Some(id) && s.inBirthBlock && !StartsWith(x, LevelOneTag)
             then BirthLine(s.individuals.entries[id], x)
             else s.individuals.entries[id]))
  {
    BirthTags(x);
  }

  // ---------------------------------------------------------------------
  // Cursor, flag and birth fields

  /** After any prefix the cursor is the id of the last INDI header and the
      flag says whether a birth block is open. */
  lemma {:induction false} Sweep2Cursor(s1: Individuals, lines: seq<string>)
    requires Valid(s1) && IndisKnown(lines, s1)
    ensures Sweep2(s1, lines).currentId == Cursor(Headers(lines))
    ensures Sweep2(s1, lines).inBirthBlock == BirthOpen(Headers(lines), lines)
    decreases |lines|
  {
    if lines != [] {
      var p := lines[..|lines| - 1];
      var x := lines[|lines| - 1];
      IndisKnownPrefix(lines, s1, |p|);
      Sweep2Cursor(s1, p);
      assert lines == p + [x];
      Sweep2CursorStep(s1, p, x);
    }
  }

  /** The induction step of `Sweep2Cursor`. */
  lemma Sweep2CursorStep(s1: Individuals, p: seq<string>, x: string)
    requires Valid(s1) && IndisKnown(p + [x], s1) && IndisKnown(p, s1)
    requires Sweep2(s1, p).currentId == Cursor(Headers(p))
    requires Sweep2(s1, p).inBirthBlock == BirthOpen(Headers(p), p)
    ensures Sweep2(s1, p + [x]).currentId == Cursor(Headers(p + [x]))
    ensures Sweep2(s1, p + [x]).inBirthBlock == BirthOpen(Headers(p + [x]), p + [x])
  {
    var s := Sweep2(s1, p);
    assert (p + [x])[..|p|] == p && (p + [x])[|p|] == x;
    assert IndiId(x).Some? ==> IndiId(x).value in s.individuals.entries;
    assert Sweep2(s1, p + [x]) == Sweep2Step(s, x);
    HeadersSnoc(p, x);
    CursorSnoc(Headers(p), Header(x));
    BirthOpenSnoc(Headers(p), p, Header(x), x);
    Sweep2StepView(s, x, "");
    BirthTags(x);
    if StartsWith(x, LevelOneTag) {
      TagLineIsNoHeader(x, LevelOneTag);
    }
  }

  lemma BirthFromSnoc(hs: Heads, p: seq<string>, h: Option<(string, RecordType)>, x: string,
                      id: string, tag: string, d: Option<string>)
    requires |hs| == |p|
    ensures BirthFrom(hs + [h], p + [x], id, tag, d) ==
      if StartsWith(x, tag) && BirthOpen(hs, p) && Cursor(hs) == Some(id) then OrNone(Strip(After(x, tag)))
      else BirthFrom(hs, p, id, tag, d)
  {
    LastFedSnoc(hs, p, h, x, id, tag);
    var r := LastFed(hs, p, id, tag);
    if r.Some? {
      assert (p + [x])[r.value] == p[r.value];
    }
  }

  /** DATE and PLAC lines are never headers and never level-1 lines. */
  lemma BirthTagsNoHeader(x: string)
    ensures StartsWith(x, DateTag) || StartsWith(x, PlacTag) ==> Header(x).None? && !StartsWith(x, LevelOneTag)
  {
    BirthTags(x);
    if StartsWith(x, DateTag) {
      TagLineIsNoHeader(x, DateTag);
    } else if StartsWith(x, PlacTag) {
      TagLineIsNoHeader(x, PlacTag);
    }
  }

  lemma BirthLineFields(ind: Individual, x: string)
    ensures BirthLine(ind, x) == ind.(
      birthDate := if StartsWith(x, DateTag) then OrNone(Strip(After(x, DateTag))) else ind.birthDate,
      birthPlace := if StartsWith(x, PlacTag) then OrNone(Strip(After(x, PlacTag))) else ind.birthPlace)
  {
    BirthTags(x);
  }

  /** The record of `id` after sweep 2 over `lines`: the one sweep 1 built,
      with the value of the last DATE (PLAC) line fed to `id` as birth date
      (place), or the old value without one. */
  ghost predicate BirthAsFed(s1: Individuals, lines: seq<string>, id: string)
    requires Valid(s1) && IndisKnown(lines, s1) && id in s1.entries
  {
    var hs := Headers(lines);
    var old_ := s1.entries[id];
    && id in Sweep2(s1, lines).individuals.entries
    && Sweep2(s1, lines).individuals.entries[id] == old_.(
         birthDate := BirthFrom(hs, lines, id, DateTag, old_.birthDate),
         birthPlace := BirthFrom(hs, lines, id, PlacTag, old_.birthPlace))
  }

  /** The birth sweep keeps every key and every field except the two birth
      fields, and each birth field is the value of the last DATE (PLAC) line
      fed to the individual, or the value it had before. Lines fed under an
      earlier header of the same id count too. */
  lemma {:induction false} Sweep2Birth(s1: Individuals, lines: seq<string>, id: string)
    requires Valid(s1) && IndisKnown(lines, s1) && id in s1.entries
    ensures id in Sweep2(s1, lines).individuals.entries
    ensures var hs := Headers(lines); var old_ := s1.entries[id];
      Sweep2(s1, lines).individuals.entries[id] == old_.(
        birthDate := BirthFrom(hs, lines, id, DateTag, old_.birthDate),
        birthPlace := BirthFrom(hs, lines, id, PlacTag, old_.birthPlace))
    decreases |lines|
  {
    if lines != [] {
      var p := lines[..|lines| - 1];
      var x := lines[|lines| - 1];
      assert lines == p + [x];
      IndisKnownPrefix(lines, s1, |p|);
      Sweep2Birth(s1, p, id);
      Sweep2BirthStep(s1, p, x, id);
      assert BirthAsFed(s1, lines, id);
    }
  }

  /** The induction step of `Sweep2Birth`. */
  lemma Sweep2BirthStep(s1: Individuals, p: seq<string>, x: string, id: string)
    requires Valid(s1) && IndisKnown(p + [x], s1) && IndisKnown(p, s1) && id in s1.entries
    requires BirthAsFed(s1, p, id)
    ensures BirthAsFed(s1, p + [x], id)
  {
    var s := Sweep2(s1, p);
    assert (p + [x])[..|p|] == p && (p + [x])[|p|] == x;
    assert IndiId(x).Some? ==> IndiId(x).value in s.individuals.entries;
    assert Sweep2(s1, p + [x]) == Sweep2Step(s, x);
    Sweep2Cursor(s1, p);
    var hs := Headers(p);
    HeadersSnoc(p, x);
    var old_ := s1.entries[id];
    BirthFromSnoc(hs, p, Header(x), x, id, DateTag, old_.birthDate);
    BirthFromSnoc(hs, p, Header(x), x, id, PlacTag, old_.birthPlace);
    Sweep2StepView(s, x, id);
    BirthLineFields(s.individuals.entries[id], x);
    BirthTagsNoHeader(x);
  }


  // ---------------------------------------------------------------------
  // Pieces of a file

  /** Sweep 2 over two pieces is sweep 2 over the second from where the
      first left off. */
  lemma {:induction false} Run2Concat(s: Sweep2State, a: seq<string>, b: seq<string>)
    requires Sweep2Inv(s) && IndisKnown(a + b, s.individuals)
    ensures IndisKnown(a, s.individuals) && IndisKnown(b, Run2(s, a).individuals)
    ensures Run2(s, a + b) == Run2(Run2(s, a), b)
    decreases |b|
  {
    assert (a + b)[..|a|] == a;
    IndisKnownPrefix(a + b, s.individuals, |a|);
    IndisKnownSuffix(a, b, s.individuals);
    IndisKnownGrow(b, s.individuals, Run2(s, a).individuals);
    if b == [] {
      assert a + b == a;
    } else {
      var q := b[..|b| - 1];
      assert (a + b)[..|a + b| - 1] == a + q && (a + b)[|a + b| - 1] == b[|b| - 1];
      IndisKnownPrefix(a + b, s.individuals, |a + q|);
      Run2Concat(s, a, q);
    }
  }

  /** Before the first INDI header sweep 2 does nothing, FAM headers
      included. */
  lemma {:induction false} Sweep2Preamble(s1: Individuals, lines: seq<string>)
    requires Valid(s1) && IndisKnown(lines, s1) && LastIndi(Headers(lines)).None?
    ensures Sweep2(s1, lines) == Sweep2Start(s1)
    decreases |lines|
  {
    if lines != [] {
      var p := lines[..|lines| - 1];
      var x := lines[|lines| - 1];
      assert lines == p + [x];
      IndisKnownPrefix(lines, s1, |p|);
      HeadersSnoc(p, x);
      SnocPrefix(Headers(p), Header(x));
      assert !IsIndiHead(Header(x));
      Sweep2Preamble(s1, p);
    }
  }

  /** Lines before the first INDI header make no difference to sweep 2. */
  lemma Sweep2SkipsPreamble(s1: Individuals, pre: seq<string>, rest: seq<string>)
    requires Valid(s1) && IndisKnown(pre + rest, s1) && LastIndi(Headers(pre)).None?
    ensures IndisKnown(rest, s1)
    ensures Sweep2(s1, pre + rest) == Sweep2(s1, rest)
  {
    Run2Concat(Sweep2Start(s1), pre, rest);
    Sweep2Preamble(s1, pre);
  }

  /** A level-1 line other than `1 BIRT...` closes the birth block, so a
      DATE or PLAC line right after it changes nothing. */
  lemma BirthBlockCloses(s1: Individuals, p: seq<string>, x: string, y: string)
    requires Valid(s1) && IndisKnown(p + [x, y], s1)
    requires StartsWith(x, LevelOneTag) && !StartsWith(x, BirtTag)
    ensures IndisKnown(p + [x], s1)
    ensures !Sweep2(s1, p + [x]).inBirthBlock
    ensures StartsWith(y, DateTag) || StartsWith(y, PlacTag) ==>
      Sweep2(s1, p + [x, y]).individuals == Sweep2(s1, p + [x]).individuals
  {
    var l := p + [x, y];
    assert l[..|p| + 1] == p + [x] && l[|p| + 1] == y;
    IndisKnownPrefix(l, s1, |p| + 1);
    assert (p + [x])[..|p|] == p && (p + [x])[|p|] == x;
    IndisKnownPrefix(p + [x], s1, |p|);
    var s := Sweep2(s1, p);
    TagLineIsNoHeader(x, LevelOneTag);
    Sweep2StepView(s, x, "");
    var t := Sweep2(s1, p + [x]);
    assert t == Sweep2Step(s, x);
    assert Sweep2(s1, l) == Sweep2Step(t, y);
    if StartsWith(y, DateTag) || StartsWith(y, PlacTag) {
      BirthTagsNoHeader(y);
      BirthTags(y);
      assert !StartsWith(y, BirtTag);
    }
  }

  /** A FAM header is invisible to sweep 2: it neither moves the cursor
      nor closes an open birth block, so the DATE and PLAC lines after it
      still go to the individual before it. */
  lemma FamHeaderIsSkipped(s: Sweep2State, x: string)
    requires Sweep2Inv(s) && Header(x).Some? && Header(x).value.1 == Fam
    ensures Sweep2Step(s, x) == s
  {
    HeaderStartsWithZero(x);
    LevelZeroTags(x);
    assert IndiId(x).None?;
    if s.currentId.Some? && s.inBirthBlock {
      var id := s.currentId.value;
      assert BirthLine(s.individuals.entries[id], x) == s.individuals.entries[id];
      PutSame(s.individuals, id);
    }
  }

  /** A line starting with `0 ` carries none of the tags of sweep 2. */
  lemma LevelZeroTags(x: string)
    requires StartsWith(x, "0 ")
    ensures !StartsWith(x, BirtTag) && !StartsWith(x, LevelOneTag)
    ensures !StartsWith(x, DateTag) && !StartsWith(x, PlacTag)
  {
    assert x[0] == '0';
  }
}
