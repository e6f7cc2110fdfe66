/** What the first sweep builds, stated without the sweep's cursor: each
    record is the fresh record of its LAST header updated by the lines of
    that header's block (the lines after it up to the next header), and the
    dictionaries hold exactly the ids of the headers, in order of first
    appearance. Positions are computed on the line-by-line header
    classification `Headers(lines)`. */
module Sweep1Properties {
  import opened Wrappers
  import opened PyStr
  import opened OrderedDict
  import opened Records
  import opened GedcomSyntax
  import opened GedcomSweeps

  /** What `Header` says about each line of a file. */
  type Heads = seq<Option<(string, RecordType)>>

  function Headers(lines: seq<string>): (hs: Heads)
    ensures |hs| == |lines|
  {
    if lines == [] then [] else Headers(lines[..|lines| - 1]) + [Header(lines[|lines| - 1])]
  }

  lemma {:induction false} HeadersAt(lines: seq<string>, m: nat)
    requires m < |lines|
    ensures Headers(lines)[m] == Header(lines[m])
    decreases |lines|
  {
    if m < |lines| - 1 {
      HeadersAt(lines[..|lines| - 1], m);
    }
  }

  lemma HeadersSnoc(p: seq<string>, x: string)
    ensures Headers(p + [x]) == Headers(p) + [Header(x)]
  {
    assert (p + [x])[..|p|] == p;
  }

  // ---------------------------------------------------------------------
  // Positions of headers

  /** The position of the last header: the record that owns the next line. */
  function LastAny(hs: Heads): (r: Option<nat>)
    ensures r.Some? ==> r.value < |hs| && hs[r.value].Some?
    ensures r.Some? ==> forall m :: r.value < m < |hs| ==> hs[m].None?
    ensures r.None? ==> forall m :: 0 <= m < |hs| ==> hs[m].None?
  {
    if hs == [] then None
    else if hs[|hs| - 1].Some? then Some(|hs| - 1)
    else LastAny(hs[..|hs| - 1])
  }

  /** The position of the last header for record `id` of type `t`. */
  function LastFor(hs: Heads, id: string, t: RecordType): (r: Option<nat>)
    ensures r.Some? ==> r.value < |hs| && hs[r.value] == Some((id, t))
    ensures r.Some? ==> forall m :: r.value < m < |hs| ==> hs[m] != Some((id, t))
    ensures r.None? ==> forall m :: 0 <= m < |hs| ==> hs[m] != Some((id, t))
  {
    if hs == [] then None
    else if hs[|hs| - 1] == Some((id, t)) then Some(|hs| - 1)
    else LastFor(hs[..|hs| - 1], id, t)
  }

  /** The ids of the headers of type `t`, each once, in order of first
      appearance. */
  function FirstIds(hs: Heads, t: RecordType): (ids: seq<string>)
    ensures forall i, j :: 0 <= i < j < |ids| ==> ids[i] != ids[j]
    ensures forall id :: id in ids <==> exists m :: 0 <= m < |hs| && hs[m] == Some((id, t))
  {
    if hs == [] then []
    else
      var q := hs[..|hs| - 1];
      var ids := FirstIds(q, t);
      assert forall m :: 0 <= m < |q| ==> q[m] == hs[m];
      match hs[|hs| - 1]
      case Some((id, t')) => if t' == t && id !in ids then ids + [id] else ids
      case None => ids
  }

  /** Where the block that starts at `from` ends: the next header at or
      after `from`, or the end of the file. */
  function BlockEnd(hs: Heads, from: nat): (e: nat)
    requires from <= |hs|
    ensures from <= e <= |hs|
    ensures forall m :: from <= m < e ==> hs[m].None?
    ensures e == |hs| || hs[e].Some?
    decreases |hs| - from
  {
    if from == |hs| || hs[from].Some? then from else BlockEnd(hs, from + 1)
  }

  /** The block of the header at `k`: the lines it owns. */
  function Block(lines: seq<string>, k: nat): seq<string>
    requires k < |lines|
  {
    lines[k + 1..BlockEnd(Headers(lines), k + 1)]
  }

  /** A fresh INDI record updated by the lines of its block. */
  function FoldIndi(r: Individual, seg: seq<string>): Individual {
    if seg == [] then r else IndiLine(FoldIndi(r, seg[..|seg| - 1]), seg[|seg| - 1])
  }

  /** A fresh FAM record updated by the lines of its block. */
  function FoldFam(r: Family, seg: seq<string>): Family {
    if seg == [] then r else FamLine(FoldFam(r, seg[..|seg| - 1]), seg[|seg| - 1])
  }

  // ---------------------------------------------------------------------
  // Helpers about one more line

  lemma FoldIndiSnoc(r: Individual, seg: seq<string>, x: string)
    ensures FoldIndi(r, seg + [x]) == IndiLine(FoldIndi(r, seg), x)
  {
    assert (seg + [x])[..|seg|] == seg;
  }

  lemma FoldFamSnoc(r: Family, seg: seq<string>, x: string)
    ensures FoldFam(r, seg + [x]) == FamLine(FoldFam(r, seg), x)
  {
    assert (seg + [x])[..|seg|] == seg;
  }

  lemma SnocPrefix(hs: Heads, h: Option<(string, RecordType)>)
    ensures (hs + [h])[..|hs|] == hs
  {
  }

  lemma {:induction false} BlockEndSnoc(hs: Heads, h: Option<(string, RecordType)>, from: nat)
    requires from <= |hs|
    ensures BlockEnd(hs + [h], from) ==
      if BlockEnd(hs, from) < |hs| then BlockEnd(hs, from)
      else if h.Some? then |hs| else |hs| + 1
    decreases |hs| - from
  {
    if from < |hs| && hs[from].None? {
      BlockEndSnoc(hs, h, from + 1);
    }
  }

  /** The header at `k` is the last one exactly when its block runs to the
      end. */
  lemma LastAnyBlock(hs: Heads, k: nat)
    requires k < |hs| && hs[k].Some?
    ensures LastAny(hs) == Some(k) <==> BlockEnd(hs, k + 1) == |hs|
  {
    if LastAny(hs) == Some(k) {
      assert BlockEnd(hs, k + 1) == |hs|;
    }
  }

  // ---------------------------------------------------------------------
  // The cursor

  /** A header moves the cursor to itself; any other line leaves it. */
  lemma Sweep1StepCursor(s: Sweep1State, x: string)
    requires Sweep1Inv(s)
    ensures Header(x).Some? ==>
      Sweep1Step(s, x).currentId == Some(Header(x).value.0) && Sweep1Step(s, x).currentType == Some(Header(x).value.1)
    ensures Header(x).None? ==>
      Sweep1Step(s, x).currentId == s.currentId && Sweep1Step(s, x).currentType == s.currentType
  {
  }

  /** After any prefix the cursor is the id and type of the prefix's last
      header; before the first header there is no cursor. */
  lemma {:induction false} Sweep1Cursor(lines: seq<string>)
    ensures LastAny(Headers(lines)).None? ==> Sweep1(lines).currentId.None? && Sweep1(lines).currentType.None?
    ensures LastAny(Headers(lines)).Some? ==>
      var h := Headers(lines)[LastAny(Headers(lines)).value].value;
      Sweep1(lines).currentId == Some(h.0) && Sweep1(lines).currentType == Some(h.1)
    decreases |lines|
  {
    if lines != [] {
      var p := lines[..|lines| - 1];
      var x := lines[|lines| - 1];
      assert lines == p + [x];
      Sweep1Cursor(p);
      HeadersSnoc(p, x);
      SnocPrefix(Headers(p), Header(x));
      Sweep1StepCursor(Sweep1(p), x);
    }
  }

  // ---------------------------------------------------------------------
  // Records

  /** What one line does to the entry of one individual. */
  lemma Sweep1StepIndi(s: Sweep1State, x: string, id: string)
    requires Sweep1Inv(s)
    ensures Header(x) == Some((id, Indi)) ==>
      id in Sweep1Step(s, x).individuals.entries && Sweep1Step(s, x).individuals.entries[id] == NewIndividual(id)
    ensures Header(x).None? && s.currentId == Some(id) && s.currentType == Some(Indi) ==>
      id in Sweep1Step(s, x).individuals.entries
      && Sweep1Step(s, x).individuals.entries[id] == IndiLine(s.individuals.entries[id], x)
    ensures Header(x) != Some((id, Indi)) && !(Header(x).None? && s.currentId == Some(id) && s.currentType == Some(Indi)) ==>
      (id in Sweep1Step(s, x).individuals.entries <==> id in s.individuals.entries)
      && (id in s.individuals.entries ==> Sweep1Step(s, x).individuals.entries[id] == s.individuals.entries[id])
  {
  }

  /** What one line does to the entry of one family. */
  lemma Sweep1StepFam(s: Sweep1State, x: string, id: string)
    requires Sweep1Inv(s)
    ensures Header(x) == Some((id, Fam)) ==>
      id in Sweep1Step(s, x).families.entries && Sweep1Step(s, x).families.entries[id] == NewFamily(id)
    ensures Header(x).None? && s.currentId == Some(id) && s.currentType == Some(Fam) ==>
      id in Sweep1Step(s, x).families.entries
      && Sweep1Step(s, x).families.entries[id] == FamLine(s.families.entries[id], x)
    ensures Header(x) != Some((id, Fam)) && !(Header(x).None? && s.currentId == Some(id) && s.currentType == Some(Fam)) ==>
      (id in Sweep1Step(s, x).families.entries <==> id in s.families.entries)
      && (id in s.families.entries ==> Sweep1Step(s, x).families.entries[id] == s.families.entries[id])
  {
  }

  /** The last header for `(id, t)` after one more line. */
  lemma LastForSnoc(hs: Heads, h: Option<(string, RecordType)>, id: string, t: RecordType)
    ensures LastFor(hs + [h], id, t) == if h == Some((id, t)) then Some(|hs|) else LastFor(hs, id, t)
  {
    SnocPrefix(hs, h);
  }

  /** How the block of the last header for `(id, t)` grows with one more
      line: by that line when the header is the last one overall and the
      line is no header, and not at all otherwise. */
  lemma SliceEvolves(p: seq<string>, x: string, hs: Heads, h: Option<(string, RecordType)>, k: nat)
    requires |hs| == |p| && k < |p| && hs[k].Some?
    ensures (p + [x])[k + 1..BlockEnd(hs + [h], k + 1)] ==
      if LastAny(hs) == Some(k) && h.None? then p[k + 1..BlockEnd(hs, k + 1)] + [x]
      else p[k + 1..BlockEnd(hs, k + 1)]
  {
    BlockEndSnoc(hs, h, k + 1);
    LastAnyBlock(hs, k);
    var e := BlockEnd(hs, k + 1);
    if BlockEnd(hs + [h], k + 1) == e {
      assert (p + [x])[k + 1..e] == p[k + 1..e];
    } else {
      assert (p + [x])[k + 1..e + 1] == p[k + 1..e] + [x];
    }
  }

  lemma BlockEvolves(p: seq<string>, x: string, k: nat)
    requires k < |p| && Headers(p)[k].Some?
    ensures Block(p + [x], k) ==
      if LastAny(Headers(p)) == Some(k) && Header(x).None? then Block(p, k) + [x] else Block(p, k)
  {
    HeadersSnoc(p, x);
    SliceEvolves(p, x, Headers(p), Header(x), k);
  }

  /** After one more line, the last header for `(id, t)` is either the new
      line or still the one before it; in the second case it is the last
      header overall only if no header came after it. */
  lemma LastForIsCursor(hs: Heads, id: string, t: RecordType)
    requires LastAny(hs).Some? && hs[LastAny(hs).value] == Some((id, t))
    ensures LastFor(hs, id, t) == LastAny(hs)
  {
  }

  /** An individual is in the first sweep's result exactly when some INDI
      header names it, and its record is the fresh record of its last header
      updated by that header's block: a repeated id is last-wins. */
  lemma {:induction false} Sweep1Individual(lines: seq<string>, id: string)
    ensures id in Sweep1(lines).individuals.entries <==> LastFor(Headers(lines), id, Indi).Some?
    ensures id in Sweep1(lines).individuals.entries ==>
      Sweep1(lines).individuals.entries[id]
        == FoldIndi(NewIndividual(id), Block(lines, LastFor(Headers(lines), id, Indi).value))
    decreases |lines|
  {
    if lines != [] {
      var p := lines[..|lines| - 1];
      var x := lines[|lines| - 1];
      assert lines == p + [x];
      var hs := Headers(p);
      Sweep1Individual(p, id);
      Sweep1Cursor(p);
      HeadersSnoc(p, x);
      LastForSnoc(hs, Header(x), id, Indi);
      Sweep1StepIndi(Sweep1(p), x, id);
      var k := LastFor(hs, id, Indi);
      if Header(x) == Some((id, Indi)) {
        assert Block(lines, |p|) == [];
      } else if k.Some? {
        BlockEvolves(p, x, k.value);
        if LastAny(hs) == Some(k.value) {
          if Header(x).None? {
            FoldIndiSnoc(NewIndividual(id), Block(p, k.value), x);
          }
        } else if Sweep1(p).currentId == Some(id) && Sweep1(p).currentType == Some(Indi) {
          LastForIsCursor(hs, id, Indi);
        }
      } else if Sweep1(p).currentId == Some(id) && Sweep1(p).currentType == Some(Indi) {
        LastForIsCursor(hs, id, Indi);
      }
    }
  }

  /** The same for families. */
  lemma {:induction false} Sweep1Family(lines: seq<string>, id: string)
    ensures id in Sweep1(lines).families.entries <==> LastFor(Headers(lines), id, Fam).Some?
    ensures id in Sweep1(lines).families.entries ==>
      Sweep1(lines).families.entries[id]
        == FoldFam(NewFamily(id), Block(lines, LastFor(Headers(lines), id, Fam).value))
    decreases |lines|
  {
    if lines != [] {
      var p := lines[..|lines| - 1];
      var x := lines[|lines| - 1];
      assert lines == p + [x];
      var hs := Headers(p);
      Sweep1Family(p, id);
      Sweep1Cursor(p);
      HeadersSnoc(p, x);
      LastForSnoc(hs, Header(x), id, Fam);
      Sweep1StepFam(Sweep1(p), x, id);
      var k := LastFor(hs, id, Fam);
      if Header(x) == Some((id, Fam)) {
        assert Block(lines, |p|) == [];
      } else if k.Some? {
        BlockEvolves(p, x, k.value);
        if LastAny(hs) == Some(k.value) {
          if Header(x).None? {
            FoldFamSnoc(NewFamily(id), Block(p, k.value), x);
          }
        } else if Sweep1(p).currentId == Some(id) && Sweep1(p).currentType == Some(Fam) {
          LastForIsCursor(hs, id, Fam);
        }
      } else if Sweep1(p).currentId == Some(id) && Sweep1(p).currentType == Some(Fam) {
        LastForIsCursor(hs, id, Fam);
      }
    }
  }

  /** The dictionaries list their ids in order of first appearance of a
      header: a repeated header replaces the record but keeps its place. */
  lemma {:induction false} Sweep1Keys(lines: seq<string>)
    ensures Sweep1(lines).individuals.keys == FirstIds(Headers(lines), Indi)
    ensures Sweep1(lines).families.keys == FirstIds(Headers(lines), Fam)
    decreases |lines|
  {
    if lines != [] {
      var p := lines[..|lines| - 1];
      var x := lines[|lines| - 1];
      assert lines == p + [x];
      Sweep1Keys(p);
      HeadersSnoc(p, x);
      SnocPrefix(Headers(p), Header(x));
    }
  }

  /** Lines before the first header change nothing. */
  lemma {:induction false} Sweep1Preamble(lines: seq<string>)
    requires LastAny(Headers(lines)).None?
    ensures Sweep1(lines) == Sweep1Start()
    decreases |lines|
  {
    if lines != [] {
      var p := lines[..|lines| - 1];
      var x := lines[|lines| - 1];
      assert lines == p + [x];
      HeadersSnoc(p, x);
      SnocPrefix(Headers(p), Header(x));
      assert Header(x).None?;
      Sweep1Preamble(p);
    }
  }

  /** Sweep 1 over two pieces is sweep 1 over the second from where the
      first left off. */
  lemma {:induction false} Run1Concat(s: Sweep1State, a: seq<string>, b: seq<string>)
    requires Sweep1Inv(s)
    ensures Run1(s, a + b) == Run1(Run1(s, a), b)
    decreases |b|
  {
    if b == [] {
      assert a + b == a;
    } else {
      var q := b[..|b| - 1];
      assert (a + b)[..|a + b| - 1] == a + q && (a + b)[|a + b| - 1] == b[|b| - 1];
      Run1Concat(s, a, q);
    }
  }

  /** Lines before the first header make no difference to sweep 1. */
  lemma Sweep1SkipsPreamble(pre: seq<string>, rest: seq<string>)
    requires LastAny(Headers(pre)).None?
    ensures Sweep1(pre + rest) == Sweep1(rest)
  {
    Run1Concat(Sweep1Start(), pre, rest);
    Sweep1Preamble(pre);
  }
}
