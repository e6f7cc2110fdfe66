/** How the parser reads one line: header detection, the tag prefixes it
    tests, the value it takes from a tagged line, and the name split. */
module GedcomSyntax {
  import opened Wrappers
  import opened PyStr

  datatype RecordType = Indi | Fam

  function TypeName(t: RecordType): string {
    match t
    case Indi => "INDI"
    case Fam => "FAM"
  }

  /** Level-0 record header: `line.split(" ", 2)` must give exactly `"0"`, a
      token starting with `@`, and exactly `INDI` or `FAM`. The record id is
      the token with every leading and trailing `@` removed. */
  function Header(line: string): Option<(string, RecordType)> {
    var parts := SplitSpace2(line);
    if |parts| == 3 && parts[0] == "0" && StartsWith(parts[1], "@")
       && (parts[2] == "INDI" || parts[2] == "FAM")
    then Some((StripAt(parts[1]), if parts[2] == "INDI" then Indi else Fam))
    else None
  }

  /** The header test of the birth sweep, which accepts `INDI` only. */
  function IndiId(line: string): Option<string> {
    match Header(line)
    case Some((id, Indi)) => Some(id)
    case _ => None
  }

  const NameTag := "1 NAME "
  const FamcTag := "1 FAMC "
  const HusbTag := "1 HUSB "
  const WifeTag := "1 WIFE "
  const ChilTag := "1 CHIL "
  const BirtTag := "1 BIRT"
  const LevelOneTag := "1 "
  const DateTag := "2 DATE "
  const PlacTag := "2 PLAC "

  /** `x or None` for a string `x`: the empty string becomes `None`. */
  function OrNone(s: string): (r: Option<string>)
    ensures r.None? <==> s == ""
    ensures r.Some? ==> r.value == s
  {
    if s == "" then None else Some(s)
  }

  /** `x.strip() or None`, as the NAME groups and the DATE/PLAC values are
      stored: `None` exactly when the value holds nothing but whitespace (or
      nothing at all), and otherwise a value that stripping again keeps. */
  lemma OrNoneStrip(s: string)
    ensures OrNone(Strip(s)).None? <==> forall k :: 0 <= k < |s| ==> IsSpace(s[k])
    ensures OrNone(Strip(s)).Some? ==> Strip(OrNone(Strip(s)).value) == OrNone(Strip(s)).value
  {
    StripEmptyIff(s, IsSpace);
    StripIdempotent(s, IsSpace);
  }

  /** The reference on a FAMC/HUSB/WIFE/CHIL line:
      `line[len(tag):].strip().strip("@")`. */
  function RefValue(line: string, tag: string): string
    requires StartsWith(line, tag)
  {
    StripAt(Strip(After(line, tag)))
  }

  /** `re.match(r"([^/]+)/([^/]+)/?", v)` with its two groups, computed
      from the first `/` of `v` and the next `/` after it. */
  function NameMatch(v: string): Option<(string, string)> {
    match IndexOf(v, '/')
    case None => None
    case Some(p) =>
      if p == 0 || p + 1 == |v| || v[p + 1] == '/' then None
      else
        var rest := v[p + 1..];
        var g2 := match IndexOf(rest, '/') case None => rest case Some(q) => rest[..q];
        Some((v[..p], g2))
  }

  /** What the pattern means: it matches at the start of `v` when some
      non-`/` text is followed by the first `/` and at least one non-`/`
      character. */
  lemma NameMatchIff(v: string)
    ensures NameMatch(v).Some? <==>
      exists p :: 0 < p < |v| - 1 && v[p] == '/' && '/' !in v[..p] && v[p + 1] != '/'
  {
    match IndexOf(v, '/')
    case None =>
      forall p | 0 <= p < |v| ensures v[p] != '/' {
        assert v[p] in v;
      }
    case Some(p) =>
      if p == 0 || p + 1 == |v| || v[p + 1] == '/' {
        forall p' | 0 < p' < |v| - 1 && v[p'] == '/' && '/' !in v[..p'] ensures p' == p {
          IndexOfFirst(v, '/', p');
        }
      } else {
        assert 0 < p < |v| - 1 && v[p] == '/' && '/' !in v[..p] && v[p + 1] != '/';
      }
  }

  /** On a match, group 1 is all of `v` before the first `/` and group 2 runs
      to the next `/` or to the end; neither is empty or holds a `/`. */
  lemma NameMatchGroups(v: string)
    requires NameMatch(v).Some?
    ensures var m := NameMatch(v).value;
      && m.0 != "" && '/' !in m.0
      && m.1 != "" && '/' !in m.1
      && StartsWith(v, m.0 + "/" + m.1)
      && (|v| == |m.0| + 1 + |m.1| || v[|m.0| + 1 + |m.1|] == '/')
  {
    var p := IndexOf(v, '/').value;
    var rest := v[p + 1..];
    var g2 := match IndexOf(rest, '/') case None => rest case Some(q) => rest[..q];
    assert v[..p + 1 + |g2|] == v[..p] + "/" + g2;
  }

  /** Conversely, a name built as `<first>/<last>` followed by nothing or by
      a `/` splits into exactly those two groups. */
  lemma NameMatchOf(a: string, b: string, tail: string)
    requires a != "" && '/' !in a && b != "" && '/' !in b
    requires tail == "" || tail[0] == '/'
    ensures NameMatch(a + "/" + b + tail) == Some((a, b))
  {
    var v := a + "/" + b + tail;
    assert |v| == |a| + 1 + |b| + |tail|;
    assert v[..|a|] == a && v[|a|] == '/';
    IndexOfFirst(v, '/', |a|);
    var rest := v[|a| + 1..];
    assert rest == b + tail;
    assert v[|a| + 1] == rest[0] == b[0] != '/';
    if tail == "" {
      assert rest == b;
      assert IndexOf(rest, '/') == None;
    } else {
      assert rest[..|b|] == b && rest[|b|] == '/';
      IndexOfFirst(rest, '/', |b|);
      assert IndexOf(rest, '/') == Some(|b|);
    }
  }

  /** A line of the form `0 <token> INDI` or `0 <token> FAM`, with a
      space-free token starting with `@`, is a header for the token with its
      `@` stripped. */
  lemma HeaderOfShape(tok: string, t: RecordType)
    requires ' ' !in tok && StartsWith(tok, "@")
    ensures Header("0 " + tok + " " + TypeName(t)) == Some((StripAt(tok), t))
  {
    assert "0" + " " == "0 ";
    SplitSpace2Of("0", tok, TypeName(t));
  }

  /** Conversely every header has that exact form: nothing before the `0`,
      single spaces, and nothing after the type name. */
  lemma HeaderHasShape(line: string) returns (tok: string)
    requires Header(line).Some?
    ensures ' ' !in tok && StartsWith(tok, "@")
    ensures line == "0 " + tok + " " + TypeName(Header(line).value.1)
    ensures Header(line).value.0 == StripAt(tok)
  {
    var parts := SplitSpace2(line);
    assert |parts| == 3 && parts[0] == "0";
    tok := parts[1];
    SplitSpace2Parts(line);
    assert ' ' !in parts[1];
    assert TypeName(Header(line).value.1) == parts[2];
    assert "0" + " " == "0 ";
  }

  /** A header starts with `0 `; so a line starting with another character
      (every `1 ...` and `2 ...` tag line) is never a header. */
  lemma HeaderStartsWithZero(line: string)
    requires Header(line).Some?
    ensures StartsWith(line, "0 ")
  {
    var parts := SplitSpace2(line);
    assert |parts| == 3 && parts[0] == "0";
    JoinStartsWith(parts[0], parts[1], parts[2]);
    assert parts[0] + " " == "0 ";
  }

  /** A line that starts with anything but `0` is never a header: in
      particular no tag line of level 1 or 2. */
  lemma TagLineIsNoHeader(line: string, tag: string)
    requires tag != [] && tag[0] != '0' && StartsWith(line, tag)
    ensures Header(line) == None
  {
    if Header(line).Some? {
      HeaderStartsWithZero(line);
    }
  }

  /** An indented line is never a header. */
  lemma IndentedIsNoHeader(line: string)
    ensures Header(" " + line) == None
  {
    var l := " " + line;
    if Header(l).Some? {
      HeaderStartsWithZero(l);
    }
  }

  /** A line ending in a space is never a header (so `0 @I1@ INDI ` is not). */
  lemma TrailingSpaceIsNoHeader(line: string)
    requires line != [] && line[|line| - 1] == ' '
    ensures Header(line) == None
  {
    if Header(line).Some? {
      HeaderEndsWithTypeName(line);
    }
  }

  lemma HeaderEndsWithTypeName(line: string)
    requires Header(line).Some?
    ensures line[|line| - 1] == 'I' || line[|line| - 1] == 'M'
  {
    var t := Header(line).value.1;
    var tok := HeaderHasShape(line);
    assert line[|line| - 1] == TypeName(t)[|TypeName(t)| - 1];
  }

  /** The two name examples: `Jean /Dupont/` splits into `Jean ` and
      `Dupont`, which strip to `Jean` and `Dupont`; `NoSlashesHere` does not
      match. */
  lemma NameMatchJeanDupont()
    ensures NameMatch("Jean /Dupont/") == Some(("Jean ", "Dupont"))
  {
    var a, b := "Jean ", "Dupont";
    assert '/' !in a && '/' !in b;
    NameMatchOf(a, b, "/");
    assert "Jean /Dupont/" == a + "/" + b + "/";
  }

  lemma StripJeanDupont()
    ensures Strip("Jean ") == "Jean" && Strip("Dupont") == "Dupont"
  {
    StripDupont();
    StripJean();
  }

  lemma StripDupont()
    ensures Strip("Dupont") == "Dupont"
  {
    var s := "Dupont";
    assert s[0] == 'D' && s[5] == 't';
    StripKeeps(s, IsSpace);
  }

  lemma StripJean()
    ensures Strip("Jean ") == "Jean"
  {
    var j := "Jean";
    assert j[0] == 'J' && j[3] == 'n';
    StripDropsLast(j, ' ', IsSpace);
    assert "Jean " == j + [' '];
  }

  lemma NameMatchNoSlashes()
    ensures NameMatch("NoSlashesHere") == None
  {
    assert '/' !in "NoSlashesHere";
  }
}
