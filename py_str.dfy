/** The handful of Python string operations that the parser and the
    duplicate finder use, on `string` (that is, `seq<char>`). */
module PyStr {
  import opened Wrappers

  /** `s.startswith(prefix)` */
  predicate StartsWith(s: string, prefix: string) {
    |prefix| <= |s| && s[..|prefix|] == prefix
  }

  /** Text joined from parts with single spaces starts with its first part
      and a space. */
  lemma JoinStartsWith(a: string, b: string, c: string)
    ensures StartsWith(a + " " + b + " " + c, a + " ")
  {
    assert (a + " " + b + " " + c)[..|a| + 1] == a + " ";
  }

  /** `s[len(prefix):]` after a successful `s.startswith(prefix)` */
  function After(s: string, prefix: string): (r: string)
    requires StartsWith(s, prefix)
    ensures s == prefix + r
  {
    s[|prefix|..]
  }

  /** Python's `str.isspace()` on one character: the Unicode white space
      characters that `str.strip()` removes. */
  predicate IsSpace(c: char) {
    || ('\t' <= c <= '\r')
    || ('\U{1C}' <= c <= '\U{1F}')
    || c == ' '
    || c == '\U{85}'
    || c == '\U{A0}'
    || c == '\U{1680}'
    || ('\U{2000}' <= c <= '\U{200A}')
    || c == '\U{2028}'
    || c == '\U{2029}'
    || c == '\U{202F}'
    || c == '\U{205F}'
    || c == '\U{3000}'
  }

  predicate IsAt(c: char) {
    c == '@'
  }

  /** Drops the leading characters that satisfy `cut`. */
  function TrimLeft(s: string, cut: char -> bool): (r: string)
    ensures |r| <= |s| && r == s[|s| - |r|..]
  {
    if s != [] && cut(s[0]) then TrimLeft(s[1..], cut) else s
  }

  /** What `TrimLeft` drops is cut, and what it keeps does not start with a
      character to cut. */
  lemma {:induction false} TrimLeftCuts(s: string, cut: char -> bool)
    ensures forall k :: 0 <= k < |s| - |TrimLeft(s, cut)| ==> cut(s[k])
    ensures TrimLeft(s, cut) == [] || !cut(TrimLeft(s, cut)[0])
    decreases |s|
  {
    if s != [] && cut(s[0]) {
      TrimLeftCuts(s[1..], cut);
    }
  }

  /** Drops the trailing characters that satisfy `cut`. */
  function TrimRight(s: string, cut: char -> bool): (r: string)
    ensures |r| <= |s| && r == s[..|r|]
  {
    if s != [] && cut(s[|s| - 1]) then TrimRight(s[..|s| - 1], cut) else s
  }

  lemma {:induction false} TrimRightCuts(s: string, cut: char -> bool)
    ensures forall k :: |TrimRight(s, cut)| <= k < |s| ==> cut(s[k])
    ensures TrimRight(s, cut) == [] || !cut(TrimRight(s, cut)[|TrimRight(s, cut)| - 1])
    decreases |s|
  {
    if s != [] && cut(s[|s| - 1]) {
      TrimRightCuts(s[..|s| - 1], cut);
    }
  }

  /** `s.strip(chars)` where `cut` tells which characters are in `chars`. */
  function StripBy(s: string, cut: char -> bool): (r: string)
    ensures |r| <= |s|
  {
    TrimRight(TrimLeft(s, cut), cut)
  }

  /** What `strip` keeps is the longest middle slice of `s` that neither
      starts nor ends with a character to cut: everything before and after
      it is cut. */
  lemma StripBySlice(s: string, cut: char -> bool) returns (i: nat, j: nat)
    ensures i <= j <= |s| && StripBy(s, cut) == s[i..j]
    ensures forall k :: 0 <= k < i ==> cut(s[k])
    ensures forall k :: j <= k < |s| ==> cut(s[k])
    ensures StripBy(s, cut) == [] || (!cut(StripBy(s, cut)[0]) && !cut(StripBy(s, cut)[|StripBy(s, cut)| - 1]))
  {
    var l := TrimLeft(s, cut);
    var r := TrimRight(l, cut);
    TrimLeftCuts(s, cut);
    TrimRightCuts(l, cut);
    i := |s| - |l|;
    j := i + |r|;
    assert r == s[i..j];
    forall k | j <= k < |s| ensures cut(s[k]) {
      assert s[k] == l[k - i];
    }
  }

  /** `s.strip()` */
  function Strip(s: string): string {
    StripBy(s, IsSpace)
  }

  /** `s.strip("@")` */
  function StripAt(s: string): string {
    StripBy(s, IsAt)
  }

  /** Stripping leaves nothing exactly when every character is cut: this is
      what turns a whitespace-only value into `None` under `x.strip() or None`. */
  lemma StripEmptyIff(s: string, cut: char -> bool)
    ensures StripBy(s, cut) == [] <==> forall k :: 0 <= k < |s| ==> cut(s[k])
  {
    var i, j := StripBySlice(s, cut);
    if StripBy(s, cut) != [] {
      assert s[i] == StripBy(s, cut)[0];
    }
  }

  /** A string that neither starts nor ends with a character to cut is
      left as it is. */
  lemma StripKeeps(s: string, cut: char -> bool)
    requires s == [] || (!cut(s[0]) && !cut(s[|s| - 1]))
    ensures StripBy(s, cut) == s
  {
    assert TrimLeft(s, cut) == s;
  }

  /** Stripping a word followed by one character to cut gives the word. */
  lemma StripDropsLast(w: string, c: char, cut: char -> bool)
    requires w != [] && !cut(w[0]) && !cut(w[|w| - 1]) && cut(c)
    ensures StripBy(w + [c], cut) == w
  {
    var s := w + [c];
    assert s[0] == w[0] && s[..|w|] == w;
    assert TrimLeft(s, cut) == s;
    assert TrimRight(s, cut) == TrimRight(w, cut);
  }

  /** Stripping twice is stripping once. */
  lemma StripIdempotent(s: string, cut: char -> bool)
    ensures StripBy(StripBy(s, cut), cut) == StripBy(s, cut)
  {
    var _, _ := StripBySlice(s, cut);
    StripKeeps(StripBy(s, cut), cut);
  }

  /** `c.lower()` on the characters the model covers: ASCII capitals and the
      Latin-1 capitals U+00C0..U+00DE except the multiplication sign U+00D7. */
  function LowerChar(c: char): char {
    if 'A' <= c <= 'Z' || ('\U{C0}' <= c <= '\U{DE}' && c != '\U{D7}')
    then (c as int + 32) as char
    else c
  }

  /** `s.lower()`, character by character. */
  function Lower(s: string): (r: string)
    ensures |r| == |s|
    ensures forall k :: 0 <= k < |s| ==> r[k] == LowerChar(s[k])
  {
    seq(|s|, k requires 0 <= k < |s| => LowerChar(s[k]))
  }

  /** The index of the first occurrence of `c` in `s` (`s.find(c)`, with
      `None` for -1). */
  function IndexOf(s: string, c: char): (r: Option<nat>)
    ensures r.Some? ==> r.value < |s| && s[r.value] == c && c !in s[..r.value]
    ensures r.None? ==> c !in s
  {
    if s == [] then None
    else if s[0] == c then Some(0)
    else match IndexOf(s[1..], c)
      case None => None
      case Some(i) =>
        assert s[..i + 1] == [s[0]] + s[1..][..i];
        Some(i + 1)
  }

  /** The first occurrence is unique: an index holding `c` with no `c`
      before it is what `IndexOf` returns. */
  lemma IndexOfFirst(s: string, c: char, i: nat)
    requires i < |s| && s[i] == c && c !in s[..i]
    ensures IndexOf(s, c) == Some(i)
  {
    assert s[i] in s;
    var j := IndexOf(s, c).value;
    assert forall k :: 0 <= k < i ==> s[k] != c by {
      forall k | 0 <= k < i ensures s[k] != c { assert s[..i][k] == s[k]; }
    }
    assert forall k :: 0 <= k < j ==> s[k] != c by {
      forall k | 0 <= k < j ensures s[k] != c { assert s[..j][k] == s[k]; }
    }
  }

  /** `s.split(" ", 2)`: at most two cuts, at the first two single spaces.
      Joining the parts with single spaces gives `s` back. */
  function SplitSpace2(s: string): (parts: seq<string>)
    ensures 1 <= |parts| <= 3
    ensures |parts| == 1 ==> s == parts[0]
    ensures |parts| == 2 ==> s == parts[0] + " " + parts[1]
    ensures |parts| == 3 ==> s == parts[0] + " " + parts[1] + " " + parts[2]
  {
    match IndexOf(s, ' ')
    case None => [s]
    case Some(i) =>
      var rest := s[i + 1..];
      CutAtSpace(s, i);
      match IndexOf(rest, ' ')
      case None => [s[..i], rest]
      case Some(j) =>
        CutAtSpace(rest, j);
        [s[..i], rest[..j], rest[j + 1..]]
  }

  /** The cuts are at the first spaces: no part but the third holds a
      space, which with the joins above pins the result down completely. */
  lemma SplitSpace2Parts(s: string)
    ensures forall k :: 0 <= k < |SplitSpace2(s)| - 1 ==> ' ' !in SplitSpace2(s)[k]
    ensures |SplitSpace2(s)| < 3 ==> ' ' !in SplitSpace2(s)[|SplitSpace2(s)| - 1]
  {
    match IndexOf(s, ' ')
    case None =>
    case Some(i) =>
      var rest := s[i + 1..];
      match IndexOf(rest, ' ')
      case None =>
      case Some(j) =>
  }

  /** Splitting text built from two space-free parts and a third part gives
      exactly those three parts back. */
  lemma SplitSpace2Of(a: string, b: string, c: string)
    requires ' ' !in a && ' ' !in b
    ensures SplitSpace2(a + " " + b + " " + c) == [a, b, c]
  {
    var s := a + " " + b + " " + c;
    assert s[..|a|] == a;
    IndexOfFirst(s, ' ', |a|);
    var rest := s[|a| + 1..];
    assert rest == b + " " + c;
    assert rest[..|b|] == b;
    IndexOfFirst(rest, ' ', |b|);
    assert rest[|b| + 1..] == c;
  }

  lemma CutAtSpace(s: string, i: nat)
    requires i < |s| && s[i] == ' '
    ensures s == s[..i] + " " + s[i + 1..]
  {
    assert s == s[..i] + [s[i]] + s[i + 1..];
  }
}
