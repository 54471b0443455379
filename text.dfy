/** String utilities the explanation parser relies on: Python's `str.isspace`,
    `str.lower`, `str.strip`, `str.splitlines`, the `in` substring test and the
    markup-removing `re.sub(r"[*#]+", "", text)`, all restricted to ASCII. */
module Text {

  /** Python `str.isspace` on ASCII: tab, line feed, vertical tab, form feed,
      carriage return, the four information separators 0x1C-0x1F, and space. */
  predicate IsSpace(c: char) {
    var n := c as int;
    (9 <= n <= 13) || (28 <= n <= 31) || n == 32
  }

  /** A character at which `str.splitlines` ends a line (ASCII part). */
  predicate IsLineBreak(c: char) {
    var n := c as int;
    (10 <= n <= 13) || (28 <= n <= 30)
  }

  lemma LineBreakIsSpace(c: char)
    ensures IsLineBreak(c) ==> IsSpace(c)
  {
  }

  /** The two markup characters the parser strips. */
  predicate IsMarkup(c: char) {
    c == '*' || c == '#'
  }

  predicate IsUpperLetter(c: char) { 'A' <= c <= 'Z' }
  predicate IsLowerLetter(c: char) { 'a' <= c <= 'z' }

  function LowerChar(c: char): (r: char)
    ensures IsUpperLetter(c) ==> r as int == c as int + 32
    ensures !IsUpperLetter(c) ==> r == c
    ensures IsSpace(r) == IsSpace(c) && IsMarkup(r) == IsMarkup(c)
  {
    if IsUpperLetter(c) then (c as int + 32) as char else c
  }

  function UpperChar(c: char): (r: char)
    ensures IsLowerLetter(c) ==> r as int == c as int - 32
    ensures !IsLowerLetter(c) ==> r == c
    ensures IsSpace(r) == IsSpace(c) && IsMarkup(r) == IsMarkup(c)
  {
    if IsLowerLetter(c) then (c as int - 32) as char else c
  }

  /** Python `str.lower` on ASCII. */
  function Lower(s: string): (r: string)
    ensures |r| == |s|
    ensures forall i :: 0 <= i < |s| ==> r[i] == LowerChar(s[i])
  {
    seq(|s|, i requires 0 <= i < |s| => LowerChar(s[i]))
  }

  /** `pat in s`: `pat` occurs as a contiguous substring of `s`. */
  predicate Contains(s: string, pat: string)
    decreases |s|
  {
    if |s| < |pat| then false
    else s[..|pat|] == pat || (s != [] && Contains(s[1..], pat))
  }

  /** `pat` occurs in `s` starting at index `i`. */
  predicate OccursAt(s: string, pat: string, i: int) {
    0 <= i && i + |pat| <= |s| && s[i..i + |pat|] == pat
  }

  /** `Contains` is the substring test: it holds exactly when the pattern
      occurs at some index. */
  lemma {:induction false} ContainsIff(s: string, pat: string)
    ensures Contains(s, pat) <==> exists i :: OccursAt(s, pat, i)
    decreases |s|
  {
    if Contains(s, pat) {
      ContainsWitness(s, pat);
    } else {
      forall i | OccursAt(s, pat, i) ensures false {
        ContainsAt(s, pat, i);
      }
    }
  }

  lemma {:induction false} ContainsWitness(s: string, pat: string)
    requires Contains(s, pat)
    ensures exists i :: OccursAt(s, pat, i)
    decreases |s|
  {
    if s[..|pat|] == pat {
      assert OccursAt(s, pat, 0);
    } else {
      ContainsWitness(s[1..], pat);
      var i :| OccursAt(s[1..], pat, i);
      assert s[1..][i..i + |pat|] == s[i + 1..i + 1 + |pat|];
      assert OccursAt(s, pat, i + 1);
    }
  }

  lemma {:induction false} ContainsAt(s: string, pat: string, i: nat)
    requires i + |pat| <= |s| && s[i..i + |pat|] == pat
    ensures Contains(s, pat)
    decreases i
  {
    if i > 0 {
      assert s[1..][i - 1..i - 1 + |pat|] == s[i..i + |pat|];
      ContainsAt(s[1..], pat, i - 1);
    }
  }

  /** `s` with every whitespace character deleted: what survives a split that
      only ever discards whitespace. */
  function NoSpaces(s: string): (r: string)
    ensures |r| <= |s|
    ensures forall i :: 0 <= i < |r| ==> !IsSpace(r[i])
  {
    if s == [] then []
    else (if IsSpace(s[0]) then [] else [s[0]]) + NoSpaces(s[1..])
  }

  lemma {:induction false} NoSpacesAppend(a: string, b: string)
    ensures NoSpaces(a + b) == NoSpaces(a) + NoSpaces(b)
  {
    if a == [] {
      assert a + b == b;
    } else {
      assert (a + b)[0] == a[0];
      assert (a + b)[1..] == a[1..] + b;
      NoSpacesAppend(a[1..], b);
    }
  }

  lemma {:induction false} NoSpacesOfSpaces(s: string)
    requires forall i :: 0 <= i < |s| ==> IsSpace(s[i])
    ensures NoSpaces(s) == []
  {
    if s != [] {
      NoSpacesOfSpaces(s[1..]);
    }
  }

  /** Removing a run of whitespace from the middle of a string does not change
      its visible characters. */
  lemma {:induction false} DropSpaceRun(s: string, k: nat, e: nat)
    requires k <= e <= |s|
    requires forall j :: k <= j < e ==> IsSpace(s[j])
    ensures NoSpaces(s) == NoSpaces(s[..k]) + NoSpaces(s[e..])
  {
    assert s == s[..k] + s[k..e] + s[e..];
    assert forall i :: 0 <= i < e - k ==> s[k..e][i] == s[k + i];
    NoSpacesAppend(s[..k] + s[k..e], s[e..]);
    NoSpacesAppend(s[..k], s[k..e]);
    NoSpacesOfSpaces(s[k..e]);
  }

  /** Concatenation of a sequence of strings. */
  function Flatten(ss: seq<string>): string {
    if ss == [] then [] else ss[0] + Flatten(ss[1..])
  }

  lemma FlattenCons(a: string, ss: seq<string>)
    ensures Flatten([a] + ss) == a + Flatten(ss)
  {
    assert ([a] + ss)[1..] == ss;
  }

  // ---------------------------------------------------------------------------
  // Markup stripping
  // ---------------------------------------------------------------------------

  /** `a` can be obtained from `b` by deleting characters. */
  predicate IsSubsequence(a: string, b: string)
    decreases |b|
  {
    if a == [] then true
    else if b == [] then false
    else if a[0] == b[0] then IsSubsequence(a[1..], b[1..])
    else IsSubsequence(a, b[1..])
  }

  /** `re.sub(r"[*#]+", "", text)`: every run of `*` and `#` removed. The result
      holds no markup, is a subsequence of the input, and keeps every other
      character exactly as often as the input has it. */
  function StripMarkup(s: string): (r: string)
    ensures |r| <= |s|
    ensures forall i :: 0 <= i < |r| ==> !IsMarkup(r[i])
  {
    if s == [] then []
    else (if IsMarkup(s[0]) then [] else [s[0]]) + StripMarkup(s[1..])
  }

  /** What stripping keeps: a subsequence of the input holding every non-markup
      character exactly as often as the input does. */
  lemma {:induction false} StripMarkupKeeps(s: string)
    ensures IsSubsequence(StripMarkup(s), s)
    ensures forall c :: !IsMarkup(c) ==> multiset(StripMarkup(s))[c] == multiset(s)[c]
  {
    if s != [] {
      var rest := StripMarkup(s[1..]);
      StripMarkupKeeps(s[1..]);
      assert s == [s[0]] + s[1..];
      if IsMarkup(s[0]) {
        assert StripMarkup(s) == rest;
        assert rest == [] || rest[0] != s[0];
      } else {
        assert StripMarkup(s) == [s[0]] + rest;
        assert ([s[0]] + rest)[1..] == rest;
      }
    }
  }

  /** Stripping is idempotent and the identity on markup-free text. */
  lemma {:induction false} StripMarkupOfClean(s: string)
    requires forall i :: 0 <= i < |s| ==> !IsMarkup(s[i])
    ensures StripMarkup(s) == s
  {
    if s != [] {
      StripMarkupOfClean(s[1..]);
    }
  }

  /** Stripping distributes over concatenation, so markup placed anywhere
      (around a header, inside a word) disappears without a trace. */
  lemma {:induction false} StripMarkupAppend(a: string, b: string)
    ensures StripMarkup(a + b) == StripMarkup(a) + StripMarkup(b)
  {
    if a == [] {
      assert a + b == b;
    } else {
      assert (a + b)[0] == a[0];
      assert (a + b)[1..] == a[1..] + b;
      StripMarkupAppend(a[1..], b);
    }
  }

  // ---------------------------------------------------------------------------
  // Trimming
  // ---------------------------------------------------------------------------

  /** No leading and no trailing whitespace. */
  predicate Trimmed(s: string) {
    s == [] || (!IsSpace(s[0]) && !IsSpace(s[|s| - 1]))
  }

  function SkipSpaces(s: string, i: nat): (k: nat)
    requires i <= |s|
    ensures i <= k <= |s|
    ensures forall j :: i <= j < k ==> IsSpace(s[j])
    ensures k < |s| ==> !IsSpace(s[k])
    decreases |s| - i
  {
    if i < |s| && IsSpace(s[i]) then SkipSpaces(s, i + 1) else i
  }

  function BackSpaces(s: string, lo: nat, k: nat): (e: nat)
    requires lo <= k <= |s|
    ensures lo <= e <= k
    ensures forall j :: e <= j < k ==> IsSpace(s[j])
    ensures e > lo ==> !IsSpace(s[e - 1])
    decreases k
  {
    if k > lo && IsSpace(s[k - 1]) then BackSpaces(s, lo, k - 1) else k
  }

  /** Python `str.strip()`: the result is trimmed, and what was removed from
      either end was whitespace only. */
  function Trim(s: string): (r: string)
    ensures Trimmed(r)
    ensures |r| <= |s|
  {
    var b := SkipSpaces(s, 0);
    s[b..BackSpaces(s, b, |s|)]
  }

  /** Trimming removes whitespace only, and only at the two ends: the result
      is a slice of the input whose outside is all whitespace, so whitespace
      inside the text is kept. */
  lemma TrimKeepsText(s: string)
    ensures NoSpaces(Trim(s)) == NoSpaces(s)
    ensures exists b, e :: StripsTo(s, b, e) && Trim(s) == s[b..e]
  {
    var b := SkipSpaces(s, 0);
    var e := BackSpaces(s, b, |s|);
    assert Trim(s) == s[b..e];
    assert StripsTo(s, b, e);
    DropSpaceEnds(s, b, e);
  }

  /** Everything of `s` outside `s[b..e]` is whitespace. */
  predicate StripsTo(s: string, b: int, e: int) {
    0 <= b <= e <= |s| &&
    (forall j :: 0 <= j < b ==> IsSpace(s[j])) && (forall j :: e <= j < |s| ==> IsSpace(s[j]))
  }

  lemma DropSpaceEnds(s: string, b: nat, e: nat)
    requires b <= e <= |s|
    requires forall j :: 0 <= j < b ==> IsSpace(s[j])
    requires forall j :: e <= j < |s| ==> IsSpace(s[j])
    ensures NoSpaces(s[b..e]) == NoSpaces(s)
  {
    var p := s[..e];
    NoSpacesDropBack(s, e);
    assert forall j :: 0 <= j < b ==> p[j] == s[j];
    NoSpacesDropFront(p, b);
    assert p[b..] == s[b..e];
  }

  lemma {:induction false} NoSpacesDropFront(s: string, b: nat)
    requires b <= |s|
    requires forall j :: 0 <= j < b ==> IsSpace(s[j])
    ensures NoSpaces(s[b..]) == NoSpaces(s)
    decreases b
  {
    if b > 0 {
      var t := s[1..];
      assert forall j :: 0 <= j < b - 1 ==> t[j] == s[j + 1];
      NoSpacesDropFront(t, b - 1);
      assert t[b - 1..] == s[b..];
    }
  }

  lemma NoSpacesDropBack(s: string, e: nat)
    requires e <= |s|
    requires forall j :: e <= j < |s| ==> IsSpace(s[j])
    ensures NoSpaces(s[..e]) == NoSpaces(s)
  {
    DropSpaceRun(s, e, |s|);
    var x := NoSpaces(s[..e]);
    assert s[|s|..] == [];
    assert x + [] == x;
  }

  lemma TrimOfTrimmed(s: string)
    requires Trimmed(s)
    ensures Trim(s) == s
  {
  }

  lemma TrimEmptyIffBlank(s: string)
    ensures Trim(s) == [] <==> forall i :: 0 <= i < |s| ==> IsSpace(s[i])
  {
    var b := SkipSpaces(s, 0);
    var e := BackSpaces(s, b, |s|);
    if Trim(s) == [] {
      assert b == e;
      forall i | 0 <= i < |s| ensures IsSpace(s[i]) {
        if i >= e {
        } else {
          assert i < b;
        }
      }
    }
  }

  // ---------------------------------------------------------------------------
  // Lines
  // ---------------------------------------------------------------------------

  function FirstBreak(s: string, i: nat): (k: nat)
    requires i <= |s|
    ensures i <= k <= |s|
    ensures forall j :: i <= j < k ==> !IsLineBreak(s[j])
    ensures k < |s| ==> IsLineBreak(s[k])
    decreases |s| - i
  {
    if i < |s| && !IsLineBreak(s[i]) then FirstBreak(s, i + 1) else i
  }

  /** The pieces between line-break characters: `str.splitlines`, except that
      `\r\n` is read as two breaks, a final line break is followed by an empty
      piece, and the empty text gives one empty piece instead of none. All of
      these extra pieces are empty, and the only caller drops empty pieces. */
  function RawLines(s: string): (r: seq<string>)
    ensures |r| >= 1
    ensures forall k, j :: 0 <= k < |r| && 0 <= j < |r[k]| ==> !IsLineBreak(r[k][j])
    decreases |s|
  {
    var k := FirstBreak(s, 0);
    if k == |s| then [s] else [s[..k]] + RawLines(s[k + 1..])
  }

  /** `ls` glued back together with one separator character between
      consecutive pieces. */
  function Interleave(ls: seq<string>, seps: string): string
    requires |ls| >= 1 && |seps| == |ls| - 1
    decreases |ls|
  {
    if |ls| == 1 then ls[0] else ls[0] + [seps[0]] + Interleave(ls[1..], seps[1..])
  }

  /** Every piece of `ls` is free of line breaks. */
  predicate BreakFree(ls: seq<string>) {
    forall k, j :: 0 <= k < |ls| && 0 <= j < |ls[k]| ==> !IsLineBreak(ls[k][j])
  }

  /** `ls` and `seps` cut `s`: gluing the pieces back together with the
      separators, each a line break, gives `s`. */
  predicate CutAtBreaks(s: string, ls: seq<string>, seps: string) {
    |ls| >= 1 && |seps| == |ls| - 1 &&
    (forall i :: 0 <= i < |seps| ==> IsLineBreak(seps[i])) &&
    s == Interleave(ls, seps)
  }

  /** The text is cut at its line breaks and nowhere else: gluing the pieces
      back with the removed characters, each a line break, gives the text. */
  lemma {:induction false} RawLinesCut(s: string)
    ensures exists seps :: CutAtBreaks(s, RawLines(s), seps)
    decreases |s|
  {
    var k := FirstBreak(s, 0);
    var ls := RawLines(s);
    if k == |s| {
      assert ls == [s];
      assert CutAtBreaks(s, ls, []);
    } else {
      var rest := s[k + 1..];
      RawLinesCut(rest);
      var seps' :| CutAtBreaks(rest, RawLines(rest), seps');
      assert ls == [s[..k]] + RawLines(rest);
      InterleaveCons(s[..k], s[k], RawLines(rest), seps');
      assert s == s[..k] + [s[k]] + rest;
      assert CutAtBreaks(s, ls, [s[k]] + seps');
    }
  }

  lemma InterleaveCons(a: string, c: char, ls: seq<string>, seps: string)
    requires |ls| >= 1 && |seps| == |ls| - 1
    ensures Interleave([a] + ls, [c] + seps) == a + [c] + Interleave(ls, seps)
  {
    assert ([a] + ls)[1..] == ls;
    assert ([c] + seps)[1..] == seps;
  }

  /** Conversely, any cut of the text at line breaks into break-free pieces is
      the one `RawLines` makes, so the lines are determined by the text. */
  lemma {:induction false} RawLinesUnique(ls: seq<string>, seps: string)
    requires |ls| >= 1 && |seps| == |ls| - 1
    requires BreakFree(ls)
    requires forall i :: 0 <= i < |seps| ==> IsLineBreak(seps[i])
    ensures RawLines(Interleave(ls, seps)) == ls
    decreases |ls|
  {
    var s := Interleave(ls, seps);
    if |ls| == 1 {
      assert forall j :: 0 <= j < |s| ==> !IsLineBreak(ls[0][j]);
      FirstBreakAt(s, |s|);
    } else {
      InterleaveHead(ls, seps);
      BreakFreeTail(ls);
      RawLinesUnique(ls[1..], seps[1..]);
      assert ls == [ls[0]] + ls[1..];
    }
  }

  /** The first line break of glued pieces is the first separator. */
  lemma InterleaveHead(ls: seq<string>, seps: string)
    requires |ls| >= 2 && |seps| == |ls| - 1
    requires BreakFree(ls) && IsLineBreak(seps[0])
    ensures var s, a := Interleave(ls, seps), ls[0];
      FirstBreak(s, 0) == |a| && s[..|a|] == a && s[|a| + 1..] == Interleave(ls[1..], seps[1..])
  {
    var s, a := Interleave(ls, seps), ls[0];
    var rest := Interleave(ls[1..], seps[1..]);
    assert s == a + [seps[0]] + rest;
    assert forall j :: 0 <= j < |a| ==> s[j] == a[j] && !IsLineBreak(a[j]);
    FirstBreakAt(s, |a|);
    assert s[..|a|] == a;
    assert s[|a| + 1..] == rest;
  }

  lemma BreakFreeTail(ls: seq<string>)
    requires ls != [] && BreakFree(ls)
    ensures BreakFree(ls[1..])
  {
    forall k, j | 0 <= k < |ls[1..]| && 0 <= j < |ls[1..][k]|
      ensures !IsLineBreak(ls[1..][k][j])
    {
      assert ls[1..][k] == ls[k + 1];
    }
  }

  lemma FirstBreakAt(s: string, k: nat)
    requires k <= |s|
    requires forall j :: 0 <= j < k ==> !IsLineBreak(s[j])
    requires k < |s| ==> IsLineBreak(s[k])
    ensures FirstBreak(s, 0) == k
  {
  }

  /** `[l.strip() for l in s.splitlines() if l.strip()]`. */
  function NonEmptyLines(s: string): (r: seq<string>)
    ensures forall k :: 0 <= k < |r| ==> r[k] != [] && Trimmed(r[k])
  {
    KeepNonBlank(RawLines(s))
  }

  function KeepNonBlank(ls: seq<string>): (r: seq<string>)
    ensures |r| <= |ls|
    ensures forall k :: 0 <= k < |r| ==> r[k] != [] && Trimmed(r[k])
  {
    if ls == [] then []
    else (if Trim(ls[0]) != [] then [Trim(ls[0])] else []) + KeepNonBlank(ls[1..])
  }

  /** One raw line: kept, stripped, exactly when it is not blank. */
  lemma KeepNonBlankSingle(l: string)
    ensures KeepNonBlank([l]) == if Trim(l) != [] then [Trim(l)] else []
  {
    assert [l][1..] == [];
  }

  /** The filter works line by line and keeps the lines' order, so no two raw
      lines are merged into one kept line. */
  lemma {:induction false} KeepNonBlankAppend(a: seq<string>, b: seq<string>)
    ensures KeepNonBlank(a + b) == KeepNonBlank(a) + KeepNonBlank(b)
    decreases |a|
  {
    if a == [] {
      assert a + b == b;
    } else {
      assert (a + b)[0] == a[0];
      assert (a + b)[1..] == a[1..] + b;
      KeepNonBlankAppend(a[1..], b);
    }
  }

  /** No kept line contains a line break. (That a line is never cut in two is
      `RawLinesCut`, and that lines are never merged is `KeepNonBlankAppend`.) */
  lemma {:induction false} NonEmptyLinesHaveNoBreaks(s: string)
    ensures forall k, j :: 0 <= k < |NonEmptyLines(s)| && 0 <= j < |NonEmptyLines(s)[k]| ==>
      !IsLineBreak(NonEmptyLines(s)[k][j])
  {
    KeepNonBlankNoBreaks(RawLines(s));
  }

  lemma {:induction false} KeepNonBlankNoBreaks(ls: seq<string>)
    requires forall k, j :: 0 <= k < |ls| && 0 <= j < |ls[k]| ==> !IsLineBreak(ls[k][j])
    ensures forall k, j :: 0 <= k < |KeepNonBlank(ls)| && 0 <= j < |KeepNonBlank(ls)[k]| ==>
      !IsLineBreak(KeepNonBlank(ls)[k][j])
  {
    if ls != [] {
      KeepNonBlankNoBreaks(ls[1..]);
      var t := Trim(ls[0]);
      var b := SkipSpaces(ls[0], 0);
      var e := BackSpaces(ls[0], b, |ls[0]|);
      assert t == ls[0][b..e];
      assert forall j :: 0 <= j < |t| ==> t[j] == ls[0][b + j];
    }
  }

  /** Splitting into lines loses no visible character and keeps their order:
      only whitespace (line breaks, indentation, blank lines) goes away. */
  lemma {:induction false} NonEmptyLinesKeepText(s: string)
    ensures NoSpaces(Flatten(NonEmptyLines(s))) == NoSpaces(s)
  {
    RawLinesKeepText(s);
    KeepNonBlankKeepsText(RawLines(s));
  }

  lemma {:induction false} RawLinesKeepText(s: string)
    ensures NoSpaces(Flatten(RawLines(s))) == NoSpaces(s)
    decreases |s|
  {
    var k := FirstBreak(s, 0);
    if k < |s| {
      var rest := s[k + 1..];
      RawLinesKeepText(rest);
      LineBreakIsSpace(s[k]);
      DropSpaceRun(s, k, k + 1);
      assert RawLines(s) == [s[..k]] + RawLines(rest);
      FlattenCons(s[..k], RawLines(rest));
      NoSpacesAppend(s[..k], Flatten(RawLines(rest)));
    } else {
      assert RawLines(s) == [s];
      FlattenCons(s, []);
      assert s + [] == s;
    }
  }

  lemma {:induction false} KeepNonBlankKeepsText(ls: seq<string>)
    ensures NoSpaces(Flatten(KeepNonBlank(ls))) == NoSpaces(Flatten(ls))
  {
    if ls != [] {
      KeepNonBlankKeepsText(ls[1..]);
      var t := Trim(ls[0]);
      TrimKeepsText(ls[0]);
      NoSpacesAppend(ls[0], Flatten(ls[1..]));
      if t != [] {
        NoSpacesAppend(t, Flatten(KeepNonBlank(ls[1..])));
        assert KeepNonBlank(ls) == [t] + KeepNonBlank(ls[1..]);
        assert Flatten(KeepNonBlank(ls)) == t + Flatten(KeepNonBlank(ls[1..]));
      } else {
        TrimEmptyIffBlank(ls[0]);
        NoSpacesOfSpaces(ls[0]);
        assert KeepNonBlank(ls) == KeepNonBlank(ls[1..]);
      }
    }
  }
}
