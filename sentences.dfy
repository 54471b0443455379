/** The sentence normaliser nested in the explanation parser (`split_sentences`):
    `re.split(r'(?<=[.!?])\s+', block.strip())`, then every piece trimmed,
    pieces of three characters or fewer dropped, and the rest `capitalize()`d. */
module Sentences {
  import opened Text

  predicate IsTerminal(c: char) {
    c == '.' || c == '!' || c == '?'
  }

  /** The pattern `(?<=[.!?])\s+` can start a match at index `k` of `s`. */
  predicate IsSplitPoint(s: string, k: int) {
    0 < k < |s| && IsTerminal(s[k - 1]) && IsSpace(s[k])
  }

  /** `s` holds no place where the splitter would cut it. */
  predicate NoSplit(s: string) {
    forall k :: 0 < k < |s| ==> !IsSplitPoint(s, k)
  }

  predicate EndsTerminal(s: string) {
    s != [] && IsTerminal(s[|s| - 1])
  }

  /** The first split point at or after `i`, or `|s|` when there is none. */
  function FirstSplit(s: string, i: nat): (k: nat)
    requires i <= |s|
    ensures i <= k <= |s|
    ensures forall j :: i <= j < k ==> !IsSplitPoint(s, j)
    ensures k < |s| ==> IsSplitPoint(s, k)
    decreases |s| - i
  {
    if i == |s| || IsSplitPoint(s, i) then i else FirstSplit(s, i + 1)
  }

  /** `re.split(r'(?<=[.!?])\s+', s)`: cut `s` at every maximal run of
      whitespace that directly follows a `.`, `!` or `?`, dropping the run and
      keeping the punctuation with the piece before it. The search resumes
      after the run, whose last character is whitespace, so the look-behind
      cannot match at the start of the remainder. */
  function Fragments(s: string): (r: seq<string>)
    ensures |r| >= 1
    ensures NoSplit(s) ==> r == [s]
    decreases |s|
  {
    if s == [] then [s]
    else
      var k := FirstSplit(s, 1);
      if k == |s| then [s] else [s[..k]] + Fragments(s[SkipSpaces(s, k)..])
  }

  /** First character not a lower-case letter, every other character not an
      upper-case letter: the shape `str.capitalize()` produces. */
  predicate IsCapitalized(s: string) {
    s != [] ==> !IsLowerLetter(s[0]) && forall i :: 1 <= i < |s| ==> !IsUpperLetter(s[i])
  }

  /** `str.capitalize()` on ASCII: the same text up to letter case, with the
      first character upper-cased and every other character lower-cased (the
      rest is not left untouched). */
  function Capitalize(s: string): (r: string)
    ensures |r| == |s|
    ensures IsCapitalized(r)
    ensures forall i :: 0 <= i < |s| ==> IsSpace(r[i]) == IsSpace(s[i]) && IsTerminal(r[i]) == IsTerminal(s[i])
  {
    if s == [] then [] else [UpperChar(s[0])] + Lower(s[1..])
  }

  /** Capitalising changes letter case only. */
  lemma CapitalizeSameText(s: string)
    ensures Lower(Capitalize(s)) == Lower(s)
  {
    var r := Capitalize(s);
    forall i | 0 <= i < |s| ensures Lower(r)[i] == Lower(s)[i] {
      CapitalizeAt(s, i);
    }
  }

  lemma CapitalizeAt(s: string, i: nat)
    requires i < |s|
    ensures LowerChar(Capitalize(s)[i]) == LowerChar(s[i])
  {
    var c := s[i];
    if i > 0 {
      assert Capitalize(s)[i] == Lower(s[1..])[i - 1] == LowerChar(c);
    } else {
      assert Capitalize(s)[i] == UpperChar(c);
    }
  }

  lemma CapitalizeOfCapitalized(s: string)
    requires IsCapitalized(s)
    ensures Capitalize(s) == s
  {
    if s != [] {
      assert Capitalize(s) == [UpperChar(s[0])] + Lower(s[1..]);
      assert Lower(s[1..]) == s[1..];
      assert s == [s[0]] + s[1..];
    }
  }

  /** `capitalize` also lowers the rest of the sentence, acronyms included. */
  lemma CapitalizeLowersRest()
    ensures Capitalize("VPN") == "Vpn"
  {
    assert "VPN"[1..] == "PN";
    assert Lower("PN") == "pn";
  }

  /** A sentence as the normaliser emits it: longer than three characters,
      trimmed and capitalised. */
  predicate WellFormed(s: string) {
    |s| > 3 && Trimmed(s) && IsCapitalized(s)
  }

  /** The filtering and mapping comprehension over the split pieces. */
  function Keep(frags: seq<string>): (r: seq<string>)
    ensures |r| <= |frags|
    ensures forall k :: 0 <= k < |r| ==> WellFormed(r[k])
  {
    if frags == [] then [] else KeepPiece(frags[0]) + Keep(frags[1..])
  }

  /** What the comprehension makes of one piece. */
  function KeepPiece(f: string): (r: seq<string>)
    ensures |r| <= 1
    ensures forall k :: 0 <= k < |r| ==> WellFormed(r[k])
  {
    var t := Trim(f);
    if |t| > 3 then [Capitalize(t)] else []
  }

  /** One piece: kept, stripped and capitalised exactly when its stripped text
      is longer than three characters. */
  lemma KeepSingle(f: string)
    ensures Keep([f]) == if |Trim(f)| > 3 then [Capitalize(Trim(f))] else []
  {
    assert [f][1..] == [];
    assert Keep([f]) == KeepPiece(f) + [];
  }

  /** The comprehension works piece by piece and keeps the pieces' order. */
  lemma {:induction false} KeepAppend(a: seq<string>, b: seq<string>)
    ensures Keep(a + b) == Keep(a) + Keep(b)
    decreases |a|
  {
    if a == [] {
      assert a + b == b;
    } else {
      assert (a + b)[0] == a[0];
      assert (a + b)[1..] == a[1..] + b;
      KeepAppend(a[1..], b);
    }
  }

  /** `split_sentences(block)`. */
  function SplitSentences(block: string): (r: seq<string>)
    ensures forall k :: 0 <= k < |r| ==> WellFormed(r[k])
  {
    Keep(Fragments(Trim(block)))
  }

  /** `" ".join(ss)`. */
  function JoinSpaces(ss: seq<string>): string {
    if |ss| == 0 then ""
    else if |ss| == 1 then ss[0]
    else ss[0] + " " + JoinSpaces(ss[1..])
  }

  /** The join is as long as the pieces plus one character for each gap
      between two of them. */
  lemma {:induction false} JoinSpacesLength(ss: seq<string>)
    ensures ss != [] ==> |JoinSpaces(ss)| == |Flatten(ss)| + |ss| - 1
    ensures ss == [] ==> JoinSpaces(ss) == ""
  {
    if |ss| > 1 {
      JoinSpacesLength(ss[1..]);
      FlattenCons(ss[0], ss[1..]);
      assert ss == [ss[0]] + ss[1..];
    } else if |ss| == 1 {
      FlattenCons(ss[0], []);
      assert ss == [ss[0]] + [];
    }
  }

  /** Where the join puts things: a single sentence is returned as it is, and
      otherwise the first sentence is followed by one space and the join of
      the rest. */
  lemma JoinSpacesCons(ss: seq<string>)
    ensures |ss| == 1 ==> JoinSpaces(ss) == ss[0]
    ensures |ss| >= 2 ==> var r, n := JoinSpaces(ss), |ss[0]|;
      |r| > n && r[..n] == ss[0] && r[n] == ' ' && r[n + 1..] == JoinSpaces(ss[1..])
  {
    if |ss| >= 2 {
      var r, n := JoinSpaces(ss), |ss[0]|;
      assert r == ss[0] + " " + JoinSpaces(ss[1..]);
      assert r[..n] == ss[0];
      assert r[n + 1..] == JoinSpaces(ss[1..]);
    }
  }

  /** Joining adds whitespace only: the visible characters of the result are
      those of the pieces, in order. */
  lemma {:induction false} JoinSpacesKeepsText(ss: seq<string>)
    ensures NoSpaces(JoinSpaces(ss)) == NoSpaces(Flatten(ss))
  {
    if |ss| == 1 {
      FlattenCons(ss[0], []);
      assert ss == [ss[0]] + [];
      assert ss[0] + [] == ss[0];
    } else if |ss| > 1 {
      var a, rest := ss[0], ss[1..];
      JoinSpacesKeepsText(rest);
      assert ss == [a] + rest;
      FlattenCons(a, rest);
      NoSpacesAppend(a + " ", JoinSpaces(rest));
      NoSpacesAppend(a, " ");
      NoSpacesAppend(a, Flatten(rest));
      assert NoSpaces(" ") == [];
      assert NoSpaces(a) + [] == NoSpaces(a);
    }
  }

  /** A narrative field: the normalised sentences joined by single spaces. */
  function Narrative(block: string): string {
    JoinSpaces(SplitSentences(block))
  }

  // ---------------------------------------------------------------------------
  // Properties of the splitter
  // ---------------------------------------------------------------------------

  /** Splitting drops whitespace only: the visible characters of the pieces,
      read in order, are those of the block. */
  lemma {:induction false} FragmentsKeepText(s: string)
    ensures NoSpaces(Flatten(Fragments(s))) == NoSpaces(s)
    decreases |s|
  {
    if s == [] || FirstSplit(s, 1) == |s| {
      assert Fragments(s) == [s];
      FlattenSingle(s);
    } else {
      var k := FirstSplit(s, 1);
      var e := SkipSpaces(s, k);
      var t := s[e..];
      FragmentsKeepText(t);
      var F := Fragments(s);
      assert F == [s[..k]] + Fragments(t);
      assert F[0] == s[..k] && F[1..] == Fragments(t);
      NoSpacesAppend(s[..k], Flatten(Fragments(t)));
      DropSpaceRun(s, k, e);
    }
  }

  lemma FlattenSingle(s: string)
    ensures Flatten([s]) == s
  {
    assert [s][1..] == [];
    assert Flatten([s]) == s + Flatten([]);
    assert s + [] == s;
  }

  lemma NoSplitPrefix(s: string, k: nat)
    requires 1 <= k <= |s|
    requires forall j :: 1 <= j < k ==> !IsSplitPoint(s, j)
    ensures NoSplit(s[..k])
  {
    forall j | IsSplitPoint(s[..k], j) ensures false {
      assert IsSplitPoint(s, j);
    }
  }

  /** The pieces of a trimmed block are trimmed and hold no split point, and
      every piece but the last ends with its sentence's punctuation. */
  /** Every piece is non-empty, trimmed and split-free, and all but the last
      end in terminal punctuation. */
  predicate PiecesShaped(F: seq<string>) {
    (forall i :: 0 <= i < |F| ==> NoSplit(F[i]) && Trimmed(F[i]) && F[i] != []) &&
    (forall i :: 0 <= i < |F| - 1 ==> EndsTerminal(F[i]))
  }

  lemma ShapeCons(p: string, G: seq<string>)
    requires NoSplit(p) && Trimmed(p) && p != [] && EndsTerminal(p)
    requires PiecesShaped(G)
    ensures PiecesShaped([p] + G)
  {
    var F := [p] + G;
    forall i | 0 < i < |F| ensures F[i] == G[i - 1] {
    }
  }

  lemma {:induction false} FragmentsShape(s: string)
    requires Trimmed(s)
    ensures forall i :: 0 <= i < |Fragments(s)| ==> NoSplit(Fragments(s)[i]) && Trimmed(Fragments(s)[i])
    ensures forall i :: 0 <= i < |Fragments(s)| - 1 ==> EndsTerminal(Fragments(s)[i])
    ensures s != [] ==> forall i :: 0 <= i < |Fragments(s)| ==> Fragments(s)[i] != []
    decreases |s|
  {
    if s != [] {
      var k := FirstSplit(s, 1);
      if k == |s| {
        NoSplitPrefix(s, k);
        assert s[..k] == s;
      } else {
        var e := SkipSpaces(s, k);
        var t := s[e..];
        assert !IsSpace(s[|s| - 1]);
        assert e < |s|;
        FragmentsShape(t);
        NoSplitPrefix(s, k);
        assert Fragments(s) == [s[..k]] + Fragments(t);
        assert EndsTerminal(s[..k]);
        assert PiecesShaped(Fragments(t));
        ShapeCons(s[..k], Fragments(t));
      }
    }
  }

  // ---------------------------------------------------------------------------
  // Idempotence of normalisation
  // ---------------------------------------------------------------------------

  /** A sentence list as the normaliser leaves it: every sentence well formed
      and uncuttable, and every sentence but the last closed by punctuation. */
  predicate Chain(ss: seq<string>) {
    (forall i :: 0 <= i < |ss| ==> WellFormed(ss[i]) && NoSplit(ss[i])) &&
    (forall i :: 0 <= i < |ss| - 1 ==> EndsTerminal(ss[i]))
  }

  /** Capitalising keeps whitespace and terminal punctuation in place, so it
      creates no split point. */
  lemma CapitalizeNoSplit(t: string)
    requires NoSplit(t)
    ensures NoSplit(Capitalize(t))
  {
    var c := Capitalize(t);
    forall j | 0 < j < |c| ensures !IsSplitPoint(c, j) {
      assert !IsSplitPoint(t, j);
    }
  }

  /** A kept piece in front of a chain extends the chain. */
  lemma ChainCons(f: string, R: seq<string>)
    requires NoSplit(f) && Trimmed(f) && |f| > 3 && Chain(R)
    requires R != [] ==> EndsTerminal(f)
    ensures Chain([Capitalize(f)] + R)
  {
    var c := Capitalize(f);
    CapitalizeNoSplit(f);
    assert |c| == |f|;
    assert IsSpace(c[0]) == IsSpace(f[0]) && IsSpace(c[|c| - 1]) == IsSpace(f[|f| - 1]);
    assert IsTerminal(c[|c| - 1]) == IsTerminal(f[|f| - 1]);
    assert WellFormed(c);
    var X := [c] + R;
    assert X[0] == c;
    forall i | 0 < i < |X| ensures X[i] == R[i - 1] { }
  }

  lemma {:induction false} KeepChain(fr: seq<string>)
    requires forall i :: 0 <= i < |fr| ==> NoSplit(fr[i]) && Trimmed(fr[i])
    requires forall i :: 0 <= i < |fr| - 1 ==> EndsTerminal(fr[i])
    ensures Chain(Keep(fr))
  {
    if fr != [] {
      var f, rest := fr[0], fr[1..];
      assert forall i :: 0 <= i < |rest| ==> rest[i] == fr[i + 1];
      KeepChain(rest);
      TrimOfTrimmed(f);
      if |f| > 3 {
        assert rest != [] ==> EndsTerminal(f);
        ChainCons(f, Keep(rest));
      }
    }
  }

  /** What the normaliser emits is a chain. */
  lemma SplitSentencesChain(block: string)
    ensures Chain(SplitSentences(block))
  {
    var s := Trim(block);
    FragmentsShape(s);
    KeepChain(Fragments(s));
  }

  lemma {:induction false} JoinShape(ss: seq<string>)
    requires ss != [] && forall i :: 0 <= i < |ss| ==> ss[i] != [] && Trimmed(ss[i])
    ensures var j := JoinSpaces(ss);
      j != [] && j[0] == ss[0][0] && j[|j| - 1] == ss[|ss| - 1][|ss[|ss| - 1]| - 1] && Trimmed(j)
  {
    if |ss| == 1 {
      assert JoinSpaces(ss) == ss[0];
    } else {
      var a, rest := ss[0], ss[1..];
      assert forall i :: 0 <= i < |rest| ==> rest[i] == ss[i + 1];
      JoinShape(rest);
      var t := JoinSpaces(rest);
      var j := a + " " + t;
      assert JoinSpaces(ss) == j;
      assert j[0] == a[0];
      assert j[|j| - 1] == t[|t| - 1];
      assert rest[|rest| - 1] == ss[|ss| - 1];
    }
  }

  /** Cutting sentences joined by single spaces gives back the sentences. */
  lemma {:induction false} FragmentsOfJoin(ss: seq<string>)
    requires ss != [] && Chain(ss)
    ensures Fragments(JoinSpaces(ss)) == ss
  {
    var a := ss[0];
    if |ss| == 1 {
      assert JoinSpaces(ss) == a;
      assert FirstSplit(a, 1) == |a|;
      assert Fragments(a) == [a];
    } else {
      var rest := ss[1..];
      assert Chain(rest) by {
        assert forall i :: 0 <= i < |rest| ==> rest[i] == ss[i + 1];
      }
      FragmentsOfJoin(rest);
      JoinShape(rest);
      assert EndsTerminal(a);
      FragmentsCut(a, " ", JoinSpaces(rest));
    }
  }

  /** A split-free sentence closed by punctuation, a space and more text: the
      splitter cuts exactly after the sentence. */
  lemma FragmentsCut(a: string, w: string, R: string)
    requires a != [] && NoSplit(a) && EndsTerminal(a)
    requires w != [] && forall i :: 0 <= i < |w| ==> IsSpace(w[i])
    requires R != [] && !IsSpace(R[0])
    ensures Fragments(a + w + R) == [a] + Fragments(R)
  {
    var J := a + w + R;
    var n, m := |a|, |a| + |w|;
    assert J[..n] == a;
    assert IsSplitPoint(J, n) by {
      assert J[n - 1] == a[n - 1] && J[n] == w[0];
    }
    forall j | 1 <= j < n ensures !IsSplitPoint(J, j) {
      assert J[j - 1] == a[j - 1] && J[j] == a[j];
      assert !IsSplitPoint(a, j);
    }
    assert FirstSplit(J, 1) == n;
    assert forall j :: n <= j < m ==> J[j] == w[j - n];
    assert J[m] == R[0];
    assert SkipSpaces(J, n) == m;
    assert J[m..] == R;
  }


  lemma {:induction false} KeepOfWellFormed(ss: seq<string>)
    requires forall i :: 0 <= i < |ss| ==> WellFormed(ss[i])
    ensures Keep(ss) == ss
  {
    if ss != [] {
      var t := ss[1..];
      assert forall i :: 0 <= i < |t| ==> t[i] == ss[i + 1];
      KeepOfWellFormed(t);
      TrimOfTrimmed(ss[0]);
      CapitalizeOfCapitalized(ss[0]);
      assert KeepPiece(ss[0]) == [ss[0]];
      assert ss == [ss[0]] + t;
    }
  }

  /** Normalising already normalised text changes nothing: re-splitting the
      joined sentences yields the same sentences. */
  lemma SplitSentencesIdempotent(block: string)
    ensures SplitSentences(JoinSpaces(SplitSentences(block))) == SplitSentences(block)
  {
    var ss := SplitSentences(block);
    SplitSentencesChain(block);
    if ss == [] {
      assert JoinSpaces(ss) == "";
      assert Fragments("") == [""];
      assert Keep([""]) == Keep([]) == [];
    } else {
      JoinShape(ss);
      TrimOfTrimmed(JoinSpaces(ss));
      FragmentsOfJoin(ss);
      KeepOfWellFormed(ss);
    }
  }

  /** A narrative field is a fixed point of normalisation: it reads back as
      the very sentences it was joined from. */
  lemma NarrativeStable(block: string)
    ensures var n := Narrative(block); SplitSentences(n) == SplitSentences(block) && Narrative(n) == n
  {
    SplitSentencesIdempotent(block);
  }
}
