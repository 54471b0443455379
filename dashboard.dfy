/** The AI-explanation parser of the dashboard (`parse_ai_explanation`): markup
    is stripped, the text is cut into non-empty trimmed lines, and a four-state
    machine driven by case-insensitive header phrases distributes the lines
    over three fields. */
module Dashboard {
  import opened Text
  import opened Sentences

  /** The parser's `current` variable: no section yet, or one of three. */
  datatype Section = NoSection | WhatHappened | WhyItMatters | WhatToDo

  /** The `sections` record the parser returns. */
  datatype Parsed = Parsed(whatHappened: string, whyItMatters: string, whatToDo: seq<string>)

  const Empty := Parsed("", "", [])

  /** Everything the line loop carries from one line to the next. */
  datatype Machine = Machine(current: Section, buffer: string, sections: Parsed)

  const Start := Machine(NoSection, "", Empty)

  /** The lower-cased line holds `phrase` at some index. */
  ghost predicate Mentions(line: string, phrase: string) {
    exists i :: OccursAt(Lower(line), phrase, i)
  }

  /** The transition a line triggers, in the parser's order of tests: a line
      naming several headers triggers only the first one tested; `NoSection`
      means the line is body text. */
  function HeaderOf(line: string): (h: Section)
    ensures h == WhatHappened <==> Mentions(line, "what happened")
    ensures h == WhyItMatters <==> !Mentions(line, "what happened") && Mentions(line, "why it matters")
    ensures h == WhatToDo <==>
      !Mentions(line, "what happened") && !Mentions(line, "why it matters") &&
      (Mentions(line, "what to do") || Mentions(line, "what should be done"))
  {
    var lower := Lower(line);
    ContainsIff(lower, "what happened");
    ContainsIff(lower, "why it matters");
    ContainsIff(lower, "what to do");
    ContainsIff(lower, "what should be done");
    if Contains(lower, "what happened") then WhatHappened
    else if Contains(lower, "why it matters") then WhyItMatters
    else if Contains(lower, "what to do") || Contains(lower, "what should be done") then WhatToDo
    else NoSection
  }

  /** Headers are found anywhere in the line and in any case, so a numbered
      heading counts. */
  lemma HeaderNumbered()
    ensures HeaderOf("1. What happened:") == WhatHappened
  {
    ContainsAt(Lower("1. What happened:"), "what happened", 3);
  }

  /** One iteration of the line loop. */
  function Step(m: Machine, line: string): Machine
  {
    match HeaderOf(line)
    case WhatHappened => Machine(WhatHappened, "", m.sections)
    case WhyItMatters => Machine(WhyItMatters, "", m.sections.(whatHappened := Narrative(m.buffer)))
    case WhatToDo => Machine(WhatToDo, "", m.sections.(whyItMatters := Narrative(m.buffer)))
    case NoSection => m.(buffer := m.buffer + line + " ")
  }

  /** What one iteration does: a header line moves to its section and empties
      the buffer; a body line is appended to the buffer and changes nothing
      else. The steps are never written inside the loop, `what_happened` only
      at a "why it matters" header and `why_it_matters` only at a "what to do"
      header. */
  lemma StepFrame(m: Machine, line: string)
    ensures var r := Step(m, line);
      && (HeaderOf(line) != NoSection ==> r.current == HeaderOf(line) && r.buffer == "")
      && (HeaderOf(line) == NoSection ==>
            r.current == m.current && r.sections == m.sections && r.buffer == m.buffer + line + " ")
      && r.sections.whatToDo == m.sections.whatToDo
      && (HeaderOf(line) != WhyItMatters ==> r.sections.whatHappened == m.sections.whatHappened)
      && (HeaderOf(line) != WhatToDo ==> r.sections.whyItMatters == m.sections.whyItMatters)
  {
  }

  /** The loop run over `lines` from machine `m`. */
  function ScanFrom(m: Machine, lines: seq<string>): Machine
    decreases |lines|
  {
    if lines == [] then m else Step(ScanFrom(m, lines[..|lines| - 1]), lines[|lines| - 1])
  }

  /** The flush after the loop: only a final "what to do" or "why it matters"
      section is written. */
  function Finalize(m: Machine): (r: Parsed)
    ensures r.whatHappened == m.sections.whatHappened
    ensures m.current != WhyItMatters ==> r.whyItMatters == m.sections.whyItMatters
    ensures m.current != WhatToDo ==> r.whatToDo == m.sections.whatToDo
  {
    match m.current
    case WhatToDo => m.sections.(whatToDo := SplitSentences(m.buffer))
    case WhyItMatters => m.sections.(whyItMatters := Narrative(m.buffer))
    case _ => m.sections
  }

  function ParseLines(lines: seq<string>): Parsed {
    Finalize(ScanFrom(Start, lines))
  }

  /** `parse_ai_explanation(text)` as a function of the input. */
  function Explain(text: string): Parsed {
    if text == "" then Empty else ParseLines(NonEmptyLines(StripMarkup(text)))
  }

  /** `parse_ai_explanation`: the line loop updating `current`, `buffer` and the
      `sections` record step by step. */
  method ParseExplanation(text: string) returns (sections: Parsed)
    ensures sections == Explain(text)
  {
    sections := Parsed("", "", []);
    if text == "" {
      return;
    }
    var clean := StripMarkup(text);
    var lines := NonEmptyLines(clean);
    var current := NoSection;
    var buffer := "";
    for i := 0 to |lines|
      invariant Machine(current, buffer, sections) == ScanFrom(Start, lines[..i])
    {
      var line := lines[i];
      var lower := Lower(line);
      assert lines[..i + 1][..i] == lines[..i];
      if Contains(lower, "what happened") {
        current := WhatHappened;
        buffer := "";
        continue;
      }
      if Contains(lower, "why it matters") {
        sections := sections.(whatHappened := JoinSpaces(SplitSentences(buffer)));
        current := WhyItMatters;
        buffer := "";
        continue;
      }
      if Contains(lower, "what to do") || Contains(lower, "what should be done") {
        sections := sections.(whyItMatters := JoinSpaces(SplitSentences(buffer)));
        current := WhatToDo;
        buffer := "";
        continue;
      }
      buffer := buffer + line + " ";
    }
    assert lines[..|lines|] == lines;
    if current == WhatToDo {
      sections := sections.(whatToDo := SplitSentences(buffer));
    } else if current == WhyItMatters {
      sections := sections.(whyItMatters := JoinSpaces(SplitSentences(buffer)));
    }
  }

  // ---------------------------------------------------------------------------
  // A reference description of the result in terms of header positions
  // ---------------------------------------------------------------------------

  /** What the buffer holds after the body lines `ls`: each line followed by
      one space. */
  function BodyText(ls: seq<string>): string
    decreases |ls|
  {
    if ls == [] then "" else BodyText(ls[..|ls| - 1]) + ls[|ls| - 1] + " "
  }

  /** Index of the last line whose transition is `h`, or -1. */
  function LastAt(ls: seq<string>, h: Section): (p: int)
    ensures -1 <= p < |ls|
    ensures p >= 0 ==> HeaderOf(ls[p]) == h
    ensures forall j :: p < j < |ls| ==> HeaderOf(ls[j]) != h
    decreases |ls|
  {
    if ls == [] then -1
    else if HeaderOf(ls[|ls| - 1]) == h then |ls| - 1
    else LastAt(ls[..|ls| - 1], h)
  }

  /** Index of the last header line of any kind, or -1. */
  function LastHeaderAt(ls: seq<string>): (p: int)
    ensures -1 <= p < |ls|
    ensures p >= 0 ==> HeaderOf(ls[p]) != NoSection
    ensures forall j :: p < j < |ls| ==> HeaderOf(ls[j]) == NoSection
    decreases |ls|
  {
    if ls == [] then -1
    else if HeaderOf(ls[|ls| - 1]) != NoSection then |ls| - 1
    else LastHeaderAt(ls[..|ls| - 1])
  }

  /** The section open at the end of `ls`. */
  function LastHeader(ls: seq<string>): Section {
    var p := LastHeaderAt(ls);
    if p < 0 then NoSection else HeaderOf(ls[p])
  }

  /** The body lines after the last header. */
  function Tail(ls: seq<string>): seq<string> {
    ls[LastHeaderAt(ls) + 1..]
  }

  /** The field a header of kind `h` writes: the normalised body text between
      the last such header and the header before it (or the start). */
  function Written(ls: seq<string>, h: Section): string {
    var p := LastAt(ls, h);
    if p < 0 then "" else Narrative(BodyText(Tail(ls[..p])))
  }

  lemma BodyTextSnoc(ls: seq<string>, l: string)
    ensures BodyText(ls + [l]) == BodyText(ls) + l + " "
  {
    assert (ls + [l])[..|ls|] == ls;
  }

  /** Appending a line that is not a header of kind `h` keeps what `h` wrote. */
  lemma WrittenSnocOther(pre: seq<string>, l: string, h: Section)
    requires HeaderOf(l) != h
    ensures Written(pre + [l], h) == Written(pre, h)
  {
    var ls := pre + [l];
    assert ls[..|pre|] == pre;
    var p := LastAt(pre, h);
    assert LastAt(ls, h) == p;
    if p >= 0 {
      assert ls[..p] == pre[..p];
    }
  }

  /** Appending a header of kind `h` makes `h` write the body after the
      previous header. */
  lemma WrittenSnocSame(pre: seq<string>, l: string)
    requires HeaderOf(l) != NoSection
    ensures Written(pre + [l], HeaderOf(l)) == Narrative(BodyText(Tail(pre)))
  {
    var ls := pre + [l];
    assert LastAt(ls, HeaderOf(l)) == |pre|;
    assert ls[..|pre|] == pre;
  }

  /** How the open section and the pending body evolve with one more line. */
  lemma TailSnoc(pre: seq<string>, l: string)
    ensures HeaderOf(l) == NoSection ==>
      LastHeader(pre + [l]) == LastHeader(pre) && Tail(pre + [l]) == Tail(pre) + [l]
    ensures HeaderOf(l) != NoSection ==>
      LastHeader(pre + [l]) == HeaderOf(l) && Tail(pre + [l]) == []
  {
    var ls := pre + [l];
    assert ls[..|pre|] == pre;
    if HeaderOf(l) == NoSection {
      var q := LastHeaderAt(pre);
      assert LastHeaderAt(ls) == q;
      assert ls[q + 1..] == pre[q + 1..] + [l];
    }
  }

  /** The machine after any prefix of the lines: the open section is that of
      the last header, the buffer holds the body lines after it, what_happened
      was written by the last "why it matters" header and why_it_matters by the
      last "what to do" header, and the step list is still empty. */
  lemma {:induction false} ScanShape(ls: seq<string>)
    ensures ScanFrom(Start, ls) ==
      Machine(LastHeader(ls), BodyText(Tail(ls)),
              Parsed(Written(ls, WhyItMatters), Written(ls, WhatToDo), []))
    decreases |ls|
  {
    if ls != [] {
      var n := |ls| - 1;
      var pre, l := ls[..n], ls[n];
      assert ls == pre + [l];
      ScanShape(pre);
      assert ScanFrom(Start, ls) == Step(ScanFrom(Start, pre), l);
      TailSnoc(pre, l);
      if HeaderOf(l) != WhyItMatters {
        WrittenSnocOther(pre, l, WhyItMatters);
      }
      if HeaderOf(l) != WhatToDo {
        WrittenSnocOther(pre, l, WhatToDo);
      }
      if HeaderOf(l) == NoSection {
        BodyTextSnoc(Tail(pre), l);
      } else {
        WrittenSnocSame(pre, l);
      }
    }
  }

  /** The parse of a sequence of lines, described by header positions: the
      final flush writes the body after the last header into why_it_matters
      or what_to_do when that header is of that kind, and nothing otherwise. */
  lemma ParseLinesShape(ls: seq<string>)
    ensures ParseLines(ls) ==
      Parsed(Written(ls, WhyItMatters),
             if LastHeader(ls) == WhyItMatters then Narrative(BodyText(Tail(ls))) else Written(ls, WhatToDo),
             if LastHeader(ls) == WhatToDo then SplitSentences(BodyText(Tail(ls))) else [])
  {
    ScanShape(ls);
  }

  // ---------------------------------------------------------------------------
  // Composing runs of the loop
  // ---------------------------------------------------------------------------

  lemma {:induction false} ScanAppend(m: Machine, a: seq<string>, b: seq<string>)
    ensures ScanFrom(m, a + b) == ScanFrom(ScanFrom(m, a), b)
    decreases |b|
  {
    if b == [] {
      assert a + b == a;
    } else {
      var n := |b| - 1;
      ScanAppend(m, a, b[..n]);
      var ab := a + b;
      assert ab[..|ab| - 1] == a + b[..n];
      assert ab[|ab| - 1] == b[n];
      var x := ScanFrom(m, a + b[..n]);
      assert ScanFrom(m, ab) == Step(x, b[n]);
      assert ScanFrom(ScanFrom(m, a), b) == Step(x, b[n]);
    }
  }

  predicate AllBody(ls: seq<string>) {
    forall i :: 0 <= i < |ls| ==> HeaderOf(ls[i]) == NoSection
  }

  /** Body lines only extend the buffer. */
  lemma {:induction false} ScanBody(m: Machine, ls: seq<string>)
    requires AllBody(ls)
    ensures ScanFrom(m, ls) == m.(buffer := m.buffer + BodyText(ls))
    decreases |ls|
  {
    if ls == [] {
      assert m.buffer + BodyText(ls) == m.buffer;
    } else {
      ScanBody(m, ls[..|ls| - 1]);
    }
  }

  predicate NoNarrativeHeader(ls: seq<string>) {
    forall i :: 0 <= i < |ls| ==> HeaderOf(ls[i]) == NoSection || HeaderOf(ls[i]) == WhatHappened
  }

  lemma {:induction false} ScanWithoutNarrativeHeader(ls: seq<string>)
    requires NoNarrativeHeader(ls)
    ensures ScanFrom(Start, ls).sections == Empty
    ensures ScanFrom(Start, ls).current in {NoSection, WhatHappened}
    decreases |ls|
  {
    if ls != [] {
      ScanWithoutNarrativeHeader(ls[..|ls| - 1]);
    }
  }

  // ---------------------------------------------------------------------------
  // Behaviours of the parser
  // ---------------------------------------------------------------------------

  lemma ExplainEmpty()
    ensures Explain("") == Parsed("", "", [])
  {
  }

  /** Without a "why it matters" or "what to do" header nothing is ever
      written: text with no header, or whose only headers are "what happened",
      parses to three empty fields. */
  lemma NoNarrativeHeaderYieldsEmpty(ls: seq<string>)
    requires NoNarrativeHeader(ls)
    ensures ParseLines(ls) == Empty
  {
    ScanWithoutNarrativeHeader(ls);
  }

  lemma ScanSnoc(m: Machine, x: seq<string>, l: string)
    ensures ScanFrom(m, x + [l]) == Step(ScanFrom(m, x), l)
  {
    assert (x + [l])[..|x|] == x;
  }

  lemma ScanThenBody(m: Machine, x: seq<string>, ls: seq<string>)
    requires AllBody(ls)
    ensures ScanFrom(m, x + ls) == ScanFrom(m, x).(buffer := ScanFrom(m, x).buffer + BodyText(ls))
  {
    ScanAppend(m, x, ls);
    ScanBody(ScanFrom(m, x), ls);
  }

  /** A document in the expected order: each field holds the normalised text
      of its own section, and the text on the header lines is not kept. */
  lemma CanonicalDocument(h1: string, a: seq<string>, h2: string, b: seq<string>, h3: string, c: seq<string>)
    requires HeaderOf(h1) == WhatHappened && HeaderOf(h2) == WhyItMatters && HeaderOf(h3) == WhatToDo
    requires AllBody(a) && AllBody(b) && AllBody(c)
    ensures ParseLines([h1] + a + [h2] + b + [h3] + c) ==
      Parsed(Narrative(BodyText(a)), Narrative(BodyText(b)), SplitSentences(BodyText(c)))
  {
    var na, nb := Narrative(BodyText(a)), Narrative(BodyText(b));
    var p := [h1] + a + [h2] + b;
    ScanTwoSections(h1, a, h2, b);
    ScanSnoc(Start, p, h3);
    assert ScanFrom(Start, p + [h3]) == Machine(WhatToDo, "", Parsed(na, nb, []));
    ScanThenBody(Start, p + [h3], c);
    assert ScanFrom(Start, p + [h3] + c) == Machine(WhatToDo, BodyText(c), Parsed(na, nb, []));
  }

  /** A document that stops after its "why it matters" section keeps an empty
      step list and both narrative fields. */
  lemma MissingTrailingSection(h1: string, a: seq<string>, h2: string, b: seq<string>)
    requires HeaderOf(h1) == WhatHappened && HeaderOf(h2) == WhyItMatters
    requires AllBody(a) && AllBody(b)
    ensures ParseLines([h1] + a + [h2] + b) == Parsed(Narrative(BodyText(a)), Narrative(BodyText(b)), [])
  {
    ScanTwoSections(h1, a, h2, b);
  }

  /** The machine after a what-happened section and a why-it-matters section. */
  lemma ScanTwoSections(h1: string, a: seq<string>, h2: string, b: seq<string>)
    requires HeaderOf(h1) == WhatHappened && HeaderOf(h2) == WhyItMatters
    requires AllBody(a) && AllBody(b)
    ensures ScanFrom(Start, [h1] + a + [h2] + b) ==
      Machine(WhyItMatters, BodyText(b), Parsed(Narrative(BodyText(a)), "", []))
  {
    var na := Narrative(BodyText(a));
    var p1 := [h1] + a;
    var p2 := p1 + [h2];
    ScanSnoc(Start, [], h1);
    assert [] + [h1] == [h1];
    assert ScanFrom(Start, [h1]) == Machine(WhatHappened, "", Empty);
    ScanThenBody(Start, [h1], a);
    assert ScanFrom(Start, p1) == Machine(WhatHappened, BodyText(a), Empty);
    ScanSnoc(Start, p1, h2);
    assert ScanFrom(Start, p2) == Machine(WhyItMatters, "", Parsed(na, "", []));
    ScanThenBody(Start, p2, b);
  }

  /** The "why it matters" header writes what_happened from whatever was
      buffered, even when no section was open: text before it that no
      "what happened" header introduced becomes what_happened. */
  lemma OrphanTextBecomesWhatHappened(a: seq<string>, h: string, b: seq<string>)
    requires AllBody(a) && HeaderOf(h) == WhyItMatters && AllBody(b)
    ensures ParseLines(a + [h] + b) == Parsed(Narrative(BodyText(a)), Narrative(BodyText(b)), [])
  {
    var na := Narrative(BodyText(a));
    ScanBody(Start, a);
    assert ScanFrom(Start, a) == Machine(NoSection, BodyText(a), Empty);
    ScanSnoc(Start, a, h);
    assert ScanFrom(Start, a + [h]) == Machine(WhyItMatters, "", Parsed(na, "", []));
    ScanThenBody(Start, a + [h], b);
    assert ScanFrom(Start, a + [h] + b) == Machine(WhyItMatters, BodyText(b), Parsed(na, "", []));
  }

  /** The "what happened" header empties the buffer without writing it: text
      before it is lost, as long as no other header wrote it first. */
  lemma TextBeforeWhatHappenedIsLost(x: seq<string>, h: string, y: seq<string>)
    requires NoNarrativeHeader(x) && HeaderOf(h) == WhatHappened
    ensures ParseLines(x + [h] + y) == ParseLines([h] + y)
  {
    ScanWithoutNarrativeHeader(x);
    ScanAppend(Start, x, [h]);
    assert [h][..0] == [];
    assert ScanFrom(Start, x + [h]) == Machine(WhatHappened, "", Empty);
    assert ScanFrom(Start, [h]) == Machine(WhatHappened, "", Empty);
    ScanAppend(Start, x + [h], y);
    ScanAppend(Start, [h], y);
  }

  /** A trailing "what happened" section is never flushed: the fields are
      exactly those written before its header. */
  lemma TrailingWhatHappenedDropped(x: seq<string>, h: string, a: seq<string>)
    requires HeaderOf(h) == WhatHappened && AllBody(a)
    ensures ParseLines(x + [h] + a) == ScanFrom(Start, x).sections
  {
    ScanAppend(Start, x, [h]);
    assert [h][..0] == [];
    var m := ScanFrom(Start, x + [h]);
    assert m == Machine(WhatHappened, "", ScanFrom(Start, x).sections);
    ScanAppend(Start, x + [h], a);
    ScanBody(m, a);
  }

  /** A header line contributes only its kind: whatever else it says is
      discarded. */
  lemma HeaderLineTextDiscarded(m: Machine, l1: string, l2: string)
    requires HeaderOf(l1) == HeaderOf(l2) != NoSection
    ensures Step(m, l1) == Step(m, l2)
    ensures Step(m, l1).buffer == ""
  {
  }

  // ---------------------------------------------------------------------------
  // Markup insensitivity and normalised output
  // ---------------------------------------------------------------------------

  lemma ExplainOfBlank(text: string)
    requires StripMarkup(text) == ""
    ensures Explain(text) == Empty
  {
    assert RawLines("") == [""];
    assert Trim("") == "";
    assert NonEmptyLines("") == [];
  }

  /** Two inputs that differ only in `*` and `#` parse identically. */
  lemma MarkupInsensitive(t1: string, t2: string)
    requires StripMarkup(t1) == StripMarkup(t2)
    ensures Explain(t1) == Explain(t2)
  {
    if StripMarkup(t1) == "" {
      ExplainOfBlank(t1);
      ExplainOfBlank(t2);
    }
  }

  /** Inserting any run of markup anywhere (`**What happened:**`) leaves the
      parse unchanged. */
  lemma MarkupInsertionInvisible(a: string, mk: string, b: string)
    requires forall i :: 0 <= i < |mk| ==> IsMarkup(mk[i])
    ensures Explain(a + mk + b) == Explain(a + b)
  {
    StripMarkupAppend(a + mk, b);
    StripMarkupAppend(a, mk);
    StripMarkupAppend(a, b);
    StripOfMarkupOnly(mk);
    MarkupInsensitive(a + mk + b, a + b);
  }

  lemma {:induction false} StripOfMarkupOnly(mk: string)
    requires forall i :: 0 <= i < |mk| ==> IsMarkup(mk[i])
    ensures StripMarkup(mk) == ""
  {
    if mk != [] {
      StripOfMarkupOnly(mk[1..]);
    }
  }

  /** Every field is in normal form: the narrative fields are fixed points of
      normalisation, and the step list is a list of well-formed sentences
      that reads back unchanged. */
  predicate Normalised(p: Parsed) {
    Narrative(p.whatHappened) == p.whatHappened &&
    Narrative(p.whyItMatters) == p.whyItMatters &&
    SplitSentences(JoinSpaces(p.whatToDo)) == p.whatToDo
  }

  lemma EmptyNormalised()
    ensures Normalised(Empty)
  {
    assert Trim("") == "";
    assert Fragments("") == [""];
    assert Keep([""]) == [];
  }

  lemma {:induction false} ScanNormalised(ls: seq<string>)
    ensures Normalised(ScanFrom(Start, ls).sections)
    decreases |ls|
  {
    if ls == [] {
      EmptyNormalised();
    } else {
      var l := ls[|ls| - 1];
      var m := ScanFrom(Start, ls[..|ls| - 1]);
      ScanNormalised(ls[..|ls| - 1]);
      assert ScanFrom(Start, ls) == Step(m, l);
      NarrativeStable(m.buffer);
      var p := m.sections;
      match HeaderOf(l)
      case WhyItMatters =>
        assert Step(m, l).sections == p.(whatHappened := Narrative(m.buffer));
      case WhatToDo =>
        assert Step(m, l).sections == p.(whyItMatters := Narrative(m.buffer));
      case _ =>
        assert Step(m, l).sections == p;
    }
  }

  /** The parser's output is always normalised, whatever the input. */
  lemma ExplainNormalised(text: string)
    ensures Normalised(Explain(text))
    ensures forall k :: 0 <= k < |Explain(text).whatToDo| ==> WellFormed(Explain(text).whatToDo[k])
  {
    if text == "" {
      EmptyNormalised();
    } else {
      var ls := NonEmptyLines(StripMarkup(text));
      var m := ScanFrom(Start, ls);
      var p := m.sections;
      ScanNormalised(ls);
      NarrativeStable(m.buffer);
      SplitSentencesIdempotent(m.buffer);
      assert Explain(text) == Finalize(m);
      match m.current
      case WhatToDo =>
        assert Finalize(m) == p.(whatToDo := SplitSentences(m.buffer));
      case WhyItMatters =>
        assert Finalize(m) == p.(whyItMatters := Narrative(m.buffer));
      case _ =>
        assert Finalize(m) == p;
    }
  }
}
