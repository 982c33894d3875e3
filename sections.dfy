/**
  Grouping of an article's text into sections (main.py:137-156). The content
  region's `h2`, `h3` and `p` elements arrive in document order; every
  paragraph belongs to the most recent heading before it, or to
  "Introduction" when no heading precedes it. A section is written as a
  marker line `"\n=== H ===\n"` followed by its paragraph lines, and a
  section without paragraphs is not written at all.
 */
module Sections {
  import opened Strings

  datatype Tag = H2 | H3 | P

  /** An element found by `find_all(["h2", "h3", "p"])`, with its `get_text(strip=True)`. */
  datatype Element = Element(tag: Tag, text: string)

  datatype Section = Section(heading: string, paragraphs: seq<string>)

  const Introduction: string := "Introduction"
  const EditLink: string := "[edit]"

  predicate IsHeading(e: Element) {
    e.tag == H2 || e.tag == H3
  }

  /**
    The heading text with every `"[edit]"` removed, as `str.replace` does:
    never longer than the text, and unchanged when it holds no `"[edit]"`.
   */
  function CleanHeading(text: string): (h: string)
    ensures |h| <= |text|
    ensures !Contains(text, EditLink) ==> h == text
  {
    RemoveAllUnlessPresent(text, EditLink);
    RemoveAll(text, EditLink)
  }

  /**
    The line that opens a written section: it begins and ends with a line
    break and holds the heading between `=== ` and ` ===`.
   */
  function Marker(heading: string): (m: string)
    ensures IsMarkerLine(m) && m[|m| - 1] == '\n'
    ensures |m| == |heading| + 10 && m[5..|m| - 5] == heading
  {
    "\n=== " + heading + " ===\n"
  }

  /** Marker lines begin with a line break; stripped paragraph texts never do. */
  predicate IsMarkerLine(line: string) {
    |line| > 0 && line[0] == '\n'
  }

  predicate IsSpace(c: char) {
    c == ' ' || c == '\t' || c == '\n' || c == '\r' || c == '\U{000B}' || c == '\U{000C}'
  }

  /** What `get_text(strip=True)` guarantees: no white space at either end. */
  predicate Stripped(s: string) {
    s == [] || (!IsSpace(s[0]) && !IsSpace(s[|s| - 1]))
  }

  /** The paragraph lines `e` contributes: its text, unless that is empty. */
  function Kept(e: Element): seq<string> {
    if e.tag == P && e.text != "" then [e.text] else []
  }

  /** The non-empty paragraph texts of `es`, in document order. */
  function ParagraphTexts(es: seq<Element>): seq<string> {
    if es == [] then [] else Kept(es[0]) + ParagraphTexts(es[1..])
  }

  /** The raw heading texts of `es`, in document order. */
  function HeadingTexts(es: seq<Element>): seq<string> {
    if es == [] then []
    else (if IsHeading(es[0]) then [es[0].text] else []) + HeadingTexts(es[1..])
  }

  function CleanAll(texts: seq<string>): seq<string> {
    if texts == [] then [] else [CleanHeading(texts[0])] + CleanAll(texts[1..])
  }

  /**
    Reference grouping: the sections of `es` when the section in progress is
    headed `h`. Each heading closes the section in progress and opens a new
    one, so there is exactly one section more than there are headings; the
    first is `h`'s, and a paragraph joins the front of whatever section it
    lies in.
   */
  function Split(h: string, es: seq<Element>): (ss: seq<Section>)
    ensures |ss| >= 1 && ss[0].heading == h
    decreases |es|
  {
    if es == [] then [Section(h, [])]
    else if IsHeading(es[0]) then [Section(h, [])] + Split(CleanHeading(es[0].text), es[1..])
    else
      var rest := Split(h, es[1..]);
      [Section(h, Kept(es[0]) + rest[0].paragraphs)] + rest[1..]
  }

  /** The lines one section contributes: nothing if it has no paragraphs. */
  function Block(s: Section): seq<string> {
    if s.paragraphs == [] then [] else [Marker(s.heading)] + s.paragraphs
  }

  function Render(ss: seq<Section>): seq<string> {
    if ss == [] then [] else Block(ss[0]) + Render(ss[1..])
  }

  /** The `article_lines` of a document, by the reference grouping. */
  function ArticleLines(es: seq<Element>): seq<string> {
    Render(Split(Introduction, es))
  }

  /** `ss` with `buffer` put in front of the first section's paragraphs. */
  function Pending(buffer: seq<string>, ss: seq<Section>): seq<Section>
    requires |ss| >= 1
  {
    [Section(ss[0].heading, buffer + ss[0].paragraphs)] + ss[1..]
  }

  lemma PendingNothing(ss: seq<Section>)
    requires |ss| >= 1
    ensures Pending([], ss) == ss
  {
    assert [] + ss[0].paragraphs == ss[0].paragraphs;
    assert [ss[0]] + ss[1..] == ss;
  }

  lemma RenderCons(s: Section, ss: seq<Section>)
    ensures Render([s] + ss) == Block(s) + Render(ss)
  {
    assert ([s] + ss)[1..] == ss;
  }

  /**
    The lines still to be written when the elements `rest` remain, the
    section in progress is headed `h` and `buffer` holds its paragraphs so far.
   */
  function Remaining(h: string, buffer: seq<string>, rest: seq<Element>): seq<string> {
    Render(Pending(buffer, Split(h, rest)))
  }

  lemma RemainingAtStart(es: seq<Element>)
    ensures ArticleLines(es) == Remaining(Introduction, [], es)
  {
    PendingNothing(Split(Introduction, es));
  }

  /** A heading flushes the buffer as the section in progress and starts the next. */
  lemma RemainingAtHeading(h: string, buffer: seq<string>, e: Element, rest: seq<Element>)
    requires IsHeading(e)
    ensures Remaining(h, buffer, [e] + rest) ==
      Block(Section(h, buffer)) + Remaining(CleanHeading(e.text), [], rest)
  {
    assert ([e] + rest)[0] == e && ([e] + rest)[1..] == rest;
    var next := Split(CleanHeading(e.text), rest);
    var ss := Split(h, [e] + rest);
    assert ss == [Section(h, [])] + next;
    assert ss[1..] == next && buffer + [] == buffer;
    assert Pending(buffer, ss) == [Section(h, buffer)] + next;
    RenderCons(Section(h, buffer), next);
    PendingNothing(next);
  }

  /** A paragraph moves from the section in progress into the buffer. */
  lemma RemainingAtParagraph(h: string, buffer: seq<string>, e: Element, rest: seq<Element>)
    requires !IsHeading(e)
    ensures Remaining(h, buffer, [e] + rest) == Remaining(h, buffer + Kept(e), rest)
  {
    assert ([e] + rest)[0] == e && ([e] + rest)[1..] == rest;
    var tail := Split(h, rest);
    assert buffer + (Kept(e) + tail[0].paragraphs) == (buffer + Kept(e)) + tail[0].paragraphs;
    assert Pending(buffer, Split(h, [e] + rest)) == Pending(buffer + Kept(e), tail);
  }

  lemma RemainingAtEnd(h: string, buffer: seq<string>)
    ensures Remaining(h, buffer, []) == Block(Section(h, buffer))
  {
    RenderCons(Section(h, buffer), []);
  }

  /**
    The single pass of main.py:137-156: a current heading, a paragraph
    buffer flushed at every heading and at the end, and the output lines.
   */
  method GroupSections(es: seq<Element>) returns (articleLines: seq<string>)
    ensures articleLines == ArticleLines(es)
  {
    var currentHeading := Introduction;
    var sectionText: seq<string> := [];
    articleLines := [];
    var i := 0;
    RemainingAtStart(es);
    while i < |es|
      invariant 0 <= i <= |es|
      invariant ArticleLines(es) == articleLines + Remaining(currentHeading, sectionText, es[i..])
    {
      var element := es[i];
      if element.tag == H2 || element.tag == H3 {
        FlushAtHeading(articleLines, currentHeading, sectionText, es, i);
        if sectionText != [] {
          articleLines := articleLines + [Marker(currentHeading)] + sectionText;
          sectionText := [];
        }
        var heading := CleanHeading(element.text);
        currentHeading := heading;
      } else {
        // the only other tag `find_all` yields is "p"
        BufferParagraph(articleLines, currentHeading, sectionText, es, i);
        var text := element.text;
        if text != "" {
          sectionText := sectionText + [text];
        }
      }
      i := i + 1;
    }
    FlushAtEnd(articleLines, currentHeading, sectionText, es);
    if sectionText != [] {
      articleLines := articleLines + [Marker(currentHeading)] + sectionText;
    }
  }

  lemma FlushAtHeading(lines: seq<string>, h: string, buffer: seq<string>, es: seq<Element>, i: nat)
    requires i < |es| && IsHeading(es[i])
    ensures lines + Remaining(h, buffer, es[i..]) ==
      (if buffer != [] then lines + [Marker(h)] + buffer else lines) + Remaining(CleanHeading(es[i].text), [], es[i + 1..])
  {
    assert es[i..] == [es[i]] + es[i + 1..];
    RemainingAtHeading(h, buffer, es[i], es[i + 1..]);
    var next := Remaining(CleanHeading(es[i].text), [], es[i + 1..]);
    if buffer == [] {
      assert Block(Section(h, buffer)) + next == next;
    } else {
      assert Block(Section(h, buffer)) == [Marker(h)] + buffer;
    }
  }

  lemma BufferParagraph(lines: seq<string>, h: string, buffer: seq<string>, es: seq<Element>, i: nat)
    requires i < |es| && !IsHeading(es[i])
    ensures lines + Remaining(h, buffer, es[i..]) ==
      lines + Remaining(h, if es[i].text != "" then buffer + [es[i].text] else buffer, es[i + 1..])
  {
    assert es[i..] == [es[i]] + es[i + 1..];
    RemainingAtParagraph(h, buffer, es[i], es[i + 1..]);
    if es[i].text == "" {
      assert buffer + Kept(es[i]) == buffer;
    }
  }

  lemma FlushAtEnd(lines: seq<string>, h: string, buffer: seq<string>, es: seq<Element>)
    ensures lines + Remaining(h, buffer, es[|es|..]) == if buffer != [] then lines + [Marker(h)] + buffer else lines
  {
    assert es[|es|..] == [];
    RemainingAtEnd(h, buffer);
    if buffer == [] {
      assert lines + [] == lines;
    }
  }

  /** All paragraphs of `ss`, section after section. */
  function Paragraphs(ss: seq<Section>): seq<string> {
    if ss == [] then [] else ss[0].paragraphs + Paragraphs(ss[1..])
  }

  function Headings(ss: seq<Section>): seq<string> {
    if ss == [] then [] else [ss[0].heading] + Headings(ss[1..])
  }

  /** The grouping loses, adds and reorders no paragraph. */
  lemma {:induction false} SplitKeepsParagraphs(h: string, es: seq<Element>)
    ensures Paragraphs(Split(h, es)) == ParagraphTexts(es)
    decreases |es|
  {
    if es != [] {
      var ss := Split(h, es);
      SplitKeepsParagraphs(if IsHeading(es[0]) then CleanHeading(es[0].text) else h, es[1..]);
      if IsHeading(es[0]) {
        assert ss[1..] == Split(CleanHeading(es[0].text), es[1..]);
      } else {
        var rest := Split(h, es[1..]);
        assert ss[1..] == rest[1..];
      }
    }
  }

  /** One section per heading, plus the leading one; headings cleaned, in order. */
  lemma {:induction false} SplitHeadings(h: string, es: seq<Element>)
    ensures Headings(Split(h, es)) == [h] + CleanAll(HeadingTexts(es))
    decreases |es|
  {
    if es != [] {
      var ss := Split(h, es);
      if IsHeading(es[0]) {
        SplitHeadings(CleanHeading(es[0].text), es[1..]);
        assert ss[1..] == Split(CleanHeading(es[0].text), es[1..]);
      } else {
        SplitHeadings(h, es[1..]);
        var rest := Split(h, es[1..]);
        assert ss[1..] == rest[1..];
        assert Headings(rest) == [h] + Headings(rest[1..]);
        assert HeadingTexts(es) == HeadingTexts(es[1..]);
      }
    }
  }

  /** Without a heading, every paragraph lands in the section in progress. */
  lemma {:induction false} SplitWithoutHeading(h: string, es: seq<Element>)
    requires HeadingTexts(es) == []
    ensures Split(h, es) == [Section(h, ParagraphTexts(es))]
    decreases |es|
  {
    if es != [] {
      assert !IsHeading(es[0]);
      SplitWithoutHeading(h, es[1..]);
    }
  }

  /**
    A heading closes the section in progress with exactly the paragraphs
    since the previous heading and opens one named by its cleaned text.
    With SplitWithoutHeading this determines the grouping completely.
   */
  lemma {:induction false} SplitAtHeading(h: string, before: seq<Element>, heading: Element, after: seq<Element>)
    requires HeadingTexts(before) == [] && IsHeading(heading)
    ensures Split(h, before + [heading] + after) ==
      [Section(h, ParagraphTexts(before))] + Split(CleanHeading(heading.text), after)
    decreases |before|
  {
    var es := before + [heading] + after;
    if before == [] {
      assert es == [heading] + after;
    } else {
      assert !IsHeading(before[0]);
      assert es[0] == before[0] && es[1..] == before[1..] + [heading] + after;
      SplitAtHeading(h, before[1..], heading, after);
    }
  }

  /** Paragraph lines of the output, the marker lines left out. */
  function Unmarked(lines: seq<string>): seq<string> {
    if lines == [] then []
    else (if IsMarkerLine(lines[0]) then [] else [lines[0]]) + Unmarked(lines[1..])
  }

  lemma {:induction false} UnmarkedAppend(a: seq<string>, b: seq<string>)
    ensures Unmarked(a + b) == Unmarked(a) + Unmarked(b)
    decreases |a|
  {
    if a != [] {
      assert (a + b)[0] == a[0] && (a + b)[1..] == a[1..] + b;
      UnmarkedAppend(a[1..], b);
      var x := if IsMarkerLine(a[0]) then [] else [a[0]];
      assert Unmarked(a + b) == x + Unmarked(a[1..] + b);
      assert Unmarked(a) == x + Unmarked(a[1..]);
    } else {
      assert a + b == b;
    }
  }

  predicate NoMarkerLines(lines: seq<string>) {
    forall i :: 0 <= i < |lines| ==> !IsMarkerLine(lines[i])
  }

  lemma {:induction false} UnmarkedPlain(lines: seq<string>)
    requires NoMarkerLines(lines)
    ensures Unmarked(lines) == lines
    decreases |lines|
  {
    if lines != [] {
      UnmarkedPlain(lines[1..]);
    }
  }

  lemma NoMarkerLinesSplit(a: seq<string>, b: seq<string>)
    requires NoMarkerLines(a + b)
    ensures NoMarkerLines(a) && NoMarkerLines(b)
  {
    assert forall i :: 0 <= i < |a| ==> (a + b)[i] == a[i];
    assert forall i :: 0 <= i < |b| ==> (a + b)[|a| + i] == b[i];
  }

  /** Removing the marker from one section's block leaves its paragraphs. */
  lemma UnmarkedBlock(s: Section)
    requires NoMarkerLines(s.paragraphs)
    ensures Unmarked(Block(s)) == s.paragraphs
  {
    UnmarkedPlain(s.paragraphs);
    if s.paragraphs != [] {
      var m := Marker(s.heading);
      assert IsMarkerLine(m);
      assert Unmarked([m]) == [] by {
        assert [m][1..] == [];
      }
      UnmarkedAppend([m], s.paragraphs);
    }
  }

  lemma {:induction false} RenderUnmarked(ss: seq<Section>)
    requires NoMarkerLines(Paragraphs(ss))
    ensures Unmarked(Render(ss)) == Paragraphs(ss)
    decreases |ss|
  {
    if ss != [] {
      assert Paragraphs(ss) == ss[0].paragraphs + Paragraphs(ss[1..]);
      assert Render(ss) == Block(ss[0]) + Render(ss[1..]);
      NoMarkerLinesSplit(ss[0].paragraphs, Paragraphs(ss[1..]));
      UnmarkedBlock(ss[0]);
      RenderUnmarked(ss[1..]);
      UnmarkedAppend(Block(ss[0]), Render(ss[1..]));
    }
  }

  lemma {:induction false} StrippedParagraphs(es: seq<Element>)
    requires forall e | e in es :: Stripped(e.text)
    ensures NoMarkerLines(ParagraphTexts(es))
    decreases |es|
  {
    if es != [] {
      assert es[0] in es;
      StrippedParagraphs(es[1..]);
    }
  }

  /**
    With the marker lines taken out, the article lines are exactly the
    non-empty paragraph texts, in document order.
   */
  lemma ArticleKeepsParagraphs(es: seq<Element>)
    requires forall e | e in es :: Stripped(e.text)
    ensures Unmarked(ArticleLines(es)) == ParagraphTexts(es)
  {
    SplitKeepsParagraphs(Introduction, es);
    StrippedParagraphs(es);
    RenderUnmarked(Split(Introduction, es));
  }

  /** Every marker line of a rendering is followed by a paragraph line. */
  predicate MarkersFollowed(lines: seq<string>) {
    forall k :: 0 <= k < |lines| && IsMarkerLine(lines[k]) ==>
      k + 1 < |lines| && !IsMarkerLine(lines[k + 1])
  }

  lemma {:induction false} RenderMarkersFollowed(ss: seq<Section>)
    requires NoMarkerLines(Paragraphs(ss))
    ensures MarkersFollowed(Render(ss))
    decreases |ss|
  {
    if ss != [] {
      var ps := ss[0].paragraphs;
      NoMarkerLinesSplit(ps, Paragraphs(ss[1..]));
      RenderMarkersFollowed(ss[1..]);
      var b, r := Block(ss[0]), Render(ss[1..]);
      forall k | 0 <= k < |b + r| && IsMarkerLine((b + r)[k])
        ensures k + 1 < |b + r| && !IsMarkerLine((b + r)[k + 1])
      {
        if k >= |b| {
          assert (b + r)[k] == r[k - |b|];
        } else {
          assert k == 0 && (b + r)[1] == ps[0];
        }
      }
    }
  }

  /**
    Every marker written is followed by at least one paragraph line, so a
    heading with no paragraph before the next heading or the end writes nothing.
   */
  lemma ArticleMarkersFollowed(es: seq<Element>)
    requires forall e | e in es :: Stripped(e.text)
    ensures MarkersFollowed(ArticleLines(es))
  {
    SplitKeepsParagraphs(Introduction, es);
    StrippedParagraphs(es);
    RenderMarkersFollowed(Split(Introduction, es));
  }

  lemma {:induction false} RenderEmpty(ss: seq<Section>)
    ensures Render(ss) == [] <==> Paragraphs(ss) == []
    decreases |ss|
  {
    if ss != [] {
      RenderEmpty(ss[1..]);
    }
  }

  /** The article has no lines at all exactly when it has no non-empty paragraph. */
  lemma ArticleEmptyIff(es: seq<Element>)
    ensures ArticleLines(es) == [] <==> ParagraphTexts(es) == []
  {
    SplitKeepsParagraphs(Introduction, es);
    RenderEmpty(Split(Introduction, es));
  }

  /** The sections that are written: those with at least one paragraph. */
  function Written(ss: seq<Section>): seq<Section> {
    if ss == [] then []
    else (if ss[0].paragraphs == [] then [] else [ss[0]]) + Written(ss[1..])
  }

  function Markers(ss: seq<Section>): seq<string> {
    if ss == [] then [] else [Marker(ss[0].heading)] + Markers(ss[1..])
  }

  /** The marker lines of a rendering, in order. */
  function MarkerLines(lines: seq<string>): seq<string> {
    if lines == [] then []
    else (if IsMarkerLine(lines[0]) then [lines[0]] else []) + MarkerLines(lines[1..])
  }

  lemma {:induction false} MarkerLinesAppend(a: seq<string>, b: seq<string>)
    ensures MarkerLines(a + b) == MarkerLines(a) + MarkerLines(b)
    decreases |a|
  {
    if a != [] {
      assert (a + b)[0] == a[0] && (a + b)[1..] == a[1..] + b;
      MarkerLinesAppend(a[1..], b);
      var x := if IsMarkerLine(a[0]) then [a[0]] else [];
      assert MarkerLines(a + b) == x + MarkerLines(a[1..] + b);
      assert MarkerLines(a) == x + MarkerLines(a[1..]);
    } else {
      assert a + b == b;
    }
  }

  lemma {:induction false} MarkerLinesPlain(lines: seq<string>)
    requires NoMarkerLines(lines)
    ensures MarkerLines(lines) == []
    decreases |lines|
  {
    if lines != [] {
      MarkerLinesPlain(lines[1..]);
    }
  }

  lemma {:induction false} RenderMarkers(ss: seq<Section>)
    requires NoMarkerLines(Paragraphs(ss))
    ensures MarkerLines(Render(ss)) == Markers(Written(ss))
    decreases |ss|
  {
    if ss != [] {
      var ps := ss[0].paragraphs;
      NoMarkerLinesSplit(ps, Paragraphs(ss[1..]));
      RenderMarkers(ss[1..]);
      MarkerLinesAppend(Block(ss[0]), Render(ss[1..]));
      if ps != [] {
        var m := Marker(ss[0].heading);
        assert IsMarkerLine(m);
        assert MarkerLines([m]) == [m] by {
          assert [m][1..] == [];
        }
        MarkerLinesAppend([m], ps);
        MarkerLinesPlain(ps);
        assert Written(ss) == [ss[0]] + Written(ss[1..]);
        assert Markers([ss[0]] + Written(ss[1..])) == [Marker(ss[0].heading)] + Markers(Written(ss[1..])) by {
          assert ([ss[0]] + Written(ss[1..]))[1..] == Written(ss[1..]);
        }
      } else {
        assert Written(ss) == Written(ss[1..]);
        assert Block(ss[0]) + Render(ss[1..]) == Render(ss[1..]);
      }
    }
  }

  /**
    The markers written are those of the sections that have paragraphs, in
    order; the sections are headed "Introduction" and then the cleaned text
    of each heading, in document order.
   */
  lemma ArticleMarkers(es: seq<Element>)
    requires forall e | e in es :: Stripped(e.text)
    ensures MarkerLines(ArticleLines(es)) == Markers(Written(Split(Introduction, es)))
    ensures Headings(Split(Introduction, es)) == [Introduction] + CleanAll(HeadingTexts(es))
  {
    SplitKeepsParagraphs(Introduction, es);
    StrippedParagraphs(es);
    RenderMarkers(Split(Introduction, es));
    SplitHeadings(Introduction, es);
  }

  /**
    A heading that ends in `"[edit]"` and has no other occurrence loses just
    that suffix, whatever follows it.
   */
  lemma CleanEditSuffix(s: string, t: string)
    requires !Contains(s, EditLink)
    ensures CleanHeading(s + EditLink + t) == s + CleanHeading(t)
  {
    assert FirstUnique(EditLink);
    RemoveAllAfter(s, EditLink, t);
  }

  lemma EditLinkStripped()
    ensures CleanHeading("History[edit]") == "History"
  {
    var s := "History";
    forall i | 0 <= i && i + 6 <= |s| ensures !OccursAt(s, EditLink, i) {
      assert s[i] != '[';
    }
    CleanEditSuffix(s, "");
    assert s + EditLink + "" == "History[edit]";
  }

  /**
    `str.replace` makes one left-to-right pass, so removing one occurrence
    can bring two halves together into a new one that stays.
   */
  lemma EditLinkCanSurvive()
    ensures CleanHeading("[ed[edit]it]") == "[edit]"
  {
    var s := "[ed[edit]it]";
    assert s[..6][3] != EditLink[3];
    assert s[1..][..6][0] != EditLink[0];
    assert s[2..][..6][0] != EditLink[0];
    assert s[3..][..6] == EditLink;
    assert s[3..][6..] == "it]";
    assert RemoveAll("it]", EditLink) == "it]";
    assert RemoveAll(s[3..], EditLink) == "it]";
    assert RemoveAll(s[2..], EditLink) == "dit]";
    assert RemoveAll(s[1..], EditLink) == "edit]";
  }

  /** A heading shorter than `"[edit]"` is kept as it is. */
  lemma CleanShortHeading(text: string)
    requires |text| < |EditLink|
    ensures CleanHeading(text) == text
  {
  }

  /**
    The worked example: paragraphs before any heading go under
    "Introduction", each later group under its own heading.
   */
  lemma GroupingExample()
    ensures ArticleLines([Element(P, "P1"), Element(H2, "H1"), Element(P, "P2"), Element(H3, "H2"), Element(P, "P3")])
      == [Marker("Introduction"), "P1", Marker("H1"), "P2", Marker("H2"), "P3"]
  {
    var es := [Element(P, "P1"), Element(H2, "H1"), Element(P, "P2"), Element(H3, "H2"), Element(P, "P3")];
    var ss := [Section("Introduction", ["P1"]), Section("H1", ["P2"]), Section("H2", ["P3"])];
    GroupingExampleSections();
    assert Block(ss[0]) == [Marker("Introduction"), "P1"];
    assert Block(ss[1]) == [Marker("H1"), "P2"];
    assert Block(ss[2]) == [Marker("H2"), "P3"];
    RenderCons(ss[0], ss[1..]);
    RenderCons(ss[1], ss[2..]);
    RenderCons(ss[2], []);
  }

  lemma GroupingExampleSections()
    ensures Split(Introduction, [Element(P, "P1"), Element(H2, "H1"), Element(P, "P2"), Element(H3, "H2"), Element(P, "P3")])
      == [Section("Introduction", ["P1"]), Section("H1", ["P2"]), Section("H2", ["P3"])]
  {
    var es := [Element(P, "P1"), Element(H2, "H1"), Element(P, "P2"), Element(H3, "H2"), Element(P, "P3")];
    var tail := es[2..];
    {
      CleanShortHeading("H1");
      CleanShortHeading("H2");
      assert es == es[..1] + [es[1]] + es[2..];
      assert ParagraphTexts(es[..1]) == ["P1"];
      SplitAtHeading(Introduction, es[..1], es[1], tail);
      assert tail == tail[..1] + [tail[1]] + tail[2..];
      assert ParagraphTexts(tail[..1]) == ["P2"];
      SplitAtHeading("H1", tail[..1], tail[1], tail[2..]);
      assert ParagraphTexts(tail[2..]) == ["P3"];
      SplitWithoutHeading("H2", tail[2..]);
    }
  }

  /**
    A heading followed directly by another heading writes nothing, and an
    empty paragraph is dropped.
   */
  lemma EmptySectionExample()
    ensures ArticleLines([Element(H2, "A"), Element(H2, "B"), Element(P, "x"), Element(P, "")])
      == [Marker("B"), "x"]
  {
    var fs := [Element(H2, "A"), Element(H2, "B"), Element(P, "x"), Element(P, "")];
    var ts := [Section("Introduction", []), Section("A", []), Section("B", ["x"])];
    assert Split(Introduction, fs) == ts by {
      CleanShortHeading("A");
      CleanShortHeading("B");
      assert fs == [] + [fs[0]] + fs[1..];
      SplitAtHeading(Introduction, [], fs[0], fs[1..]);
      assert fs[1..] == [] + [fs[1]] + fs[2..];
      SplitAtHeading("A", [], fs[1], fs[2..]);
      assert ParagraphTexts(fs[2..]) == ["x"];
      SplitWithoutHeading("B", fs[2..]);
    }
    RenderCons(ts[0], ts[1..]);
    RenderCons(ts[1], ts[2..]);
    RenderCons(ts[2], []);
  }
}
