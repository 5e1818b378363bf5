/** The stop test on concrete markup, and a worked page from the crawled
    site. */
module Scenarios {
  import opened Wrappers
  import opened Strings
  import opened Items
  import opened Spider

  /** Any markup holding the exact tag `<strong>` stops the loop, wherever
      the tag sits and whatever the paragraph's text node is. */
  lemma ExactTagStops(pre: string, post: string, t: Option<string>)
    ensures IsStop(Paragraph(pre + StrongTag + post, t))
  {
    var s := pre + StrongTag + post;
    assert s[|pre|..|pre| + |StrongTag|] == StrongTag;
    assert OccursAt(s, StrongTag, |pre|);
  }

  /** The word `w` of `TagLikeWordBreaksMatches` at one position `i`: an
      occurrence there would have to lie inside `a` or inside `c`. */
  lemma TagLikeWordAt(a: string, w: string, c: string, i: int)
    requires |w| == |StrongTag| && w[0] == '<' && '<' !in w[1..] && w != StrongTag
    requires !OccursAt(a, StrongTag, i) && !OccursAt(c, StrongTag, i - |a| - |w|)
    ensures !OccursAt(a + w + c, StrongTag, i)
  {
    var s := a + w + c;
    var n := |StrongTag|;
    if 0 <= i && i + n <= |s| {
      if i + n <= |a| {
        assert s[i..i + n] == a[i..i + n];
      } else if i < |a| {
        assert s[i..i + n][|a| - i] == '<' != StrongTag[|a| - i];
      } else if i == |a| {
        assert s[i..i + n] == w;
      } else if i < |a| + n {
        assert s[i..i + n][0] == w[1..][i - |a| - 1] != '<';
      } else {
        assert s[i..i + n] == c[i - |a| - n..i - |a|];
      }
    }
  }

  /** An eight-character word that opens with `<`, holds no other `<` and is
      not `<strong>` itself cannot be part of an occurrence of `<strong>`:
      every occurrence in `a + w + c` lies inside `a` or inside `c`. */
  lemma TagLikeWordBreaksMatches(a: string, w: string, c: string)
    requires |w| == |StrongTag| && w[0] == '<' && '<' !in w[1..] && w != StrongTag
    requires !Contains(a, StrongTag) && !Contains(c, StrongTag)
    ensures !Contains(a + w + c, StrongTag)
  {
    forall i | OccursAt(a + w + c, StrongTag, i)
      ensures false
    {
      TagLikeWordAt(a, w, c, i);
    }
  }

  /** The test is case-sensitive: an upper-case tag does not stop the loop. */
  lemma {:induction false} UpperCaseTagDoesNotStop(a: string, c: string, t: Option<string>)
    requires !Contains(a, StrongTag) && !Contains(c, StrongTag)
    ensures !IsStop(Paragraph(a + "<STRONG>" + c, t))
  {
    TagLikeWordBreaksMatches(a, "<STRONG>", c);
  }

  /** The test is literal: a `strong` tag carrying attributes does not stop
      the loop. */
  lemma {:induction false} AttributedTagDoesNotStop(a: string, attributes: string, t: Option<string>)
    requires !Contains(a, StrongTag) && !Contains(attributes, StrongTag)
    ensures !IsStop(Paragraph(a + "<strong " + attributes, t))
  {
    TagLikeWordBreaksMatches(a, "<strong ", attributes);
  }

  /** The test reads the markup, not the text: a paragraph whose markup
      escapes the tag while its text node reads `<strong>` does not stop the
      loop, and the tag reaches the content. */
  lemma EscapedTagReachesContent(m: string)
    requires !Contains(m, StrongTag)
    ensures Content([Paragraph(m, Some(StrongTag))]) == Success(StrongTag)
  {
    var ps := [Paragraph(m, Some(StrongTag))];
    assert ps[1..] == [];
    assert StrongTag + "" == StrongTag;
  }

  /** An example statement page at the first start URL: its contact
      paragraph carries `<strong>` (markup `<p><strong>Contact:</strong>
      Internet: www.nbs.sk</p>`), so only the introduction reaches the
      content. */
  lemma StatementPage()
    ensures Parse(Page(
      "https://nbs.sk/en/news/s-tatement-from-the-27th-meeting-of-the-bank-board-of-the-nbs/",
      Some("14.1.2010"),
      Some("Statement from the 27th meeting"),
      Some("Press release"),
      [ Paragraph("<p>Intro text.</p>", Some("Intro text.")),
        Paragraph("<p>" + StrongTag + "Contact:</strong> Internet: www.nbs.sk</p>", Some(" Internet: www.nbs.sk")) ]))
      == Success(Item(
        Some("14.1.2010"),
        Some("Statement from the 27th meeting"),
        "https://nbs.sk/en/news/s-tatement-from-the-27th-meeting-of-the-bank-board-of-the-nbs/",
        Some("Press release"),
        "Intro text."))
  {
    IntroductionIsKept();
    ExactTagStops("<p>", "Contact:</strong> Internet: www.nbs.sk</p>", Some(" Internet: www.nbs.sk"));
    KeptThenStop(
      Paragraph("<p>Intro text.</p>", Some("Intro text.")),
      Paragraph("<p>" + StrongTag + "Contact:</strong> Internet: www.nbs.sk</p>", Some(" Internet: www.nbs.sk")));
  }

  lemma IntroductionIsKept()
    ensures !Contains("<p>Intro text.</p>", StrongTag)
  {
    var m := "<p>Intro text.</p>";
    assert m[..8][1] != StrongTag[1];
    assert m[1..][..8][0] != '<';
    assert m[2..][..8][0] != '<';
    assert m[3..] == "Intro text." + "</p>";
    NoMatchWithoutFirstChar("Intro text.", "</p>", StrongTag);
  }

  /** A kept paragraph followed by a stop paragraph: the content is the
      kept paragraph's text alone. */
  lemma KeptThenStop(p: Paragraph, q: Paragraph)
    requires !IsStop(p) && p.text.Some? && IsStop(q)
    ensures Content([p, q]) == Success(p.text.value)
  {
    assert [p, q][1..] == [q];
    assert p.text.value + "" == p.text.value;
  }

  /** A paragraph whose only text sits inside a nested element has no direct
      text node; when it is not a stop paragraph and comes first, `parse`
      raises on it whatever follows. */
  lemma NestedOnlyParagraphFails(m: string, qs: seq<Paragraph>)
    requires !Contains(m, StrongTag)
    ensures Content([Paragraph(m, None)] + qs) == Failure(MissingText(0))
  {
  }
}
