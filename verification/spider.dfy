/** `ArticleSpider.parse`: turns one fetched article page into one item.
    CSS selector evaluation is not modelled; its results are the inputs. */
module Spider {
  import opened Wrappers
  import opened Strings
  import opened Items

  /** The markup whose presence in a paragraph ends the article body. */
  const StrongTag: string := "<strong>"

  /** One `<p>` element as the selector yields it: its raw markup
      (`selector.get()`) and its first direct text node
      (`selector.css("p::text").get()`, `None` when there is none). */
  datatype Paragraph = Paragraph(markup: string, text: Option<string>)

  /** What `parse` reads from a response: the request URL, the first matches
      of the date, headline and label selectors, and every `<p>` element in
      document order. */
  datatype Page = Page(
    url: string,
    date: Option<string>,
    name: Option<string>,
    labels: Option<string>,
    paragraphs: seq<Paragraph>
  )

  /** `content += None` raises a `TypeError`; `index` is the position of the
      paragraph whose text was missing. */
  datatype ParseError = MissingText(index: nat)

  /** The stop test: a case-sensitive search for the literal `<strong>` in
      the paragraph's raw markup. */
  predicate IsStop(p: Paragraph)
    ensures IsStop(p) <==> exists i :: OccursAt(p.markup, StrongTag, i)
  {
    Contains(p.markup, StrongTag)
  }

  /** The number of paragraphs before the first stop paragraph: the length
      of the longest prefix none of whose paragraphs is a stop paragraph. */
  function KeptCount(ps: seq<Paragraph>): (k: nat)
    ensures k <= |ps|
    ensures forall i :: 0 <= i < k ==> !IsStop(ps[i])
    ensures k < |ps| ==> IsStop(ps[k])
  {
    if |ps| == 0 || IsStop(ps[0]) then 0 else 1 + KeptCount(ps[1..])
  }

  /** The paragraphs whose text goes into the content. */
  function Kept(ps: seq<Paragraph>): seq<Paragraph>
  {
    ps[..KeptCount(ps)]
  }

  predicate AllHaveText(ps: seq<Paragraph>) {
    forall i :: 0 <= i < |ps| ==> ps[i].text.Some?
  }

  /** The text nodes of paragraphs that all have one. */
  function Texts(ps: seq<Paragraph>): (ts: seq<string>)
    requires AllHaveText(ps)
    ensures |ts| == |ps|
    ensures forall i :: 0 <= i < |ps| ==> ps[i].text == Some(ts[i])
  {
    seq(|ps|, i requires 0 <= i < |ps| => ps[i].text.value)
  }

  lemma TextsCons(ps: seq<Paragraph>, t: string)
    requires |ps| > 0 && ps[0].text == Some(t) && AllHaveText(ps[1..])
    ensures AllHaveText(ps)
    ensures Texts(ps) == [t] + Texts(ps[1..])
  {
  }

  /** The article body, following the paragraphs in document order: empty
      at the end or at a stop paragraph, otherwise this paragraph's text
      node followed by the body of the rest; a paragraph without text node
      raises. */
  function Content(ps: seq<Paragraph>): (r: Result<string, ParseError>)
    ensures r.Failure? ==> r.error.index < |ps| && ps[r.error.index].text == None
  {
    if |ps| == 0 || IsStop(ps[0]) then
      Success("")
    else
      match ps[0].text
      case None =>
        Failure(MissingText(0))
      case Some(t) =>
        match Content(ps[1..])
        case Success(c) => Success(t + c)
        case Failure(MissingText(i)) => Failure(MissingText(i + 1))
  }

  /** The body is the take-while of the loop followed by the join: it
      succeeds exactly when every paragraph before the first stop paragraph
      has a text node, and is then their texts joined in order; otherwise it
      fails at the first of those paragraphs without text. */
  lemma {:induction false} ContentIsJoinOfKept(ps: seq<Paragraph>)
    ensures Content(ps).Success? <==> AllHaveText(Kept(ps))
    ensures Content(ps).Success? ==> Content(ps).value == Concat(Texts(Kept(ps)))
    ensures Content(ps).Failure? ==>
      && Content(ps).error.index < KeptCount(ps)
      && ps[Content(ps).error.index].text == None
      && AllHaveText(ps[..Content(ps).error.index])
    decreases |ps|
  {
    if |ps| == 0 || IsStop(ps[0]) {
    } else {
      assert Kept(ps) == [ps[0]] + Kept(ps[1..]);
      ContentIsJoinOfKept(ps[1..]);
      match ps[0].text
      case None =>
      case Some(t) =>
        match Content(ps[1..])
        case Success(c) =>
          TextsCons(Kept(ps), t);
          ConcatPrepend(t, Texts(Kept(ps[1..])));
        case Failure(MissingText(i)) =>
          assert ps[..i + 1] == [ps[0]] + ps[1..][..i];
          assert Kept(ps)[i + 1] == ps[1..][i];
    }
  }

  /** `ArticleSpider.parse`: the three selector results and the request URL
      pass through unchanged, and the content is assembled from the
      paragraphs; a missing text node before the stop paragraph makes the
      call raise, and then no item is yielded. */
  function Parse(page: Page): (r: Result<Item, ParseError>)
    ensures r.Success? <==> Content(page.paragraphs).Success?
    ensures r.Success? ==>
      && r.value.link == page.url
      && r.value.date == page.date
      && r.value.name == page.name
      && r.value.labels == page.labels
      && r.value.content == Content(page.paragraphs).value
    ensures r.Failure? ==> r.error == Content(page.paragraphs).error
  {
    var content :- Content(page.paragraphs);
    Success(Item(page.date, page.name, page.url, page.labels, content))
  }

  /** Appending one more paragraph's text to the running content. */
  lemma AppendStep(ps: seq<Paragraph>, i: nat, t: string)
    requires i < |ps| && ps[i].text == Some(t) && AllHaveText(ps[..i])
    ensures AllHaveText(ps[..i + 1])
    ensures Concat(Texts(ps[..i + 1])) == Concat(Texts(ps[..i])) + t
  {
    assert ps[..i + 1] == ps[..i] + [ps[i]];
    assert Texts(ps[..i + 1])[..i] == Texts(ps[..i]);
  }

  /** The outcome once the loop has visited `i` kept paragraphs and stops,
      either at a stop paragraph or at the end. */
  lemma {:induction false} StopsAt(ps: seq<Paragraph>, i: nat)
    requires i <= |ps| && (i < |ps| ==> IsStop(ps[i]))
    requires forall j :: 0 <= j < i ==> !IsStop(ps[j])
    requires AllHaveText(ps[..i])
    ensures Content(ps) == Success(Concat(Texts(ps[..i])))
  {
    ContentIsJoinOfKept(ps);
    assert KeptCount(ps) == i;
  }

  /** The outcome once the loop reaches a kept paragraph without text. */
  lemma {:induction false} RaisesAt(ps: seq<Paragraph>, i: nat)
    requires i < |ps| && !IsStop(ps[i]) && ps[i].text == None
    requires forall j :: 0 <= j < i ==> !IsStop(ps[j])
    requires AllHaveText(ps[..i])
    ensures Content(ps) == Failure(MissingText(i))
    decreases i
  {
    if i > 0 {
      assert ps[..i][0] == ps[0];
      var rest := ps[1..];
      assert rest[i - 1] == ps[i];
      assert forall j :: 0 <= j < i - 1 ==> rest[j] == ps[j + 1];
      RaisesAt(rest, i - 1);
    }
  }

  /** The loop of `parse` as written: walk the paragraphs in order, stop at
      the first whose markup holds `<strong>`, otherwise append its text
      node, raising when there is none. */
  method AssembleContent(ps: seq<Paragraph>) returns (r: Result<string, ParseError>)
    ensures r == Content(ps)
  {
    var content := "";
    var i := 0;
    while i < |ps|
      invariant i <= |ps|
      invariant forall j :: 0 <= j < i ==> !IsStop(ps[j])
      invariant AllHaveText(ps[..i])
      invariant content == Concat(Texts(ps[..i]))
    {
      if Contains(ps[i].markup, StrongTag) {
        break;
      }
      match ps[i].text {
        case None =>
          RaisesAt(ps, i);
          return Failure(MissingText(i));
        case Some(t) =>
          AppendStep(ps, i, t);
          content := content + t;
      }
      i := i + 1;
    }
    StopsAt(ps, i);
    return Success(content);
  }
}
