/** Properties of the article body that `ArticleSpider.parse` assembles. */
module ContentProperties {
  import opened Wrappers
  import opened Strings
  import opened Items
  import opened Spider

  /** A page without `<p>` elements yields an item with empty content. */
  lemma EmptyPageHasEmptyContent(page: Page)
    requires |page.paragraphs| == 0
    ensures Parse(page) == Success(Item(page.date, page.name, page.url, page.labels, ""))
  {
  }

  /** When the first paragraph is a stop paragraph the content is empty,
      whatever its text node and whatever follows: no text is read. */
  lemma FirstStopReadsNothing(p: Paragraph, t: Option<string>, qs: seq<Paragraph>, qs': seq<Paragraph>)
    requires IsStop(p)
    ensures Content([p] + qs) == Success("")
    ensures Content([Paragraph(p.markup, t)] + qs') == Content([p] + qs)
  {
  }

  /** Paragraphs placed after a stop paragraph never change the outcome. */
  lemma {:induction false} AppendAfterStop(ps: seq<Paragraph>, qs: seq<Paragraph>)
    requires exists i :: 0 <= i < |ps| && IsStop(ps[i])
    ensures Content(ps + qs) == Content(ps)
    decreases |ps|
  {
    assert (ps + qs)[0] == ps[0];
    if !IsStop(ps[0]) {
      assert (ps + qs)[1..] == ps[1..] + qs;
      var i :| 0 <= i < |ps| && IsStop(ps[i]);
      assert IsStop(ps[1..][i - 1]);
      AppendAfterStop(ps[1..], qs);
    }
  }

  /** The stop paragraph at index `k` and everything after it contribute
      nothing: the outcome is that of the paragraphs before it. */
  lemma {:induction false} StopAndLaterDropped(ps: seq<Paragraph>, k: nat)
    requires k < |ps| && IsStop(ps[k])
    requires forall i :: 0 <= i < k ==> !IsStop(ps[i])
    ensures Content(ps) == Content(ps[..k])
    decreases k
  {
    if k > 0 {
      assert ps[..k][0] == ps[0];
      assert ps[..k][1..] == ps[1..][..k - 1];
      StopAndLaterDropped(ps[1..], k - 1);
    }
  }

  /** Without a stop paragraph every text node is joined, in order. */
  lemma {:induction false} NoStopJoinsEverything(ps: seq<Paragraph>)
    requires forall i :: 0 <= i < |ps| ==> !IsStop(ps[i])
    requires AllHaveText(ps)
    ensures Content(ps) == Success(Concat(Texts(ps)))
  {
    ContentIsJoinOfKept(ps);
    assert KeptCount(ps) == |ps|;
    assert Kept(ps) == ps;
  }

  /** Content grows by extension: the content of `ps` is a prefix of the
      content of `ps + qs` whenever the latter exists, and a failure on `ps`
      is the same failure on `ps + qs`. */
  lemma {:induction false} ContentPrefix(ps: seq<Paragraph>, qs: seq<Paragraph>)
    ensures Content(ps + qs).Success? ==>
      Content(ps).Success? && Content(ps).value <= Content(ps + qs).value
    ensures Content(ps).Failure? ==> Content(ps + qs) == Content(ps)
    decreases |ps|
  {
    if |ps| == 0 {
      assert ps + qs == qs;
    } else {
      assert (ps + qs)[0] == ps[0];
      assert (ps + qs)[1..] == ps[1..] + qs;
      ContentPrefix(ps[1..], qs);
    }
  }

  /** Without a stop paragraph in `ps`, the content of `ps + qs` is the
      content of `ps` followed by the content of `qs`. */
  lemma {:induction false} ContentSplit(ps: seq<Paragraph>, qs: seq<Paragraph>)
    requires forall i :: 0 <= i < |ps| ==> !IsStop(ps[i])
    requires Content(ps).Success? && Content(qs).Success?
    ensures Content(ps + qs) == Success(Content(ps).value + Content(qs).value)
    decreases |ps|
  {
    if |ps| == 0 {
      assert ps + qs == qs;
      assert Content(ps).value == "";
      assert "" + Content(qs).value == Content(qs).value;
    } else {
      var t := ps[0].text.value;
      var c := Content(ps[1..]).value;
      var d := Content(qs).value;
      assert Content(ps) == Success(t + c);
      assert (ps + qs)[0] == ps[0];
      assert (ps + qs)[1..] == ps[1..] + qs;
      assert forall i :: 0 <= i < |ps| - 1 ==> !IsStop(ps[1..][i]) by {
        forall i | 0 <= i < |ps| - 1 ensures !IsStop(ps[1..][i]) {
          assert ps[1..][i] == ps[i + 1];
        }
      }
      ContentSplit(ps[1..], qs);
      assert Content(ps + qs) == Success(t + (c + d));
      AppendAssociates(t, c, d);
    }
  }

  /** A text node missing before the stop paragraph makes `parse` raise, at
      the first such paragraph, and no item is yielded. */
  lemma {:induction false} MissingTextFails(page: Page, i: nat)
    requires i < KeptCount(page.paragraphs) && page.paragraphs[i].text == None
    ensures Parse(page).Failure?
    ensures Parse(page).error.index <= i
  {
    ContentIsJoinOfKept(page.paragraphs);
    assert Kept(page.paragraphs)[i] == page.paragraphs[i];
  }

  /** A missing text node at or after the stop paragraph is never read. */
  lemma MissingTextAfterStopIgnored(ps: seq<Paragraph>, qs: seq<Paragraph>)
    requires |ps| > 0 && IsStop(ps[|ps| - 1])
    requires forall i :: 0 <= i < |ps| - 1 ==> !IsStop(ps[i]) && ps[i].text.Some?
    ensures Content(ps + qs).Success?
  {
    AppendAfterStop(ps, qs);
    ContentIsJoinOfKept(ps);
    assert KeptCount(ps) == |ps| - 1;
  }
}
