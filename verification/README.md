# Article spider: record assembly

This project models the part of the WebCrawling crawler that turns one
fetched news page of nbs.sk into one stored record: `ArticleSpider.parse`.
For each response it reads the first match of three selectors (post date,
headline, label), takes the request URL, and assembles the article body by
walking the page's `<p>` elements in document order, appending each
paragraph's first direct text node until it meets a paragraph whose raw
markup contains the literal `<strong>`. That paragraph and everything after
it are dropped. The result is a `CrawlingItem` with five fields.

Selector evaluation is a call into Scrapy/parsel and is not modelled: its
results are the inputs. A `Paragraph` is the pair (raw markup as
`selector.get()` returns it, first direct text node as
`selector.css("p::text").get()` returns it, possibly `None`); a `Page` is the
request URL, the three selector results (each possibly `None`) and the
paragraphs.

Files:

- `wrappers.dfy` (`Wrappers`): `Option` for Python's `None`, `Result` for a
  call that raises.
- `strings.dfy` (`Strings`): Python's substring test `pat in s`, characterised
  by occurrence at an index, and `Concat`, the left-to-right `+=` join.
- `items.dfy` (`Items`): the five-field `Item` record.
- `spider.dfy` (`Spider`): paragraphs, pages, the stop test, the take-while
  length `KeptCount`, the body `Content` and its characterisation, `Parse`, and `AssembleContent`, the
  loop exactly as the source writes it, proved equal to `Content`.
- `content_properties.dfy` (`ContentProperties`): prefix, split and
  stop-paragraph properties of the body.
- `scenarios.dfy` (`Scenarios`): what the stop test does and does not match,
  and an example statement page.

Behaviour of the code worth noting:

- A selector miss leaves the field `None`.
- Only the exact lower-case `<strong>` in the raw markup stops the loop, and
  no markup is stripped: a paragraph's text is its first direct text node
  only.
- A paragraph before the stop paragraph that has no direct text node (empty,
  or with all its text inside nested elements) makes `content += None` raise
  a `TypeError`; `parse` then yields no item. The model returns
  `Failure(MissingText(i))` with the index of the first such paragraph.
- The body can contain the text `<strong>`: the stop test reads the markup,
  so a paragraph that escapes the tag (`&lt;strong&gt;`) is kept and its text
  node reaches the content (`Scenarios.EscapedTagReachesContent`).

The stop test works on the markup string that `selector.get()` returns. That
string is re-serialised by the HTML parser, which lower-cases tag names, so an
upper-case tag in the fetched HTML usually reaches the test in lower case; the
case-sensitivity lemmas are about the string the test actually sees.

## Model

| member | source | states |
|---|---|---|
| Strings.Contains | crawling/crawling/spiders/my_spider.py:40 | `pat in s` holds exactly when `pat` occurs contiguously at some index of `s` |
| Spider.IsStop | crawling/crawling/spiders/my_spider.py:39-40 | a paragraph stops the loop exactly when `"<strong>" in selector.get()`, i.e. when `<strong>` occurs at some index of its raw markup (via `Contains`) |
| Spider.Content | crawling/crawling/spiders/my_spider.py:36-42 | a failure names a paragraph that lacks a text node; its full meaning is stated by `ContentIsJoinOfKept` |
| Spider.KeptCount | crawling/crawling/spiders/my_spider.py:38-41 | the length of the longest prefix without a stop paragraph: no paragraph before it is a stop paragraph, and the paragraph at it, if any, is one |
| Spider.ContentIsJoinOfKept | crawling/crawling/spiders/my_spider.py:36-42 | `Content`, the body followed paragraph by paragraph, is the take-while then join: it succeeds exactly when every paragraph before the first stop paragraph has a text node, and is then their texts joined in order; otherwise it fails at the first such paragraph without text |
| Spider.StopsAt | crawling/crawling/spiders/my_spider.py:38-41 | when the loop leaves at a stop paragraph or at the end, the body is the join of the texts visited so far |
| Spider.RaisesAt | crawling/crawling/spiders/my_spider.py:42 | when the loop meets a kept paragraph without text node after texts for all earlier ones, the body fails at exactly that index |
| Spider.AssembleContent | crawling/crawling/spiders/my_spider.py:36-42 | the loop as written (start from `''`, break on `<strong>`, append or raise) computes exactly `Content` |
| Spider.Parse | crawling/crawling/spiders/my_spider.py:29-50 | one item per page: link is the request URL, date/name/labels the selector results unchanged (possibly `None`), content the assembled body; fails exactly when the body fails, with the same error |
| ContentProperties.EmptyPageHasEmptyContent | crawling/crawling/spiders/my_spider.py:36-48 | a page without `<p>` elements yields an item with content `''` |
| ContentProperties.FirstStopReadsNothing | crawling/crawling/spiders/my_spider.py:38-41 | if the first paragraph is a stop paragraph the content is `''`, independent of its text node and of every later paragraph |
| ContentProperties.AppendAfterStop | crawling/crawling/spiders/my_spider.py:40-41 | appending paragraphs after a stop paragraph never changes the outcome |
| ContentProperties.StopAndLaterDropped | crawling/crawling/spiders/my_spider.py:38-42 | the first stop paragraph and all later ones contribute nothing: the outcome equals that of the paragraphs before it |
| ContentProperties.NoStopJoinsEverything | crawling/crawling/spiders/my_spider.py:38-42 | without a stop paragraph, the content is every paragraph's text joined in order |
| ContentProperties.ContentPrefix | crawling/crawling/spiders/my_spider.py:38-42 | for any split `ps + qs`, the content of `ps` is a prefix of that of `ps + qs` when the latter exists, and a failure on `ps` is the same failure on `ps + qs` |
| ContentProperties.ContentSplit | crawling/crawling/spiders/my_spider.py:38-42 | without a stop paragraph in `ps`, the content of `ps + qs` is the content of `ps` followed by that of `qs` |
| ContentProperties.MissingTextFails | crawling/crawling/spiders/my_spider.py:42 | a paragraph without text node before the stop paragraph makes `parse` fail, at that paragraph or an earlier one |
| ContentProperties.MissingTextAfterStopIgnored | crawling/crawling/spiders/my_spider.py:40-42 | text nodes at or after the stop paragraph are never read, so missing ones there cannot make `parse` fail |
| Scenarios.ExactTagStops | crawling/crawling/spiders/my_spider.py:39-40 | markup holding `<strong>` anywhere stops the loop, whatever the text node |
| Scenarios.TagLikeWordBreaksMatches | crawling/crawling/spiders/my_spider.py:40 | an eight-character word that opens with `<`, holds no other `<` and is not `<strong>` adds no occurrence of `<strong>` to markup around it |
| Scenarios.UpperCaseTagDoesNotStop | crawling/crawling/spiders/my_spider.py:40 | the test is case-sensitive: `<STRONG>` does not stop the loop |
| Scenarios.AttributedTagDoesNotStop | crawling/crawling/spiders/my_spider.py:40 | the test is literal: `<strong ` followed by attributes does not stop the loop |
| Scenarios.EscapedTagReachesContent | crawling/crawling/spiders/my_spider.py:39-42 | the test reads markup, not text: a text node `<strong>` under markup without the tag is kept in the content |
| Scenarios.KeptThenStop | crawling/crawling/spiders/my_spider.py:38-42 | a kept paragraph followed by a stop paragraph gives exactly the kept paragraph's text |
| Scenarios.StatementPage | crawling/crawling/spiders/my_spider.py:29-50 | an example statement page whose second paragraph opens with `<strong>Contact:</strong>` yields content `Intro text.` and its selector values unchanged |
| Scenarios.NestedOnlyParagraphFails | crawling/crawling/spiders/my_spider.py:42 | a first, non-stop paragraph without a direct text node makes `parse` raise at index 0 |

## Left out

- The fixed `start_urls` list and Scrapy's fetch/callback machinery
  (`crawling/crawling/spiders/my_spider.py:6-27`): network I/O with no logic.
- CSS selector evaluation (`response.css(...)`, `selector.get()`,
  `selector.css("p::text").get()`): a call into parsel; its results are the
  model's inputs.
- The `TypeError` itself: the model keeps only the index of the paragraph that
  raised, not the exception object or traceback.
- `crawling/crawling/pipelines.py`: SQLite I/O, with SQL built by string
  interpolation, ids assigned by SQLite's autoincrement and a Windows-only
  path join; none of it is logic of the spider.
- `api/fastapi/main.py`, `crud.py`, `models.py`, `schemas.py`: FastAPI,
  SQLAlchemy and pydantic wrappers without local logic; `main.py` calls
  `get_items`/`get_item`/`delete_item`, which `crud.py` does not define.
- The `CrawlingItem` class is a Scrapy item with untyped fields; it is modelled
  only as the `Item` record the spider fills.
