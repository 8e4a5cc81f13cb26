/** The decisions of `extract_article_content`: keep the structured parser's
    article when its text is long enough, otherwise fall back to the paragraphs
    of the page's main container. The fetching and parsing themselves are not
    modelled: their outcomes are the inputs. */
module Extraction {
  import opened Wrappers
  import opened Text

  /** The structured result is kept only for texts strictly longer than this. */
  const MinStructuredLength: nat := 500

  /** The fallback title when the page has no title element. */
  const NoTitle: string := "No Title Found"

  /** The error of calling `find_all` when the page has none of the containers. */
  const NoContainerMessage: string := "'NoneType' object has no attribute 'find_all'"

  /** The structured parser's article after download, parse and nlp. */
  datatype Article = Article(
    text: string, title: string, keywords: seq<string>, summary: string, images: set<string>)

  /** The fields only the structured path provides. */
  datatype Metadata = Metadata(keywords: seq<string>, summary: string, images: set<string>)

  /** The extraction result: its text, its title (None stands for Python's None,
      which a title element without a single string yields) and, on the
      structured path only, the metadata. */
  datatype ArticleContent = ArticleContent(text: string, title: Option<string>, metadata: Option<Metadata>)

  /** A content element, seen through the `get_text()` of each paragraph under
      it, in document order. */
  datatype Container = Container(paragraphs: seq<string>)

  /** The `<title>` element; `text` is its `.string`. */
  datatype TitleTag = TitleTag(text: Option<string>)

  /** The fallback page after script, style, nav, footer, aside and figure
      elements were removed: its title and the first `article`, the first
      `main` and the `body` element, each where present. */
  datatype Page = Page(
    title: Option<TitleTag>, article: Option<Container>, main: Option<Container>, body: Option<Container>)

  /** `a or b or c ...` over elements that are truthy exactly when present. */
  function FirstPresent<T>(options: seq<Option<T>>): Option<T>
  {
    if options == [] then None
    else if options[0].Some? then options[0]
    else FirstPresent(options[1..])
  }

  /** The content container: the first of article, main and body that exists. */
  function MainContent(page: Page): Option<Container>
  {
    FirstPresent([page.article, page.main, page.body])
  }

  /** A non-empty text that neither starts nor ends with whitespace. */
  ghost predicate Trimmed(t: string, isSpace: char -> bool)
  {
    t != [] && !isSpace(t[0]) && !isSpace(t[|t| - 1])
  }

  /** The stripped paragraph texts that are not empty, in document order. */
  function ParagraphTexts(paragraphs: seq<string>, isSpace: char -> bool): (r: seq<string>)
    ensures |r| <= |paragraphs|
    ensures forall k :: 0 <= k < |r| ==> Trimmed(r[k], isSpace)
  {
    if paragraphs == [] then []
    else
      var t := Strip(paragraphs[0], isSpace);
      var rest := ParagraphTexts(paragraphs[1..], isSpace);
      if t == [] then rest
      else
        assert Trimmed(t, isSpace);
        [t] + rest
  }

  /** The fallback text: the kept paragraph texts, one per line. */
  function FallbackText(container: Container, isSpace: char -> bool): string
  {
    Join("\n", ParagraphTexts(container.paragraphs, isSpace))
  }

  /** The fallback title: the title element's string, or the default when
      there is no title element. */
  function FallbackTitle(page: Page): Option<string>
  {
    match page.title
    case Some(tag) => tag.text
    case None => Some(NoTitle)
  }

  /** The fallback path on a fetched page. */
  function Fallback(page: Page, isSpace: char -> bool): Result<ArticleContent, string>
  {
    match MainContent(page)
    case None => Failure(NoContainerMessage)
    case Some(c) => Success(ArticleContent(FallbackText(c, isSpace), FallbackTitle(page), None))
  }

  /** `extract_article_content`: `structured` is the outcome of the structured
      parser, `fetched` that of the fallback request (consulted only when the
      structured text is too short). Any exception ends the extraction. */
  function Extract(structured: Result<Article, string>, fetched: Result<Page, string>, isSpace: char -> bool)
    : Result<ArticleContent, string>
  {
    match structured
    case Failure(e) => Failure(e)
    case Success(a) =>
      if |a.text| > MinStructuredLength then
        Success(ArticleContent(a.text, Some(a.title), Some(Metadata(a.keywords, a.summary, a.images))))
      else match fetched
        case Failure(e) => Failure(e)
        case Success(page) => Fallback(page, isSpace)
  }

  // ---- the threshold ----

  /** The result carries metadata exactly when the structured text is longer
      than 500 characters; it is then the structured article, field for field. */
  lemma StructuredIff(structured: Result<Article, string>, fetched: Result<Page, string>, isSpace: char -> bool)
    ensures var r := Extract(structured, fetched, isSpace);
      (r.Success? && r.value.metadata.Some?)
      <==> (structured.Success? && |structured.value.text| > MinStructuredLength)
    ensures structured.Success? && |structured.value.text| > MinStructuredLength ==>
      var a := structured.value;
      Extract(structured, fetched, isSpace)
        == Success(ArticleContent(a.text, Some(a.title), Some(Metadata(a.keywords, a.summary, a.images))))
  {
  }

  /** At 500 characters or fewer (exactly 500 included) the structured article
      is dropped: the outcome is that of the fallback alone, whatever the
      article held. */
  lemma ThresholdIsStrict(a: Article, fetched: Result<Page, string>, isSpace: char -> bool)
    requires |a.text| <= MinStructuredLength
    ensures Extract(Success(a), fetched, isSpace)
         == match fetched case Failure(e) => Failure(e) case Success(page) => Fallback(page, isSpace)
  {
  }

  /** A failing structured parse is not followed by the fallback. */
  lemma StructuredFailureIsFinal(e: string, fetched: Result<Page, string>, isSpace: char -> bool)
    ensures Extract(Failure(e), fetched, isSpace) == Failure(e)
  {
  }

  /** A fallback result holds only text and title; the title is the title
      element's string (possibly None), or "No Title Found" when the page has
      no title element. */
  lemma FallbackShape(page: Page, isSpace: char -> bool)
    ensures Fallback(page, isSpace).Success? <==> MainContent(page).Some?
    ensures Fallback(page, isSpace).Success? ==>
      var r := Fallback(page, isSpace).value;
      && r.metadata.None?
      && r.text == FallbackText(MainContent(page).value, isSpace)
      && (page.title.None? ==> r.title == Some(NoTitle))
      && (page.title.Some? ==> r.title == page.title.value.text)
  {
  }

  // ---- the container ----

  /** FirstPresent yields the first present option, and nothing only when none
      is present. */
  lemma {:induction false} FirstPresentIsFirst<T>(options: seq<Option<T>>)
    ensures FirstPresent(options).None? <==> forall k :: 0 <= k < |options| ==> options[k].None?
    ensures FirstPresent(options).Some? ==>
      exists i :: 0 <= i < |options| && options[i] == FirstPresent(options)
        && forall k :: 0 <= k < i ==> options[k].None?
  {
    if options != [] && options[0].None? {
      FirstPresentIsFirst(options[1..]);
      var r := FirstPresent(options);
      if r.Some? {
        var i :| 0 <= i < |options[1..]| && options[1..][i] == r
          && forall k :: 0 <= k < i ==> options[1..][k].None?;
        assert options[i + 1] == r;
        assert forall k :: 0 <= k < i + 1 ==> options[k].None? by {
          forall k | 0 <= k < i + 1 ensures options[k].None? {
            if k > 0 { assert options[k] == options[1..][k - 1]; }
          }
        }
      }
      assert forall k :: 1 <= k < |options| ==> options[k] == options[1..][k - 1];
    }
  }

  /** The container is `article` if there is one, else `main`, else `body`;
      there is none only when all three are missing. */
  lemma ContainerChoice(page: Page)
    ensures page.article.Some? ==> MainContent(page) == page.article
    ensures page.article.None? && page.main.Some? ==> MainContent(page) == page.main
    ensures page.article.None? && page.main.None? ==> MainContent(page) == page.body
    ensures MainContent(page).None? <==> page.article.None? && page.main.None? && page.body.None?
  {
    assert [page.article, page.main, page.body][1..] == [page.main, page.body];
    assert [page.main, page.body][1..] == [page.body];
    assert [page.body][1..] == [];
    assert FirstPresent([page.body]) == page.body;
    assert FirstPresent([page.main, page.body]) == if page.main.Some? then page.main else page.body;
  }

  // ---- the paragraphs ----

  /** Paragraph texts are taken in document order: the texts of two runs of
      paragraphs are those of the first run followed by those of the second. */
  lemma {:induction false} ParagraphTextsAppend(a: seq<string>, b: seq<string>, isSpace: char -> bool)
    ensures ParagraphTexts(a + b, isSpace) == ParagraphTexts(a, isSpace) + ParagraphTexts(b, isSpace)
  {
    if a == [] {
      assert a + b == b;
    } else {
      assert (a + b)[0] == a[0];
      assert (a + b)[1..] == a[1..] + b;
      ParagraphTextsAppend(a[1..], b, isSpace);
    }
  }

  /** One paragraph contributes its stripped text, or nothing when that is empty. */
  lemma ParagraphTextsOne(p: string, isSpace: char -> bool)
    ensures ParagraphTexts([p], isSpace)
         == if forall i :: 0 <= i < |p| ==> isSpace(p[i]) then [] else [Strip(p, isSpace)]
  {
    assert [p][1..] == [];
  }

  /** Every kept text is the stripped text of some paragraph. */
  lemma {:induction false} ParagraphTextsFrom(paragraphs: seq<string>, isSpace: char -> bool)
    ensures forall t :: t in ParagraphTexts(paragraphs, isSpace) ==>
      exists j :: 0 <= j < |paragraphs| && t == Strip(paragraphs[j], isSpace)
  {
    if paragraphs != [] {
      ParagraphTextsFrom(paragraphs[1..], isSpace);
      forall t | t in ParagraphTexts(paragraphs, isSpace)
        ensures exists j :: 0 <= j < |paragraphs| && t == Strip(paragraphs[j], isSpace)
      {
        if t != Strip(paragraphs[0], isSpace) {
          assert t in ParagraphTexts(paragraphs[1..], isSpace);
          var j :| 0 <= j < |paragraphs[1..]| && t == Strip(paragraphs[1..][j], isSpace);
          assert paragraphs[1..][j] == paragraphs[j + 1];
        }
      }
    }
  }

  /** Paragraphs that are already trimmed and non-empty are all kept, as they
      are and in order. */
  lemma {:induction false} TrimmedParagraphsKept(paragraphs: seq<string>, isSpace: char -> bool)
    requires forall k :: 0 <= k < |paragraphs| ==> Trimmed(paragraphs[k], isSpace)
    ensures ParagraphTexts(paragraphs, isSpace) == paragraphs
  {
    if paragraphs != [] {
      StripUnique([], paragraphs[0], [], isSpace);
      assert [] + paragraphs[0] + [] == paragraphs[0];
      TrimmedParagraphsKept(paragraphs[1..], isSpace);
      assert [paragraphs[0]] + paragraphs[1..] == paragraphs;
    }
  }

  /** The fallback text is empty exactly when every paragraph is blank. */
  lemma {:induction false} FallbackTextEmpty(container: Container, isSpace: char -> bool)
    ensures FallbackText(container, isSpace) == []
        <==> forall k :: 0 <= k < |container.paragraphs| ==>
               Strip(container.paragraphs[k], isSpace) == []
  {
    var ps := container.paragraphs;
    var kept := ParagraphTexts(ps, isSpace);
    BlankParagraphs(ps, isSpace);
    if kept != [] {
      assert kept[0] != [];
      assert Join("\n", kept)[..|kept[0]|] == kept[0];
    }
  }

  lemma {:induction false} BlankParagraphs(paragraphs: seq<string>, isSpace: char -> bool)
    ensures ParagraphTexts(paragraphs, isSpace) == []
        <==> forall k :: 0 <= k < |paragraphs| ==> Strip(paragraphs[k], isSpace) == []
  {
    if paragraphs != [] {
      var rest := paragraphs[1..];
      BlankParagraphs(rest, isSpace);
      var t := Strip(paragraphs[0], isSpace);
      assert ParagraphTexts(paragraphs, isSpace)
          == if t == [] then ParagraphTexts(rest, isSpace) else [t] + ParagraphTexts(rest, isSpace);
      assert forall k :: 1 <= k < |paragraphs| ==> paragraphs[k] == rest[k - 1];
    }
  }

  /** When no kept paragraph text holds a line break itself, the lines of the
      fallback text are exactly the kept paragraph texts, so none is empty. */
  lemma FallbackLines(container: Container, isSpace: char -> bool)
    requires ParagraphTexts(container.paragraphs, isSpace) != []
    requires forall t :: t in ParagraphTexts(container.paragraphs, isSpace) ==> '\n' !in t
    ensures Split('\n', FallbackText(container, isSpace)) == ParagraphTexts(container.paragraphs, isSpace)
    ensures forall line :: line in Split('\n', FallbackText(container, isSpace)) ==> line != []
  {
    SplitJoin('\n', ParagraphTexts(container.paragraphs, isSpace));
  }
}
