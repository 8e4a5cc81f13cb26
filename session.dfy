/** The per-session state the page keeps between reruns: the text to be
    summarized and the URL last entered. */
module Session {
  import opened Wrappers
  import opened Extraction

  class SessionState {
    var inputContent: string
    var url: string

    /** A new session starts with no content and no URL. */
    constructor ()
      ensures inputContent == [] && url == []
    {
      inputContent := [];
      url := [];
    }

    /** The content is replaced by the extracted text when extraction produced
        a result, and kept as it was when it produced None (an error). */
    method ApplyExtraction(result: Result<ArticleContent, string>)
      modifies this
      ensures inputContent == (if result.Success? then result.value.text else old(inputContent))
      ensures url == old(url)
    {
      if result.Success? {
        inputContent := result.value.text;
      }
    }

    /** URL mode: the entered URL is stored and, when it is not empty, the
        article behind it is extracted and applied to the content. */
    method SubmitUrl(newUrl: string, structured: Result<Article, string>, fetched: Result<Page, string>,
                     isSpace: char -> bool)
      modifies this
      ensures url == newUrl
      ensures var r := Extract(structured, fetched, isSpace);
        inputContent == (if newUrl != [] && r.Success? then r.value.text else old(inputContent))
    {
      url := newUrl;
      if url != [] {
        var r := Extract(structured, fetched, isSpace);
        ApplyExtraction(r);
      }
    }
  }
}
