# Advanced Article Summarizer — verified model of its core

The Advanced Article Summarizer is a single Streamlit page. The user pastes article text or enters a URL. A URL goes through a content extractor: a structured article parser (newspaper3k) is tried first. When its text is not longer than 500 characters, the page is fetched again and its paragraphs are scraped with BeautifulSoup. Pressing "Generate Summary" cuts the current text into fixed-size character chunks. Each chunk is summarized in order by a pretrained model, and the chunk summaries are joined by single spaces.

This project models the decision logic of `main.py` in Dafny and proves what it promises:

- `wrappers.dfy` (`Wrappers`): `Option` (Python's `None`) and `Result` (an exception caught by the program, with its message).
- `text.dfy` (`Text`): the `str` operations the program uses, over an abstract character type. These are `sep.join` (main.py:85, 160) and `str.strip()` (main.py:85). Whitespace is a parameter `isSpace`. The module also defines `Concat` and `Split`, which the program does not call. They are the partners against which properties are stated: the chunks concatenate back to the text, and a joined text splits back into its pieces.
- `chunking.dfy` (`Chunking`): the list comprehension `[text[i:i+size] for i in range(0, len(text), size)]`, as a recursive function, with its partition properties.
- `summarizer.dfy` (`Summarizer`): the summary loop as a method, proved against a specification function. The model is an arbitrary function from the call's position, a chunk and the settings to a summary or a failure. The position stands for the state of the model's sampler: with `do_sample` on, two equal chunks may get different summaries, and the model allows that.
- `extraction.dfy` (`Extraction`): `extract_article_content` as a function of the outcomes of the two fetch-and-parse steps. It covers the 500-character threshold, the `article`/`main`/`body` choice, the paragraph strip/filter/join and the title default.
- `session.dfy` (`Session`): the session state as a class, with the conditional overwrite of `input_content` after an extraction.

Where the documented design and the code differ, the model follows the code:

- If the structured parser raises (download, parse or nlp fails), the whole extraction returns `None`. The fallback is not tried. The fallback runs only after a *successful* structured parse whose text is 500 characters or fewer.
- A fallback page with no non-blank paragraphs is not an error. It yields the empty text, and the session content is then replaced by `""`.
- A page with none of `article`, `main` and `body` makes `None.find_all` raise. The extraction then fails.
- A chunk size of 0 makes `range` raise, which the summary handler catches. A negative chunk size gives no chunks and an empty summary. The page's number input keeps the size between 500 and 2000, but the model covers every integer.

## Model

| member | source | states |
|---|---|---|
| Chunking.Chunks | main.py:144-147 | the chunk list itself; what it guarantees is stated by the Chunking lemmas below (ChunksConcat, ChunkBounds, ChunkLengths, ChunkCount, ChunkAt, NoChunks, SingleChunk) |
| Chunking.ChunksConcat | main.py:144-147 | concatenating the chunks in order gives back the input text exactly |
| Chunking.ChunkBounds | main.py:144-147 | every chunk is non-empty and at most `chunk_size` long (so the last one too) |
| Chunking.ChunkLengths | main.py:144-147 | every chunk except the last is exactly `chunk_size` long |
| Chunking.ChunkCount | main.py:144-147 | the number of chunks is ceil(len(text) / chunk_size) |
| Chunking.ChunkCountBounds | main.py:144-147 | the chunk count is the least number of `chunk_size` slices covering the text |
| Chunking.ChunkAt | main.py:144-147 | chunk k is the slice text[k*chunk_size : min((k+1)*chunk_size, len)], and its start lies inside the text |
| Chunking.NoChunks | main.py:144-147 | there are no chunks exactly when the text is empty |
| Chunking.SingleChunk | main.py:144-147 | a non-empty text no longer than `chunk_size` is one chunk, itself |
| Summarizer.ChunksOf | main.py:144-147 | `range(0, len, chunk_size)` fails exactly for a chunk size of 0; the chunk list is empty exactly for an empty text or a negative size |
| Summarizer.SummarizeChunks | main.py:149-158 | a successful run has one summary per chunk; AllSucceed and FirstFailure state its values and its first-failure-wins error |
| Summarizer.SummarizeText | main.py:142-170 | the handler's outcome; specified by Summarize, EmptyInput, TwoChunks, AnyFailure and SummaryShape |
| Summarizer.Summarize | main.py:142-160 | the loop's result is exactly the specification: the error of the first failing chunk, or one summary per chunk joined by " " |
| Summarizer.AllSucceed | main.py:149-158 | the summary list exists iff the model succeeds on every chunk, and then holds one output per chunk, in chunk order |
| Summarizer.FirstFailure | main.py:142-170 | the first chunk the model fails on decides the error; earlier summaries are discarded |
| Summarizer.AnyFailure | main.py:142-170 | a failure on any chunk means no summary is produced |
| Summarizer.EmptyInput | main.py:144-160 | empty input gives zero chunks, no summaries and a full summary of "", not an error (the page reaches this code only for non-empty content, main.py:126, so this covers the function rather than a page state) |
| Summarizer.TwoChunks | main.py:144-160 | a text of twice the chunk size (2048 with 1024) is two full chunks, and the full summary is s1 + " " + s2, the outputs of the first and second model call |
| Summarizer.SummaryShape | main.py:144-160 | a successful summary has ceil(len/chunk_size) entries, entry k is the model's output for chunk k, and the full summary is their " " join |
| Text.Join | main.py:160 | `sep.join`: empty for no pieces, otherwise starts with the first piece and ends with the last |
| Text.SplitJoin | main.py:85 | splitting a separator-joined list of separator-free pieces gives the pieces back |
| Text.TrimStart | main.py:85 | removes exactly the leading whitespace: a suffix, made of whitespace before it, not starting with whitespace |
| Text.TrimEnd | main.py:85 | removes exactly the trailing whitespace: a prefix, made of whitespace after it, not ending with whitespace |
| Text.Strip | main.py:85 | the stripped text is empty iff the text is all whitespace, and otherwise starts and ends with non-whitespace |
| Text.StripIdempotent | main.py:85 | stripping twice is stripping once |
| Text.StripUnique | main.py:85 | whitespace + core + whitespace strips to that core, when the core is empty or bounded by non-whitespace |
| Extraction.Extract | main.py:41-95 | `extract_article_content` on the outcomes of the two fetches; specified by StructuredIff, ThresholdIsStrict, StructuredFailureIsFinal and FallbackShape |
| Extraction.Fallback | main.py:82-90 | the fallback path; specified by FallbackShape |
| Extraction.FallbackTitle | main.py:89 | the title element's string, or "No Title Found"; specified by FallbackShape |
| Extraction.FallbackText | main.py:84-85 | the kept paragraph texts joined by "\n"; specified by FallbackTextEmpty and FallbackLines |
| Extraction.MainContent | main.py:83 | the content container; specified by ContainerChoice |
| Extraction.FirstPresent | main.py:83 | the `or` chain over present-or-missing elements; specified by FirstPresentIsFirst |
| Extraction.StructuredIff | main.py:60-67 | the result carries keywords, summary and images iff the structured text is longer than 500 characters, and is then the structured article field for field |
| Extraction.ThresholdIsStrict | main.py:60 | at 500 characters or fewer, exactly 500 included, the structured article is dropped and the fallback alone decides |
| Extraction.StructuredFailureIsFinal | main.py:55-58 | a failing structured parse ends the extraction with that error; the fallback is not tried |
| Extraction.FallbackShape | main.py:83-90 | the fallback succeeds iff a container exists; it then holds only text and title; the title is the title element's string (possibly None), or "No Title Found" when there is no title element |
| Extraction.FirstPresentIsFirst | main.py:83 | an `or` chain yields the first present element, and nothing only when none is present |
| Extraction.ContainerChoice | main.py:83 | the container is `article` if present, else `main`, else `body`; none only when all three are missing |
| Extraction.ParagraphTexts | main.py:85 | at most one text per paragraph, each non-empty and neither starting nor ending with whitespace |
| Extraction.ParagraphTextsAppend | main.py:84-85 | paragraph texts keep document order: the texts of two runs of paragraphs are concatenated |
| Extraction.ParagraphTextsOne | main.py:85 | one paragraph contributes its stripped text, or nothing when it is all whitespace |
| Extraction.ParagraphTextsFrom | main.py:85 | every kept text is the stripped text of some paragraph |
| Extraction.TrimmedParagraphsKept | main.py:84-85 | paragraphs that are already trimmed and non-empty are all kept, unchanged and in order |
| Extraction.BlankParagraphs | main.py:85 | no text is kept iff every paragraph strips to the empty string |
| Extraction.FallbackTextEmpty | main.py:85 | the fallback text is empty iff every paragraph is blank |
| Extraction.FallbackLines | main.py:85 | when no kept text holds a line break, the lines of the fallback text are exactly the kept texts, so no line is empty. The premise is needed: a paragraph whose `get_text()` holds "\n\n" inside keeps it after stripping, and the joined text then has an empty line |
| Session.SessionState.constructor | main.py:100-104 | a new session starts with empty content and an empty URL |
| Session.SessionState.ApplyExtraction | main.py:121-123 | the content becomes the extracted text when extraction returned a result, and is unchanged on None; the URL is untouched |
| Session.SessionState.SubmitUrl | main.py:115-123 | the URL is stored; for a non-empty URL the content follows the extraction outcome as above, otherwise it is unchanged |

## Left out

- The Streamlit page: page config, the watcher workaround, widgets, spinners and message display (main.py:11-19, 97-174). They are rendering glue on a framework outside this model. The slider and number-input ranges are not enforced, so the model covers every value.
- Loading the model: the NLTK downloads and the construction and caching of the summarization pipeline (main.py:21-39). This is file system, network and foreign machine-learning code.
- The summarization model itself. It is a function parameter of type `(nat, string, Settings) -> Result<string, string>`, whose first argument is the position of the call. Its BART internals, truncation and the `[0]['summary_text']` unpacking are not modelled. Randomness under `do_sample` is not modelled as such: the position argument lets the model answer differently on equal chunks, but it does not describe a probability distribution.
- Fetching and parsing: newspaper3k `download`/`parse`/`nlp`, the browser-like request headers, the retrying `requests` session with its 10-second timeout, `raise_for_status`, HTML parsing and the removal of script/style/nav/footer/aside/figure elements (main.py:45-58, 70-80). These are I/O and foreign library code. The model takes their outcomes as inputs: an `Article` or an error, and a `Page` or an error. A `Page` already has those elements removed and lists each container's paragraph texts in document order. The fallback outcome is an input even though the program fetches it only on the short-text path; the model reads it only there.
- `str.strip` whitespace rules: whitespace is the parameter `isSpace` rather than Python's Unicode definition. Characters are Dafny `char` values, which stand for Python's code points.
- The messages shown with `st.error`: an extraction failure carries its message in the `Result`. The session treats any failure as Python's `None`.
- Text-mode editing of the content (main.py:108-113) is a widget round trip and is not modelled.
