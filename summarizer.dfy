/** The chunked summarizer that runs when "Generate Summary" is pressed: the
    text is cut into chunks, each chunk is summarized in order, the first
    failure aborts everything, and the chunk summaries are joined by one space. */
module Summarizer {
  import opened Wrappers
  import opened Text
  import opened Chunking

  /** The settings passed through to the model unchanged: maximum and minimum
      summary length and whether to sample (truncation is always on). */
  datatype Settings = Settings(maxLength: int, minLength: int, doSample: bool)

  /** The summarization model: given the position of the call (0 for the
      first chunk, 1 for the second, ...), a chunk and the settings, it yields
      a summary text or fails with the message of the exception it raised.
      The program does not pass the position; it stands for the sampler's
      state, so that with sampling on two equal chunks may get different
      summaries. */
  type Model = (nat, string, Settings) -> Result<string, string>

  /** What a successful run shows: one summary per chunk and their join. */
  datatype Summary = Summary(chunkSummaries: seq<string>, fullSummary: string)

  /** The message Python's `range` raises for a step of zero. */
  const StepZeroMessage: string := "range() arg 3 must not be zero"

  /** The chunks `range(0, len(text), chunkSize)` visits: none for a negative
      step, an error for a zero step. */
  function ChunksOf(text: string, chunkSize: int): (r: Result<seq<string>, string>)
    ensures r.Failure? <==> chunkSize == 0
    ensures r.Success? ==> (r.value == [] <==> text == [] || chunkSize < 0)
  {
    if chunkSize == 0 then Failure(StepZeroMessage)
    else if chunkSize < 0 then Success([])
    else
      NoChunks(text, chunkSize);
      Success(Chunks(text, chunkSize))
  }

  /** The model applied to each chunk in order, chunk k as call k; the first
      failure is the result. */
  function SummarizeChunks(model: Model, settings: Settings, chunks: seq<string>): (r: Result<seq<string>, string>)
    ensures r.Success? ==> |r.value| == |chunks|
    decreases |chunks|
  {
    if chunks == [] then Success([])
    else
      var n := |chunks| - 1;
      match SummarizeChunks(model, settings, chunks[..n])
      case Failure(e) => Failure(e)
      case Success(done) =>
        match model(n, chunks[n], settings)
        case Failure(e) => Failure(e)
        case Success(s) => Success(done + [s])
  }

  /** The outcome of pressing "Generate Summary" on `text`. */
  function SummarizeText(model: Model, settings: Settings, text: string, chunkSize: int): Result<Summary, string>
  {
    match ChunksOf(text, chunkSize)
    case Failure(e) => Failure(e)
    case Success(chunks) =>
      match SummarizeChunks(model, settings, chunks)
      case Failure(e) => Failure(e)
      case Success(summaries) => Success(Summary(summaries, Join(" ", summaries)))
  }

  /** The summary loop: the chunk list is built first, then each chunk's
      summary is appended in turn, and an exception on any chunk abandons
      the partial list. */
  method Summarize(model: Model, settings: Settings, text: string, chunkSize: int) returns (r: Result<Summary, string>)
    ensures r == SummarizeText(model, settings, text, chunkSize)
  {
    var chunks;
    if chunkSize == 0 {
      return Failure(StepZeroMessage);
    } else if chunkSize < 0 {
      chunks := [];
    } else {
      chunks := Chunks(text, chunkSize);
    }
    var summaries: seq<string> := [];
    for i := 0 to |chunks|
      invariant |summaries| == i
      invariant forall k :: 0 <= k < i ==>
        model(k, chunks[k], settings).Success? && summaries[k] == model(k, chunks[k], settings).value
    {
      var out := model(i, chunks[i], settings);
      if out.Failure? {
        FirstFailure(model, settings, chunks, i);
        return Failure(out.error);
      }
      summaries := summaries + [out.value];
    }
    AllSucceed(model, settings, chunks);
    assert SummarizeChunks(model, settings, chunks).value == summaries;
    r := Success(Summary(summaries, Join(" ", summaries)));
  }

  /** Every chunk summarized: the result holds one summary per chunk, each the
      model's output for that chunk — and only then is there a result. */
  lemma {:induction false} AllSucceed(model: Model, settings: Settings, chunks: seq<string>)
    ensures SummarizeChunks(model, settings, chunks).Success?
        <==> forall k :: 0 <= k < |chunks| ==> model(k, chunks[k], settings).Success?
    ensures SummarizeChunks(model, settings, chunks).Success? ==>
      var ss := SummarizeChunks(model, settings, chunks).value;
      |ss| == |chunks| &&
      forall k :: 0 <= k < |chunks| ==> ss[k] == model(k, chunks[k], settings).value
    decreases |chunks|
  {
    if chunks != [] {
      var n := |chunks| - 1;
      AllSucceed(model, settings, chunks[..n]);
      assert forall k :: 0 <= k < n ==> chunks[..n][k] == chunks[k];
    }
  }

  /** The first chunk the model fails on decides the error; later chunks are
      never looked at and earlier summaries are dropped. */
  lemma {:induction false} FirstFailure(model: Model, settings: Settings, chunks: seq<string>, i: nat)
    requires i < |chunks|
    requires forall k :: 0 <= k < i ==> model(k, chunks[k], settings).Success?
    requires model(i, chunks[i], settings).Failure?
    ensures SummarizeChunks(model, settings, chunks) == Failure(model(i, chunks[i], settings).error)
    decreases |chunks|
  {
    var n := |chunks| - 1;
    var front := chunks[..n];
    assert forall k :: 0 <= k < n ==> front[k] == chunks[k];
    if i == n {
      AllSucceed(model, settings, front);
    } else {
      FirstFailure(model, settings, front, i);
    }
  }

  /** Empty input: no chunks, no summaries, an empty summary — not an error. */
  lemma EmptyInput(model: Model, settings: Settings, chunkSize: int)
    requires chunkSize != 0
    ensures SummarizeText(model, settings, [], chunkSize) == Success(Summary([], []))
  {
    if chunkSize > 0 {
      NoChunks<char>([], chunkSize);
    }
  }

  /** A text of exactly two chunk lengths (2048 characters with chunk size
      1024, say) gives the two chunk summaries, of calls 0 and 1, joined by
      one space. */
  lemma TwoChunks(model: Model, settings: Settings, text: string, chunkSize: nat)
    requires chunkSize > 0 && |text| == 2 * chunkSize
    requires model(0, text[..chunkSize], settings).Success?
    requires model(1, text[chunkSize..], settings).Success?
    ensures Chunks(text, chunkSize) == [text[..chunkSize], text[chunkSize..]]
    ensures SummarizeText(model, settings, text, chunkSize)
         == var s1 := model(0, text[..chunkSize], settings).value;
            var s2 := model(1, text[chunkSize..], settings).value;
            Success(Summary([s1, s2], s1 + " " + s2))
  {
    SingleChunk(text[chunkSize..], chunkSize);
    var c1, c2 := text[..chunkSize], text[chunkSize..];
    var cs := Chunks(text, chunkSize);
    assert cs == [c1, c2];
    var s1 := model(0, c1, settings).value;
    var s2 := model(1, c2, settings).value;
    assert [c1, c2][..1] == [c1];
    assert [c1][..0] == [];
    assert [] + [s1] == [s1];
    assert SummarizeChunks(model, settings, [c1]) == Success([s1]);
    assert [s1] + [s2] == [s1, s2];
    assert SummarizeChunks(model, settings, cs) == Success([s1, s2]);
    assert Join(" ", [s1, s2]) == s1 + " " + s2 by {
      assert [s1, s2][1..] == [s2];
    }
  }

  /** Any failing chunk means no summary at all. */
  lemma AnyFailure(model: Model, settings: Settings, text: string, chunkSize: nat, k: nat)
    requires chunkSize > 0
    requires k < |Chunks(text, chunkSize)|
    requires model(k, Chunks(text, chunkSize)[k], settings).Failure?
    ensures SummarizeText(model, settings, text, chunkSize).Failure?
  {
    AllSucceed(model, settings, Chunks(text, chunkSize));
  }

  /** A successful summary joins, with one space, exactly one model output per
      chunk, in chunk order, and there are ceil(|text| / chunkSize) of them. */
  lemma SummaryShape(model: Model, settings: Settings, text: string, chunkSize: nat)
    requires chunkSize > 0
    requires SummarizeText(model, settings, text, chunkSize).Success?
    ensures var s := SummarizeText(model, settings, text, chunkSize).value;
      var cs := Chunks(text, chunkSize);
      && |s.chunkSummaries| == |cs| == CeilDiv(|text|, chunkSize)
      && (forall k :: 0 <= k < |cs| ==>
            model(k, cs[k], settings).Success? && s.chunkSummaries[k] == model(k, cs[k], settings).value)
      && s.fullSummary == Join(" ", s.chunkSummaries)
  {
    AllSucceed(model, settings, Chunks(text, chunkSize));
    ChunkCount(text, chunkSize);
  }
}
