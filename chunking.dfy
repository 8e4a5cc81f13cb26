/** The fixed-size character chunking of the summarizer:
    `[text[i:i+size] for i in range(0, len(text), size)]`. */
module Chunking {
  import opened Text

  /** The smaller of two integers; Python's slice end clamps to the length this way. */
  function Min(a: int, b: int): int
  {
    if a <= b then a else b
  }

  /** The text cut into consecutive slices of `size` characters; the last
      slice holds what is left. What the cut guarantees is stated by the
      lemmas below. */
  function Chunks<C>(text: seq<C>, size: nat): seq<seq<C>>
    requires size > 0
    decreases |text|
  {
    if text == [] then []
    else
      var n := Min(size, |text|);
      [text[..n]] + Chunks(text[n..], size)
  }

  /** Concatenating the chunks in order gives the text back: nothing is lost,
      repeated or moved. */
  lemma {:induction false} ChunksConcat<C>(text: seq<C>, size: nat)
    requires size > 0
    ensures Concat(Chunks(text, size)) == text
    decreases |text|
  {
    if text != [] {
      var n := Min(size, |text|);
      ChunksConcat(text[n..], size);
      assert ([text[..n]] + Chunks(text[n..], size))[1..] == Chunks(text[n..], size);
      assert text[..n] + text[n..] == text;
    }
  }

  /** Every chunk is non-empty and no longer than `size`. */
  lemma {:induction false} ChunkBounds<C>(text: seq<C>, size: nat)
    requires size > 0
    ensures forall k :: 0 <= k < |Chunks(text, size)| ==> 0 < |Chunks(text, size)[k]| <= size
    decreases |text|
  {
    if text != [] {
      var n := Min(size, |text|);
      ChunkBounds(text[n..], size);
      assert Chunks(text, size) == [text[..n]] + Chunks(text[n..], size);
    }
  }

  /** The number of slices `range(0, n, size)` produces: the ceiling of n / size. */
  function CeilDiv(n: nat, size: nat): nat
    requires size > 0
  {
    (n + size - 1) / size
  }

  /** The chunk count is the least number of `size`-long slices that cover the text. */
  lemma {:induction false} ChunkCountBounds<C>(text: seq<C>, size: nat)
    requires size > 0
    ensures |text| <= |Chunks(text, size)| * size
    ensures |Chunks(text, size)| > 0 ==> (|Chunks(text, size)| - 1) * size < |text|
    decreases |text|
  {
    if text != [] {
      var n := Min(size, |text|);
      var m := |Chunks(text[n..], size)|;
      ChunkCountBounds(text[n..], size);
      MulSucc(m, size);
      assert |Chunks(text, size)| == m + 1;
    }
  }

  /** There are ceil(|text| / size) chunks. */
  lemma ChunkCount<C>(text: seq<C>, size: nat)
    requires size > 0
    ensures |Chunks(text, size)| == CeilDiv(|text|, size)
  {
    var c := |Chunks(text, size)|;
    ChunkCountBounds(text, size);
    if c == 0 {
      NoChunks(text, size);
      DivUnique(size - 1, size, 0);
    } else {
      MulSucc(c - 1, size);
      DivUnique(|text| + size - 1, size, c);
    }
  }

  lemma MulSucc(m: nat, d: nat)
    ensures (m + 1) * d == m * d + d
  {
  }

  lemma {:induction false} MulLe(a: nat, b: nat, d: nat)
    requires a <= b
    ensures a * d <= b * d
    decreases b - a
  {
    if a < b {
      MulLe(a, b - 1, d);
      MulSucc(b - 1, d);
    }
  }

  /** Integer division is determined by the usual bounds. */
  lemma DivUnique(n: nat, d: nat, q: nat)
    requires d > 0
    requires q * d <= n < q * d + d
    ensures n / d == q
  {
    var q' := n / d;
    assert q' * d <= n < q' * d + d;
    if q' < q {
      MulLe(q' + 1, q, d);
      MulSucc(q', d);
    } else if q < q' {
      MulLe(q + 1, q', d);
      MulSucc(q, d);
    }
  }

  /** Chunk k is the Python slice text[k*size : (k+1)*size], which starts
      inside the text. */
  lemma ChunkAt<C>(text: seq<C>, size: nat, k: nat)
    requires size > 0
    requires k < |Chunks(text, size)|
    ensures k * size < |text|
    ensures Chunks(text, size)[k] == text[k * size .. Min(k * size + size, |text|)]
  {
    ChunkAtOffset(text, size, k);
    OffsetIsProduct(k, size);
  }

  /** Where chunk k starts: k steps of `size` (Python's range(0, n, size)). */
  function Offset(k: nat, size: nat): nat
  {
    if k == 0 then 0 else Offset(k - 1, size) + size
  }

  lemma {:induction false} OffsetIsProduct(k: nat, size: nat)
    ensures Offset(k, size) == k * size
  {
    if k > 0 {
      OffsetIsProduct(k - 1, size);
      MulSucc(k - 1, size);
    }
  }

  /** ChunkAt with the start of chunk k written as a sum, so the induction is linear. */
  lemma {:induction false} ChunkAtOffset<C>(text: seq<C>, size: nat, k: nat)
    requires size > 0
    requires k < |Chunks(text, size)|
    ensures Offset(k, size) < |text|
    ensures Chunks(text, size)[k] == text[Offset(k, size) .. Min(Offset(k, size) + size, |text|)]
    decreases k, 1
  {
    if k == 0 {
      FirstChunk(text, size);
    } else {
      ChunkAtOffsetStep(text, size, k);
    }
  }

  /** The inductive step: chunk k is chunk k - 1 of the text after the first chunk. */
  lemma {:induction false} ChunkAtOffsetStep<C>(text: seq<C>, size: nat, k: nat)
    requires size > 0
    requires 0 < k < |Chunks(text, size)|
    ensures Offset(k, size) < |text|
    ensures Chunks(text, size)[k] == text[Offset(k, size) .. Min(Offset(k, size) + size, |text|)]
    decreases k, 0
  {
    var rest := text[size..];
    ChunkTail(text, size, k);
    ChunkAtOffset(rest, size, k - 1);
    var lo := Offset(k - 1, size);
    assert |rest| == |text| - size;
    assert Offset(k, size) == size + lo;
    ChunkShift(text, size, lo);
  }

  /** Slicing the rest of the text is slicing the text one chunk further on. */
  lemma ChunkShift<C>(text: seq<C>, size: nat, lo: nat)
    requires size + lo < |text|
    ensures text[size..][lo .. Min(lo + size, |text| - size)]
         == text[size + lo .. Min(size + lo + size, |text|)]
  {
  }

  /** The first chunk is the text's first `size` characters, or all of it. */
  lemma FirstChunk<C>(text: seq<C>, size: nat)
    requires size > 0
    requires 0 < |Chunks(text, size)|
    ensures Offset(0, size) < |text|
    ensures Chunks(text, size)[0] == text[Offset(0, size) .. Min(Offset(0, size) + size, |text|)]
  {
    NoChunks(text, size);
  }

  /** Past the first chunk, the chunks are those of the rest of the text. */
  lemma ChunkTail<C>(text: seq<C>, size: nat, k: nat)
    requires size > 0
    requires 0 < k < |Chunks(text, size)|
    ensures |text| > size
    ensures k - 1 < |Chunks(text[size..], size)|
    ensures Chunks(text, size)[k] == Chunks(text[size..], size)[k - 1]
  {
    if |text| <= size {
      SingleChunk(text, size);
    }
  }

  /** Every chunk but the last is exactly `size` long (ChunkBounds bounds the last). */
  lemma {:induction false} ChunkLengths<C>(text: seq<C>, size: nat)
    requires size > 0
    ensures forall k :: 0 <= k < |Chunks(text, size)| - 1 ==> |Chunks(text, size)[k]| == size
    decreases |text|
  {
    if |text| > size {
      ChunkLengths(text[size..], size);
      var r := Chunks(text, size);
      assert r[1..] == Chunks(text[size..], size);
    }
  }

  /** No text, no chunks — and only then. */
  lemma {:induction false} NoChunks<C>(text: seq<C>, size: nat)
    requires size > 0
    ensures Chunks(text, size) == [] <==> text == []
  {
    if text != [] {
      assert Chunks(text, size)[0] == text[..Min(size, |text|)];
    }
  }

  /** A non-empty text no longer than one chunk is a single chunk. */
  lemma {:induction false} SingleChunk<C>(text: seq<C>, size: nat)
    requires size > 0
    requires 0 < |text| <= size
    ensures Chunks(text, size) == [text]
  {
    assert text[..|text|] == text;
    assert text[|text|..] == [];
  }
}
