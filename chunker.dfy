/** The sliding-window chunker of `process_document`: windows of `ChunkSize`
    characters whose starts are `Stride = ChunkSize - Overlap` apart. */
module Chunker {

  const ChunkSize: nat := 1000
  const Overlap: nat := 100
  const Stride: nat := ChunkSize - Overlap

  function Min(a: int, b: int): int
  {
    if a <= b then a else b
  }

  /** `len(range(0, n, Stride))`, that is ceil(n / Stride). */
  function NumChunks(n: nat): nat
  {
    (n + Stride - 1) / Stride
  }

  /** The chunk sequence: the first window, then the chunks of what follows
      the first stride, until a window reaches the end of the text. */
  function Chunks(text: string): seq<string>
    decreases |text|
  {
    if text == [] then []
    else if |text| <= Stride then [text]
    else [text[..Min(ChunkSize, |text|)]] + Chunks(text[Stride..])
  }

  /** ceil(n / Stride) is the unique count whose windows start before `n`
      and together span at least `n` characters. */
  lemma NumChunksIs(n: nat, c: nat)
    requires c == 0 ==> n == 0
    requires 0 < c ==> Stride * (c - 1) < n <= Stride * c
    ensures NumChunks(n) == c
  {
    if c > 0 {
      assert n + Stride - 1 == Stride * c + (n + Stride - 1 - Stride * c);
      assert 0 <= n + Stride - 1 - Stride * c < Stride;
    }
  }

  /** There are ceil(|text| / Stride) windows. */
  lemma {:induction false} ChunksCount(text: string)
    ensures |Chunks(text)| == NumChunks(|text|)
    decreases |text|
  {
    if text == [] {
      NumChunksIs(0, 0);
    } else if |text| <= Stride {
      NumChunksIs(|text|, 1);
    } else {
      var rest := text[Stride..];
      ChunksCount(rest);
      NumChunksBounds(|rest|);
      NumChunksIs(|text|, |Chunks(rest)| + 1);
    }
  }

  /** Window `k` is exactly `text[Stride * k .. min(Stride * k + ChunkSize, |text|)]`. */
  lemma {:induction false} ChunkAt(text: string, k: nat)
    requires k < |Chunks(text)|
    ensures Stride * k < |text|
    ensures Chunks(text)[k] == text[Stride * k..Min(Stride * k + ChunkSize, |text|)]
    decreases |text|
  {
    if k > 0 {
      var rest := text[Stride..];
      assert Chunks(text)[k] == Chunks(rest)[k - 1];
      ChunkAt(rest, k - 1);
      var lo := Stride * (k - 1);
      var hi := Min(lo + ChunkSize, |rest|);
      assert rest[lo..hi] == text[lo + Stride..hi + Stride];
    }
  }

  /** Both facts for every window at once. */
  lemma ChunksShape(text: string)
    ensures |Chunks(text)| == NumChunks(|text|)
    ensures forall k :: 0 <= k < |Chunks(text)| ==>
      Stride * k < |text| && Chunks(text)[k] == text[Stride * k..Min(Stride * k + ChunkSize, |text|)]
  {
    ChunksCount(text);
    forall k | 0 <= k < |Chunks(text)|
      ensures Stride * k < |text| && Chunks(text)[k] == text[Stride * k..Min(Stride * k + ChunkSize, |text|)]
    {
      ChunkAt(text, k);
    }
  }

  /** The bounds that characterise ceil(n / Stride). */
  lemma NumChunksBounds(n: nat)
    ensures NumChunks(n) == 0 <==> n == 0
    ensures 0 < n ==> Stride * (NumChunks(n) - 1) < n <= Stride * NumChunks(n)
  {
    var c := NumChunks(n);
    var q := n + Stride - 1;
    assert q == Stride * c + q % Stride;
  }

  /** `process_document`'s loop: `for i in range(0, len(text), Stride): chunks.append(text[i:i + ChunkSize])`. */
  method ChunkText(text: string) returns (chunks: seq<string>)
    ensures chunks == Chunks(text)
  {
    ChunksShape(text);
    NumChunksBounds(|text|);
    ghost var spec := Chunks(text);
    chunks := [];
    var i := 0;
    while i < |text|
      invariant i == Stride * |chunks|
      invariant 0 < |chunks| ==> Stride * (|chunks| - 1) < |text|
      invariant |chunks| <= |spec|
      invariant forall k :: 0 <= k < |chunks| ==> chunks[k] == spec[k]
      decreases |text| - i
    {
      chunks := chunks + [text[i..Min(i + ChunkSize, |text|)]];
      i := i + Stride;
    }
    NumChunksIs(|text|, |chunks|);
  }

  /** Every chunk is non-empty and at most `ChunkSize` long. */
  lemma ChunkBounds(text: string, k: nat)
    requires k < |Chunks(text)|
    ensures 0 < |Chunks(text)[k]| <= ChunkSize
  {
    ChunksShape(text);
  }

  /** A non-empty text has at least one chunk, and the empty text none. */
  lemma ChunksNonEmpty(text: string)
    ensures Chunks(text) == [] <==> text == []
  {
    ChunksShape(text);
    NumChunksBounds(|text|);
  }

  /** The last window reaches the end of the text and is at most a stride long. */
  lemma LastChunkEndsText(text: string)
    requires text != []
    ensures var cs := Chunks(text); var n := |cs|;
      0 < n && Stride * (n - 1) < |text| && cs[n - 1] == text[Stride * (n - 1)..] && 0 < |cs[n - 1]| <= Stride
  {
    ChunksShape(text);
    NumChunksBounds(|text|);
  }

  /** When the last chunk is no longer than the overlap, the chunk before it
      already reaches the end of the text and the last one is its tail. */
  lemma ShortLastChunkIsRedundant(text: string)
    requires 2 <= |Chunks(text)|
    requires |Chunks(text)[|Chunks(text)| - 1]| <= Overlap
    ensures var cs := Chunks(text); var n := |cs|;
      Stride * (n - 2) < |text| && Stride < |cs[n - 2]| &&
      cs[n - 2] == text[Stride * (n - 2)..] && cs[n - 1] == cs[n - 2][Stride..]
  {
    var cs := Chunks(text);
    var n := |cs|;
    ChunksShape(text);
    NumChunksBounds(|text|);
    LastChunkEndsText(text);
    assert Stride * (n - 1) == Stride * (n - 2) + Stride;
  }

  /** Consecutive chunks overlap: what chunk `k` holds past its first stride is
      where chunk `k + 1` begins. */
  lemma ConsecutiveChunksOverlap(text: string, k: nat)
    requires k + 1 < |Chunks(text)|
    ensures var cs := Chunks(text);
      Stride < |cs[k]| && |cs[k]| - Stride <= |cs[k + 1]| &&
      cs[k][Stride..] == cs[k + 1][..|cs[k]| - Stride]
  {
    var cs := Chunks(text);
    var a := Stride * k;
    var e := Min(a + ChunkSize, |text|);
    ChunkAt(text, k);
    ChunkAt(text, k + 1);
    assert Stride * (k + 1) == a + Stride;
    assert cs[k] == text[a..e] && cs[k + 1] == text[a + Stride..Min(a + Stride + ChunkSize, |text|)];
    assert cs[k][Stride..] == text[a + Stride..e];
    assert cs[k + 1][..e - a - Stride] == text[a + Stride..e];
  }

  /** Glue chunks back together: the first stride of every chunk but the last,
      then the whole last chunk. */
  function Reassemble(cs: seq<string>): string
  {
    if cs == [] then []
    else if |cs| == 1 then cs[0]
    else cs[0][..Min(Stride, |cs[0]|)] + Reassemble(cs[1..])
  }

  /** The chunks lose and duplicate nothing beyond the overlap. */
  lemma {:induction false} ReassembleChunks(text: string)
    ensures Reassemble(Chunks(text)) == text
    decreases |text|
  {
    if |text| > Stride {
      var rest := text[Stride..];
      ReassembleChunks(rest);
      ChunksNonEmpty(rest);
      var cs := Chunks(text);
      assert cs[0] == text[..Min(ChunkSize, |text|)];
      assert cs[1..] == Chunks(rest);
      assert text == text[..Stride] + rest;
    }
  }
}
