/**
 * How `process_text_into_protocols` (rag_preparation/data_pipeline.py) cuts the
 * extracted document text into overlapping chunks before each is sent to the
 * language model: windows of 15000 characters starting every 14500 characters,
 * so neighbouring windows share 500 characters.
 */
module Chunking {
  const ChunkSize: nat := 15000
  const Overlap: nat := 500
  const Stride: nat := ChunkSize - Overlap

  /** `len(range(0, n, Stride))`: the number of chunks of a text of length `n`. */
  function ChunkCount(n: nat): nat {
    (n + Stride - 1) / Stride
  }

  /** There are chunks exactly when there is text, and the last one starts before its end. */
  lemma ChunkCountBounds(n: nat)
    ensures n == 0 <==> ChunkCount(n) == 0
    ensures ChunkCount(n) > 0 ==> Stride * (ChunkCount(n) - 1) < n <= Stride * ChunkCount(n)
  {
  }

  /** The end of the chunk that starts at `Stride * k`: Python's clamped slice end. */
  function ChunkEnd(n: nat, k: nat): (e: nat)
    ensures e <= n
  {
    if Stride * k + ChunkSize <= n then Stride * k + ChunkSize else n
  }

  /** `[raw_text[i:i+CHUNK_SIZE] for i in range(0, len(raw_text), CHUNK_SIZE - overlap)]`. */
  function Chunks(s: string): (cs: seq<string>)
    ensures |cs| == ChunkCount(|s|)
    ensures forall k :: 0 <= k < |cs| ==> 0 < |cs[k]| <= ChunkSize
  {
    var n := |s|;
    ChunkCountBounds(n);
    seq(ChunkCount(n), k requires 0 <= k < ChunkCount(n) => s[Stride * k..ChunkEnd(n, k)])
  }

  /** Chunk `k` is the slice of the text that starts at `Stride * k`. */
  lemma ChunkIsSlice(s: string, k: nat)
    requires k < |Chunks(s)|
    ensures Stride * k < |s|
    ensures Chunks(s)[k] == s[Stride * k..ChunkEnd(|s|, k)]
  {
  }

  /** Every character of the text lies in some chunk: character `j` is in chunk `j / Stride`. */
  lemma {:induction false} EveryCharacterCovered(s: string, j: nat)
    requires j < |s|
    ensures j / Stride < |Chunks(s)|
    ensures Stride * (j / Stride) <= j < ChunkEnd(|s|, j / Stride)
    ensures Chunks(s)[j / Stride][j - Stride * (j / Stride)] == s[j]
  {
    var k := j / Stride;
    assert Stride * k <= j < Stride * k + Stride;
    var c := ChunkCount(|s|);
    assert Stride * k < Stride * c;
  }

  /** A full-length chunk ends with the 500 characters the next chunk starts with. */
  lemma {:induction false} FullChunksOverlap(s: string, k: nat)
    requires k + 1 < |Chunks(s)|
    requires |Chunks(s)[k]| == ChunkSize && |Chunks(s)[k + 1]| >= Overlap
    ensures Chunks(s)[k][Stride..] == Chunks(s)[k + 1][..Overlap]
  {
    var cs := Chunks(s);
    assert cs[k] == s[Stride * k..Stride * k + ChunkSize];
    assert cs[k + 1] == s[Stride * (k + 1)..ChunkEnd(|s|, k + 1)];
  }

  /** Python's `c[Overlap:]`: the part of a chunk that the previous chunk does not already hold. */
  function Fresh(c: string): string {
    if |c| <= Overlap then "" else c[Overlap..]
  }

  /** The first chunk followed by the fresh part of every later chunk. */
  function Reassemble(cs: seq<string>): string
    decreases |cs|
  {
    if |cs| == 0 then ""
    else if |cs| == 1 then cs[0]
    else Reassemble(cs[..|cs| - 1]) + Fresh(cs[|cs| - 1])
  }

  /** The chunks lose nothing and duplicate nothing beyond the overlaps: reassembling them gives the text back. */
  lemma {:induction false} ReassembleChunks(s: string)
    ensures Reassemble(Chunks(s)) == s
  {
    var cs := Chunks(s);
    ChunkCountBounds(|s|);
    if |cs| > 0 {
      ReassemblePrefix(s, |cs|);
      LastChunkReachesEnd(s);
      assert cs[..|cs|] == cs;
    }
  }

  /** The first `m` chunks reassemble to the text up to the end of chunk `m - 1`. */
  lemma {:induction false} ReassemblePrefix(s: string, m: nat)
    requires 1 <= m <= |Chunks(s)|
    ensures Reassemble(Chunks(s)[..m]) == s[..ChunkEnd(|s|, m - 1)]
  {
    var cs := Chunks(s);
    if m == 1 {
      assert cs[..1] == [cs[0]];
    } else {
      var prev := ChunkEnd(|s|, m - 2);
      var end := ChunkEnd(|s|, m - 1);
      FreshTiles(s, m - 1);
      calc {
        Reassemble(cs[..m]);
        { ReassembleStep(cs, m); }
        Reassemble(cs[..m - 1]) + Fresh(cs[m - 1]);
        { ReassemblePrefix(s, m - 1); }
        s[..prev] + s[prev..end];
        { Adjacent(s, prev, end); }
        s[..end];
      }
    }
  }

  lemma {:induction false} ReassembleStep(cs: seq<string>, m: nat)
    requires 2 <= m <= |cs|
    ensures Reassemble(cs[..m]) == Reassemble(cs[..m - 1]) + Fresh(cs[m - 1])
  {
    assert cs[..m][..m - 1] == cs[..m - 1];
  }

  lemma Adjacent(s: string, a: nat, b: nat)
    requires a <= b <= |s|
    ensures s[..a] + s[a..b] == s[..b]
  {
  }

  /** The fresh part of chunk `k` starts where chunk `k - 1` ends and ends where chunk `k` ends. */
  lemma {:induction false} FreshTiles(s: string, k: nat)
    requires 1 <= k < |Chunks(s)|
    ensures ChunkEnd(|s|, k - 1) <= ChunkEnd(|s|, k)
    ensures Fresh(Chunks(s)[k]) == s[ChunkEnd(|s|, k - 1)..ChunkEnd(|s|, k)]
  {
    var n := |s|;
    var c := Chunks(s)[k];
    var start := Stride * k;
    assert c == s[start..ChunkEnd(n, k)];
    assert Stride * (k - 1) + ChunkSize == start + Overlap;
    if |c| <= Overlap {
      assert ChunkEnd(n, k) == n && ChunkEnd(n, k - 1) == n;
    } else {
      assert ChunkEnd(n, k - 1) == start + Overlap;
      assert c[Overlap..] == s[start + Overlap..ChunkEnd(n, k)];
    }
  }

  /** The last chunk reaches the end of the text. */
  lemma LastChunkReachesEnd(s: string)
    requires |s| > 0
    ensures ChunkEnd(|s|, |Chunks(s)| - 1) == |s|
  {
  }
}
