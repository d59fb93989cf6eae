/** Fixed-size character chunking of a document's extracted text.

    The processing loop walks the text with a stride of `chunkSize - overlap`
    characters, cuts a slice of at most `chunkSize` characters at every start
    offset, and tags each non-empty slice with its source file, its position
    in the output and a closed-form estimate of the number of chunks. */
module Chunking {

  /** The configuration the processing loop uses. */
  const DefaultChunkSize: nat := 1000
  const DefaultOverlap: nat := 100

  datatype ChunkMeta = ChunkMeta(source: string, chunkIndex: nat, totalChunks: nat)

  datatype Chunk = Chunk(text: string, metadata: ChunkMeta)

  function Min(a: int, b: int): int { if a <= b then a else b }

  /** Python's `s[i:j]` for non-negative bounds: both ends are clamped to the
      length, and a slice whose end lies before its start is empty. */
  function PySlice(s: string, i: nat, j: nat): (r: string)
    ensures |r| <= |s|
    ensures i < |s| && i < j ==> r == s[i..Min(j, |s|)] && r != []
    ensures |s| <= i || j <= i ==> r == []
  {
    var a := Min(i, |s|);
    var b := Min(j, |s|);
    if a <= b then s[a..b] else []
  }

  /** The number of start offsets in `range(0, n, stride)`: one for every
      stride that begins below `n`. */
  function ChunkCount(n: nat, stride: nat): nat
    requires stride > 0
    decreases n
  {
    if n == 0 then 0 else if n <= stride then 1 else 1 + ChunkCount(n - stride, stride)
  }

  /** The value every chunk of one call carries as `total_chunks`. */
  function EstimatedTotal(n: nat, stride: nat): nat
    requires stride > 0
  {
    n / stride + 1
  }

  /** The `k`-th start offset of `range(0, n, stride)`: `k` strides from 0. */
  function Offset(k: nat, stride: nat): nat
  {
    if k == 0 then 0 else Offset(k - 1, stride) + stride
  }

  lemma {:induction false} OffsetIsProduct(k: nat, stride: nat)
    ensures Offset(k, stride) == k * stride
  {
    if k > 0 {
      OffsetIsProduct(k - 1, stride);
      assert k * stride == (k - 1) * stride + stride;
    }
  }

  lemma MulMonotone(a: nat, b: nat, s: nat)
    requires a <= b
    ensures a * s <= b * s
  {
    assert b * s == a * s + (b - a) * s;
  }

  lemma MulAwayFromZero(d: int, s: nat)
    ensures d >= 1 ==> d * s >= s
    ensures d <= -1 ==> d * s <= -(s as int)
  {
    if d >= 1 {
      MulMonotone(1, d, s);
    } else if d <= -1 {
      MulMonotone(1, -d, s);
      assert d * s == -((-d) * s);
    }
  }

  /** Euclidean division has one quotient and one remainder. */
  lemma DivUnique(n: nat, s: nat, q: nat, r: nat)
    requires s > 0 && r < s && n == q * s + r
    ensures n / s == q && n % s == r
  {
    var q', r' := n / s, n % s;
    assert n == q' * s + r';
    assert (q - q') * s == r' - r;
    MulAwayFromZero(q - q', s);
  }

  /** The `k`-th start offset lies inside the text exactly when `k` is below
      the chunk count. */
  lemma {:induction false} BelowCount(n: nat, stride: nat, k: nat)
    requires stride > 0
    ensures k < ChunkCount(n, stride) <==> Offset(k, stride) < n
    decreases n
  {
    if k > 0 && n > stride {
      BelowCount(n - stride, stride, k - 1);
      OffsetFromFront(k, stride);
    } else if k > 0 {
      OffsetFromFront(k, stride);
    }
  }

  lemma {:induction false} OffsetFromFront(k: nat, stride: nat)
    requires k > 0
    ensures Offset(k, stride) == stride + Offset(k - 1, stride)
  {
  }

  /** The count is the ceiling of `n / stride`: enough strides to reach `n`,
      and not one more. */
  lemma {:induction false} ChunkCountBounds(n: nat, stride: nat)
    requires stride > 0
    ensures ChunkCount(n, stride) * stride >= n
    ensures ChunkCount(n, stride) > 0 ==> (ChunkCount(n, stride) - 1) * stride < n
    decreases n
  {
    var c := ChunkCount(n, stride);
    if n > stride {
      ChunkCountBounds(n - stride, stride);
      assert c * stride == (c - 1) * stride + stride;
      assert (c - 1) * stride == (c - 2) * stride + stride;
    }
  }

  /** Any `c` whose offset reaches `n` while the one before it does not is
      the count. */
  lemma CountUnique(n: nat, stride: nat, c: nat)
    requires stride > 0
    requires Offset(c, stride) >= n
    requires c > 0 ==> Offset(c - 1, stride) < n
    ensures c == ChunkCount(n, stride)
  {
    BelowCount(n, stride, c);
    if c > 0 {
      BelowCount(n, stride, c - 1);
    }
  }

  /** The chunk count against the closed form: `n / stride` when `n` is a
      multiple of the stride, one more otherwise. */
  lemma {:induction false} ChunkCountByDivision(n: nat, stride: nat)
    requires stride > 0
    ensures n % stride == 0 ==> ChunkCount(n, stride) == n / stride
    ensures n % stride != 0 ==> ChunkCount(n, stride) == n / stride + 1
    decreases n
  {
    if n == 0 {
      DivUnique(n, stride, 0, 0);
    } else if n < stride {
      DivUnique(n, stride, 0, n);
    } else if n == stride {
      DivUnique(n, stride, 1, 0);
    } else {
      ChunkCountByDivision(n - stride, stride);
      var q, r := (n - stride) / stride, (n - stride) % stride;
      assert n - stride == q * stride + r;
      assert n == (q + 1) * stride + r;
      DivUnique(n, stride, q + 1, r);
    }
  }

  /** The chunk cut at the `k`-th start offset. */
  function ChunkAt(text: string, source: string, chunkSize: nat, overlap: nat, k: nat): Chunk
    requires overlap < chunkSize
  {
    var stride := chunkSize - overlap;
    var start := Offset(k, stride);
    Chunk(PySlice(text, start, start + chunkSize),
          ChunkMeta(source, k, EstimatedTotal(|text|, stride)))
  }

  /** What the chunking loop produces, one chunk per start offset. */
  function Chunks(text: string, source: string, chunkSize: nat, overlap: nat): seq<Chunk>
    requires overlap < chunkSize
  {
    var count := ChunkCount(|text|, chunkSize - overlap);
    seq(count, k requires 0 <= k < count => ChunkAt(text, source, chunkSize, overlap, k))
  }

  /** The chunking loop: start offsets `0, stride, 2*stride, ...` below the
      text length, one slice per offset, kept only when non-empty, and indexed
      by the number of chunks already produced. */
  method ChunkText(text: string, source: string, chunkSize: nat, overlap: nat) returns (chunks: seq<Chunk>)
    requires overlap < chunkSize
    ensures chunks == Chunks(text, source, chunkSize, overlap)
  {
    var stride := chunkSize - overlap;
    ghost var spec := Chunks(text, source, chunkSize, overlap);
    chunks := [];
    var i := 0;
    while i < |text|
      invariant i == Offset(|chunks|, stride)
      invariant |chunks| <= |spec|
      invariant chunks == spec[..|chunks|]
    {
      BelowCount(|text|, stride, |chunks|);
      ChunksStep(text, source, chunkSize, overlap, |chunks|);
      var piece := PySlice(text, i, i + chunkSize);
      if piece != [] {
        chunks := chunks + [Chunk(piece, ChunkMeta(source, |chunks|, |text| / stride + 1))];
      }
      i := i + stride;
    }
    BelowCount(|text|, stride, |chunks|);
  }

  /** The chunks up to `k`, extended by the one at `k`. */
  lemma ChunksStep(text: string, source: string, chunkSize: nat, overlap: nat, k: nat)
    requires overlap < chunkSize
    ensures var cs := Chunks(text, source, chunkSize, overlap);
            var start := Offset(k, chunkSize - overlap);
            k < |cs| ==>
              cs[..k + 1] == cs[..k] + [Chunk(PySlice(text, start, start + chunkSize),
                                              ChunkMeta(source, k, |text| / (chunkSize - overlap) + 1))]
  {
  }

  lemma ChunkSlice(text: string, source: string, chunkSize: nat, overlap: nat, k: nat)
    requires overlap < chunkSize
    requires k < |Chunks(text, source, chunkSize, overlap)|
    ensures var c := Chunks(text, source, chunkSize, overlap)[k];
            var start := Offset(k, chunkSize - overlap);
            start < |text| && c.text == text[start .. Min(start + chunkSize, |text|)]
  {
    BelowCount(|text|, chunkSize - overlap, k);
  }

  /** Chunk `k` is the text from the `k`-th start offset (`k * stride`, see
      `OffsetIsProduct`) to at most `chunkSize` characters further; it
      carries the source, its index is its position in the output, and its
      `total_chunks` is the closed-form estimate. */
  lemma ChunkIsSlice(text: string, source: string, chunkSize: nat, overlap: nat, k: nat)
    requires overlap < chunkSize
    requires k < |Chunks(text, source, chunkSize, overlap)|
    ensures var c := Chunks(text, source, chunkSize, overlap)[k];
            var start := Offset(k, chunkSize - overlap);
            start == k * (chunkSize - overlap) && start < |text| &&
            c.text == text[start .. Min(start + chunkSize, |text|)] &&
            c.metadata == ChunkMeta(source, k, |text| / (chunkSize - overlap) + 1)
  {
    ChunkSlice(text, source, chunkSize, overlap, k);
    OffsetIsProduct(k, chunkSize - overlap);
  }

  /** The empty text yields no chunks, and only the empty text does. */
  lemma EmptyTextNoChunks(text: string, source: string, chunkSize: nat, overlap: nat)
    requires overlap < chunkSize
    ensures Chunks(text, source, chunkSize, overlap) == [] <==> text == []
  {
    BelowCount(|text|, chunkSize - overlap, 0);
  }

  /** Every chunk is non-empty and at most `chunkSize` characters long, so
      the `if chunk` test of the loop never drops a slice. */
  lemma ChunkLengthBounds(text: string, source: string, chunkSize: nat, overlap: nat)
    requires overlap < chunkSize
    ensures forall c <- Chunks(text, source, chunkSize, overlap) :: 0 < |c.text| <= chunkSize
  {
    var cs := Chunks(text, source, chunkSize, overlap);
    forall k | 0 <= k < |cs|
      ensures 0 < |cs[k].text| <= chunkSize
    {
      ChunkSlice(text, source, chunkSize, overlap, k);
    }
  }

  /** The number of chunks is the ceiling of `|text| / stride`: enough
      strides to reach the end of the text, and not one more. */
  lemma ChunkCountIsCeiling(text: string, source: string, chunkSize: nat, overlap: nat)
    requires overlap < chunkSize
    ensures var stride := chunkSize - overlap;
            var n := |Chunks(text, source, chunkSize, overlap)|;
            n * stride >= |text| && (n > 0 ==> (n - 1) * stride < |text|)
  {
    ChunkCountBounds(|text|, chunkSize - overlap);
  }

  /** Chunk `k` holds position `p` of the text at its own offset. */
  ghost predicate HoldsPosition(cs: seq<Chunk>, text: string, chunkSize: nat, overlap: nat, k: int, p: int)
    requires overlap < chunkSize
  {
    0 <= k < |cs| && 0 <= p < |text| &&
    var start := Offset(k, chunkSize - overlap);
    start <= p < start + |cs[k].text| && cs[k].text[p - start] == text[p]
  }

  /** The stride block that position `p` falls in. */
  lemma StrideBlock(p: nat, stride: nat) returns (k: nat)
    requires stride > 0
    ensures Offset(k, stride) <= p < Offset(k, stride) + stride
  {
    k := p / stride;
    assert p == k * stride + p % stride;
    OffsetIsProduct(k, stride);
  }

  /** No gaps: every character of the text lies in some chunk. */
  lemma ChunksCoverText(text: string, source: string, chunkSize: nat, overlap: nat, p: nat)
    requires overlap < chunkSize
    requires p < |text|
    ensures exists k :: HoldsPosition(Chunks(text, source, chunkSize, overlap), text, chunkSize, overlap, k, p)
  {
    var stride := chunkSize - overlap;
    var cs := Chunks(text, source, chunkSize, overlap);
    var k := StrideBlock(p, stride);
    var start := Offset(k, stride);
    BelowCount(|text|, stride, k);
    ChunkSlice(text, source, chunkSize, overlap, k);
    var c := cs[k].text;
    assert c == text[start .. Min(start + chunkSize, |text|)];
    assert c[p - start] == text[p];
    assert HoldsPosition(cs, text, chunkSize, overlap, k, p);
  }

  /** A full-length chunk that is followed by another ends with exactly the
      `overlap` characters the next chunk starts with. */
  lemma FullChunksOverlap(text: string, source: string, chunkSize: nat, overlap: nat, k: nat)
    requires overlap < chunkSize
    requires k + 1 < |Chunks(text, source, chunkSize, overlap)|
    requires |Chunks(text, source, chunkSize, overlap)[k].text| == chunkSize
    ensures var cs := Chunks(text, source, chunkSize, overlap);
            |cs[k + 1].text| >= overlap &&
            cs[k].text[chunkSize - overlap..] == cs[k + 1].text[..overlap]
  {
    var stride := chunkSize - overlap;
    var cs := Chunks(text, source, chunkSize, overlap);
    var start := Offset(k, stride);
    var next := Offset(k + 1, stride);
    ChunkSlice(text, source, chunkSize, overlap, k);
    ChunkSlice(text, source, chunkSize, overlap, k + 1);
    var a := cs[k].text;
    var b := cs[k + 1].text;
    assert next == start + stride;
    assert start + chunkSize <= |text|;
    assert a == text[start .. start + chunkSize];
    assert b == text[next .. Min(next + chunkSize, |text|)];
    assert a[stride..] == text[next .. start + chunkSize];
    assert b[..overlap] == text[next .. next + overlap];
  }

  /** Rebuilds a text from its chunks: the first `stride` characters of every
      chunk but the last, then the whole last chunk. */
  function Stitch(cs: seq<Chunk>, stride: nat): string
  {
    if |cs| == 0 then []
    else if |cs| == 1 then cs[0].text
    else cs[0].text[..Min(stride, |cs[0].text|)] + Stitch(cs[1..], stride)
  }

  lemma StitchCons(cs: seq<Chunk>, stride: nat)
    requires |cs| >= 2
    ensures Stitch(cs, stride) == cs[0].text[..Min(stride, |cs[0].text|)] + Stitch(cs[1..], stride)
  {
  }

  lemma StitchLast(text: string, source: string, chunkSize: nat, overlap: nat, j: nat)
    requires overlap < chunkSize
    requires j + 1 == |Chunks(text, source, chunkSize, overlap)|
    ensures Offset(j, chunkSize - overlap) <= |text|
    ensures Stitch(Chunks(text, source, chunkSize, overlap)[j..], chunkSize - overlap)
            == text[Offset(j, chunkSize - overlap)..]
  {
    var stride := chunkSize - overlap;
    var cs := Chunks(text, source, chunkSize, overlap);
    ChunkSlice(text, source, chunkSize, overlap, j);
    BelowCount(|text|, stride, j + 1);
    assert cs[j..] == [cs[j]];
  }

  /** A chunk followed by another one is at least a stride long, and its
      first stride characters are the text up to the next chunk's start. */
  lemma ChunkHead(text: string, source: string, chunkSize: nat, overlap: nat, j: nat)
    requires overlap < chunkSize
    requires j + 1 < |Chunks(text, source, chunkSize, overlap)|
    ensures var c := Chunks(text, source, chunkSize, overlap)[j].text;
            var stride := chunkSize - overlap;
            Offset(j + 1, stride) < |text| && stride <= |c| &&
            c[..stride] == text[Offset(j, stride)..Offset(j + 1, stride)]
  {
    ChunkSlice(text, source, chunkSize, overlap, j);
    ChunkSlice(text, source, chunkSize, overlap, j + 1);
  }

  lemma StitchStep(text: string, source: string, chunkSize: nat, overlap: nat, j: nat)
    requires overlap < chunkSize
    requires j + 1 < |Chunks(text, source, chunkSize, overlap)|
    requires Offset(j + 1, chunkSize - overlap) <= |text|
    requires Stitch(Chunks(text, source, chunkSize, overlap)[j + 1..], chunkSize - overlap)
             == text[Offset(j + 1, chunkSize - overlap)..]
    ensures Offset(j, chunkSize - overlap) <= |text|
    ensures Stitch(Chunks(text, source, chunkSize, overlap)[j..], chunkSize - overlap)
            == text[Offset(j, chunkSize - overlap)..]
  {
    var stride := chunkSize - overlap;
    var cs := Chunks(text, source, chunkSize, overlap);
    var start, next := Offset(j, stride), Offset(j + 1, stride);
    ChunkHead(text, source, chunkSize, overlap, j);
    var tail := cs[j..];
    StitchCons(tail, stride);
    assert tail[0] == cs[j] && tail[1..] == cs[j + 1..];
    assert Stitch(tail, stride) == text[start..next] + text[next..];
    assert text[start..] == text[start..next] + text[next..];
  }

  lemma {:induction false} StitchSuffix(text: string, source: string, chunkSize: nat, overlap: nat, j: nat)
    requires overlap < chunkSize
    requires j < |Chunks(text, source, chunkSize, overlap)|
    ensures Offset(j, chunkSize - overlap) <= |text|
    ensures Stitch(Chunks(text, source, chunkSize, overlap)[j..], chunkSize - overlap)
            == text[Offset(j, chunkSize - overlap)..]
    decreases |Chunks(text, source, chunkSize, overlap)| - j
  {
    if j + 1 == |Chunks(text, source, chunkSize, overlap)| {
      StitchLast(text, source, chunkSize, overlap, j);
    } else {
      StitchSuffix(text, source, chunkSize, overlap, j + 1);
      StitchStep(text, source, chunkSize, overlap, j);
    }
  }

  /** Round trip: the text can be recovered from its chunks. */
  lemma StitchChunks(text: string, source: string, chunkSize: nat, overlap: nat)
    requires overlap < chunkSize
    ensures Stitch(Chunks(text, source, chunkSize, overlap), chunkSize - overlap) == text
  {
    var cs := Chunks(text, source, chunkSize, overlap);
    if |cs| == 0 {
      EmptyTextNoChunks(text, source, chunkSize, overlap);
    } else {
      StitchSuffix(text, source, chunkSize, overlap, 0);
      assert cs[0..] == cs;
    }
  }

  /** A text no longer than one stride yields exactly one chunk: the whole
      text, at index 0. */
  lemma ShortTextSingleChunk(text: string, source: string, chunkSize: nat, overlap: nat)
    requires overlap < chunkSize
    requires 0 < |text| <= chunkSize - overlap
    ensures var cs := Chunks(text, source, chunkSize, overlap);
            |cs| == 1 && cs[0].text == text && cs[0].metadata.chunkIndex == 0
  {
    var stride := chunkSize - overlap;
    assert Offset(1, stride) == stride;
    CountUnique(|text|, stride, 1);
    ChunkSlice(text, source, chunkSize, overlap, 0);
  }

  /** `total_chunks` is the same on every chunk of one call, is never below
      the real number of chunks, and exceeds it by one exactly when the text
      length is a multiple of the stride. */
  lemma TotalChunksEstimate(text: string, source: string, chunkSize: nat, overlap: nat)
    requires overlap < chunkSize
    ensures var stride := chunkSize - overlap;
            var cs := Chunks(text, source, chunkSize, overlap);
            (forall c <- cs :: c.metadata.totalChunks == |text| / stride + 1) &&
            |text| / stride + 1 >= |cs| &&
            (|text| / stride + 1 == |cs| + 1 <==> |text| % stride == 0) &&
            (|text| / stride + 1 == |cs| <==> |text| % stride != 0)
  {
    ChunkCountByDivision(|text|, chunkSize - overlap);
  }

  /** At the program's own settings (1000-character chunks, 100 characters
      of overlap, so a stride of 900) an 1800-character text is cut into two
      chunks, the first 1000 characters and the last 900, and both are told
      that there are three chunks. */
  lemma DefaultSettingsTwoStrides(text: string, source: string)
    requires |text| == 1800
    ensures var cs := Chunks(text, source, DefaultChunkSize, DefaultOverlap);
            |cs| == 2 &&
            cs[0].text == text[..1000] && cs[1].text == text[900..] &&
            (forall c <- cs :: c.metadata.totalChunks == 3)
  {
    var stride := DefaultChunkSize - DefaultOverlap;
    assert Offset(1, stride) == 900 && Offset(2, stride) == 1800;
    CountUnique(|text|, stride, 2);
    ChunkSlice(text, source, DefaultChunkSize, DefaultOverlap, 0);
    ChunkSlice(text, source, DefaultChunkSize, DefaultOverlap, 1);
    TotalChunksEstimate(text, source, DefaultChunkSize, DefaultOverlap);
  }
}
