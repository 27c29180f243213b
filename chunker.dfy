/** The page chunker of `extract_text_from_pdf`: pages are grouped into
    consecutive windows of `pagesPerChunk` pages, the last window closing
    early at the end of the document; each window yields one chunk, the
    non-empty page texts of the window joined with "\n".  A page is the text
    the PDF reader extracted from it, "" when it extracted nothing. */
module PageChunker {
  import opened Text

  /** Number of chunks for `n` pages: the ceiling of n / k. */
  function ChunkCount(n: nat, k: nat): (r: nat)
    requires k > 0
  {
    (n + k - 1) / k
  }

  /** `ChunkCount` is the ceiling of n / k: the fewest windows of k pages
      that cover n pages, and zero exactly when there are no pages. */
  lemma ChunkCountIsCeiling(n: nat, k: nat)
    requires k > 0
    ensures var c := ChunkCount(n, k);
            && n <= c * k
            && (c > 0 ==> (c - 1) * k < n)
            && (c == 0 <==> n == 0)
  {
    var c, y := ChunkCount(n, k), n + k - 1;
    assert y == c * k + y % k;
    if c > 0 {
      MulMonotone(c - 1, c, k);
    }
  }

  function Min(a: int, b: int): (r: int) {
    if a <= b then a else b
  }

  /** Pages j*k up to (j+1)*k - 1, cut off at the end of the document. */
  function Window(pages: seq<string>, k: nat, j: nat): (r: seq<string>) {
    pages[Min(j * k, |pages|)..Min(j * k + k, |pages|)]
  }

  /** The page texts that are kept: Python's truthiness test on a string. */
  function NonEmpty(texts: seq<string>): (r: seq<string>)
    ensures forall t :: t in r ==> t != ""
  {
    if texts == [] then []
    else NonEmpty(texts[..|texts| - 1]) + (if texts[|texts| - 1] != "" then [texts[|texts| - 1]] else [])
  }

  /** The text of chunk `j`. */
  /** The filter keeps a text exactly when it is a non-empty input text,
      and never lengthens the list. */
  lemma {:induction false} NonEmptyKeeps(texts: seq<string>)
    ensures forall t :: t in NonEmpty(texts) <==> t in texts && t != ""
    ensures |NonEmpty(texts)| <= |texts|
  {
    if texts != [] {
      var init := texts[..|texts| - 1];
      NonEmptyKeeps(init);
      assert texts == init + [texts[|texts| - 1]];
    }
  }

  function Chunk(pages: seq<string>, k: nat, j: nat): (r: string) {
    Join("\n", NonEmpty(Window(pages, k, j)))
  }

  /** Filtering distributes over concatenation. */
  lemma {:induction false} NonEmptyAppend(a: seq<string>, b: seq<string>)
    ensures NonEmpty(a + b) == NonEmpty(a) + NonEmpty(b)
    decreases |b|
  {
    if b == [] {
      assert a + b == a;
    } else {
      NonEmptyAppend(a, b[..|b| - 1]);
      assert (a + b)[..|a + b| - 1] == a + b[..|b| - 1];
    }
  }

  /** ChunkCount(c*k + m, k) == c + 1 when 0 < m <= k: a document whose
      last page lands in window c has c + 1 chunks. */
  lemma CeilDivUnique(c: nat, k: nat, x: nat)
    requires k > 0 && c * k < x <= c * k + k
    ensures ChunkCount(x, k) == c + 1
  {
    var y := x + k - 1;
    assert (c + 1) * k == c * k + k;
    DivUnique(y, k, c + 1);
  }

  /** Euclidean division is determined by the quotient's bracket. */
  lemma DivUnique(y: int, k: int, q: int)
    requires k > 0 && q * k <= y < q * k + k
    ensures y / k == q
  {
    var d := y / k;
    assert y == d * k + y % k;
    if d < q {
      MulMonotone(d + 1, q, k);
    } else if d > q {
      MulMonotone(q + 1, d, k);
    }
  }

  lemma MulMonotone(a: int, b: int, k: int)
    requires a <= b && k > 0
    ensures a * k <= b * k
    ensures b * k == a * k + (b - a) * k
  {
    assert b * k - a * k == (b - a) * k;
  }

  /** With the window starting at c*k and m pages of it read, the source's
      test `(i + 1) % k == 0` fires exactly when the window is full. */
  lemma WindowBoundary(c: nat, k: nat, m: nat)
    requires k > 0 && 0 < m <= k
    ensures (c * k + m) % k == 0 <==> m == k
  {
    var y := c * k + m;
    if m < k {
      DivUnique(y, k, c);
    } else {
      assert (c + 1) * k == c * k + k;
      DivUnique(y, k, c + 1);
    }
  }

  /** One step of the chunking loop at page i, with the current window
      starting at page c*k: when the source's test closes the window, the
      window is pages c*k .. i and it is chunk number c + 1; otherwise the
      window stays open and is still short of k pages. */
  lemma LoopStep(n: nat, k: nat, c: nat, i: nat)
    requires k > 0 && i < n && c * k <= i < c * k + k
    ensures ((i + 1) % k == 0 || i + 1 == n) ==>
              ChunkCount(i + 1, k) == c + 1 && Min(c * k, n) == c * k && Min(c * k + k, n) == i + 1
    ensures ((i + 1) % k == 0 && i + 1 < n) ==> i + 1 == (c + 1) * k
    ensures !((i + 1) % k == 0 || i + 1 == n) ==> i + 1 - c * k < k
  {
    WindowBoundary(c, k, i + 1 - c * k);
    MulMonotone(c, c + 1, k);
    if (i + 1) % k == 0 || i + 1 == n {
      CeilDivUnique(c, k, i + 1);
    }
  }

  /** The loop of `extract_text_from_pdf` over the extracted page texts.
      Chunk j holds the non-empty texts of pages j*k .. min((j+1)*k, n) - 1,
      in page order, joined with "\n"; there are ceil(n / k) chunks. */
  method ExtractChunks(pages: seq<string>, pagesPerChunk: nat) returns (chunks: seq<string>)
    requires pagesPerChunk > 0
    ensures |chunks| == ChunkCount(|pages|, pagesPerChunk)
    ensures forall j :: 0 <= j < |chunks| ==> chunks[j] == Chunk(pages, pagesPerChunk, j)
  {
    var k := pagesPerChunk;
    chunks := [];
    var text: seq<string> := [];
    ghost var start := 0;  // first page of the window being filled
    var i := 0;
    while i < |pages|
      invariant 0 <= start <= i <= |pages|
      invariant i < |pages| ==> start == |chunks| * k && i - start < k
      invariant i == |pages| ==> start == i
      invariant text == NonEmpty(pages[start..i])
      invariant |chunks| == ChunkCount(start, k)
      invariant forall j :: 0 <= j < |chunks| ==> chunks[j] == Chunk(pages, k, j)
    {
      var pageText := pages[i];
      assert pages[start..i + 1] == pages[start..i] + [pageText];
      NonEmptyAppend(pages[start..i], [pageText]);
      if pageText != "" {
        text := text + [pageText];
      }
      assert text == NonEmpty(pages[start..i + 1]);
      LoopStep(|pages|, k, |chunks|, i);
      if (i + 1) % k == 0 || i + 1 == |pages| {
        assert Window(pages, k, |chunks|) == pages[start..i + 1];
        chunks := chunks + [Join("\n", text)];
        text := [];
        start := i + 1;
      }
      i := i + 1;
    }
    assert text == [];  // the buffer is empty once the last page is processed
  }

  /** The page texts of the first m chunks, concatenated. */
  function KeptPages(pages: seq<string>, k: nat, m: nat): (r: seq<string>) {
    if m == 0 then [] else KeptPages(pages, k, m - 1) + NonEmpty(Window(pages, k, m - 1))
  }

  /** The first m chunks hold exactly the non-empty pages among the first
      m*k pages, in order. */
  lemma {:induction false} KeptPagesPrefix(pages: seq<string>, k: nat, m: nat)
    ensures KeptPages(pages, k, m) == NonEmpty(pages[..Min(m * k, |pages|)])
  {
    if m > 0 {
      KeptPagesPrefix(pages, k, m - 1);
      KeptPagesStep(pages, k, m);
    }
  }

  /** The inductive step of `KeptPagesPrefix`: chunk m - 1 extends the
      kept pages of the first m - 1 windows to those of the first m. */
  lemma KeptPagesStep(pages: seq<string>, k: nat, m: nat)
    requires m > 0
    requires KeptPages(pages, k, m - 1) == NonEmpty(pages[..Min((m - 1) * k, |pages|)])
    ensures KeptPages(pages, k, m) == NonEmpty(pages[..Min(m * k, |pages|)])
  {
    WindowSplitsPrefix(pages, k, m);
    KeptStep(pages, Min((m - 1) * k, |pages|), Min(m * k, |pages|));
  }

  /** Filtering the first a texts and then texts a to b filters the first b. */
  lemma KeptStep(texts: seq<string>, a: nat, b: nat)
    requires a <= b <= |texts|
    ensures NonEmpty(texts[..a]) + NonEmpty(texts[a..b]) == NonEmpty(texts[..b])
  {
    assert texts[..b] == texts[..a] + texts[a..b];
    NonEmptyAppend(texts[..a], texts[a..b]);
  }

  /** Window m - 1 is what the first m windows add to the first m - 1. */
  lemma WindowSplitsPrefix(pages: seq<string>, k: nat, m: nat)
    requires m > 0
    ensures var a, b := Min((m - 1) * k, |pages|), Min(m * k, |pages|);
            && a <= b <= |pages|
            && Window(pages, k, m - 1) == pages[a..b]
  {
    assert (m - 1) * k + k == m * k;
  }

  /** No loss and no reordering: the chunks together hold every non-empty
      page text, in page order, each exactly once. */
  lemma ChunksLoseNothing(pages: seq<string>, k: nat)
    requires k > 0
    ensures KeptPages(pages, k, ChunkCount(|pages|, k)) == NonEmpty(pages)
  {
    var c := ChunkCount(|pages|, k);
    if |pages| > 0 {
      var y := |pages| + k - 1;
      assert y == (y / k) * k + y % k;
      assert c * k >= |pages|;
    }
    KeptPagesPrefix(pages, k, c);
    assert pages[..Min(c * k, |pages|)] == pages;
  }

  /** Every chunk covers a non-empty window; all windows but the last hold
      exactly k pages and the last holds between 1 and k. */
  lemma WindowSizes(pages: seq<string>, k: nat, j: nat)
    requires k > 0 && j < ChunkCount(|pages|, k)
    ensures j * k < |pages|
    ensures 0 < |Window(pages, k, j)| <= k
    ensures j + 1 < ChunkCount(|pages|, k) ==> |Window(pages, k, j)| == k
  {
    var n := |pages|;
    var c := ChunkCount(n, k);
    var y := n + k - 1;
    assert y == (y / k) * k + y % k;
    MulMonotone(j, j + 1, k);
    MulMonotone(j + 1, c, k);
    if j + 1 < c {
      MulMonotone(j + 2, c, k);
      MulMonotone(j + 1, j + 2, k);
    }
  }

  /** A chunk is "" exactly when every page of its window is empty: a window
      of empty pages still yields a chunk. */
  lemma {:induction false} ChunkEmptyIff(pages: seq<string>, k: nat, j: nat)
    ensures Chunk(pages, k, j) == "" <==> forall t :: t in Window(pages, k, j) ==> t == ""
  {
    var w := Window(pages, k, j);
    NonEmptyNil(w);
    var kept := NonEmpty(w);
    if kept != [] {
      assert kept[0] in kept;
      JoinNonEmpty("\n", kept);
    }
  }

  /** Filtering removes every text exactly when all of them are empty. */
  lemma {:induction false} NonEmptyNil(texts: seq<string>)
    ensures NonEmpty(texts) == [] <==> forall t :: t in texts ==> t == ""
    decreases |texts|
  {
    if texts != [] {
      var init, last := texts[..|texts| - 1], texts[|texts| - 1];
      NonEmptyNil(init);
      assert texts == init + [last];
      assert NonEmpty(texts) == NonEmpty(init) + (if last != "" then [last] else []);
      if NonEmpty(texts) == [] {
        assert NonEmpty(init) == [] && last == "";
        forall t | t in texts ensures t == "" {
          assert t in init || t == last;
        }
      } else if forall t :: t in texts ==> t == "" {
        assert forall t :: t in init ==> t in texts;
        assert last in texts;
      }
    }
  }

  /** A join whose first part is non-empty is non-empty. */
  lemma JoinNonEmpty(sep: string, parts: seq<string>)
    requires |parts| >= 1 && parts[0] != ""
    ensures Join(sep, parts) != ""
  {
    assert |parts[0]| > 0;
    if |parts| > 1 {
      assert Join(sep, parts) == parts[0] + sep + Join(sep, parts[1..]);
    }
  }
}
