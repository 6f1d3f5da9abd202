/**
 * The PDF corpus index (Services/PdfIndexService.cs): building the index of a document,
 * incremental ingestion into the store, and ranked multimodal search over it.
 *
 * The file system (existence, modification times), the PDF parser and the CLIP
 * embedders are parameters; scores are reals.
 */
module PdfIndex {
  import opened Wrappers
  import opened Text
  import opened Linq
  import opened PdfIndexModels
  import opened PdfLayout

  /** An image the parser found on a page: its PNG bytes (if it can be converted), decoded size and box. */
  datatype ParsedImage = ParsedImage(png: Option<seq<byte>>, pixelWidth: int, pixelHeight: int, bounds: Box)

  /** A page as the parser reports it. */
  datatype ParsedPage = ParsedPage(number: int, width: real, height: real, text: string, words: seq<Word>, images: seq<ParsedImage>)

  /** The CLIP text and image embedders. */
  datatype Embedders = Embedders(text: string -> seq<real>, image: seq<byte> -> seq<real>)

  /** The file system and the parser, as seen by ingestion. */
  datatype Files = Files(present: string -> bool, lastWriteUtc: string -> int, parse: string -> seq<ParsedPage>)

  /** Images smaller than this in either dimension are not indexed. */
  const MinImageSide: int := 50

  // ---------------------------------------------------------------------------
  // BuildIndex
  // ---------------------------------------------------------------------------

  predicate ValidPage(page: ParsedPage)
  {
    page.width > 0.0 && page.height > 0.0
  }

  /** The parser reports pages of positive size. */
  ghost predicate ValidFiles(files: Files)
  {
    forall path: string, k :: 0 <= k < |files.parse(path)| ==> ValidPage(files.parse(path)[k])
  }

  predicate HasEmbedding(e: Option<seq<real>>)
  {
    e.Some? && |e.value| > 0
  }

  /** A text chunk gets an embedding only when its text is not blank. */
  function EmbedChunk(chunk: TextChunk, embed: Embedders): TextChunk
  {
    if IsBlank(chunk.text) then chunk else chunk.(embedding := Some(embed.text(chunk.text)))
  }

  /** An image is indexed when it converts to nonempty PNG data of at least 50×50 pixels with a nonempty embedding. */
  predicate AcceptedImage(image: ParsedImage, embed: Embedders)
  {
    && image.png.Some? && |image.png.value| > 0
    && image.pixelWidth >= MinImageSide && image.pixelHeight >= MinImageSide
    && |embed.image(image.png.value)| > 0
  }

  function ImageChunksOf(images: seq<ParsedImage>, embed: Embedders, pageWidth: real, pageHeight: real): seq<ImageChunk>
    requires pageWidth > 0.0 && pageHeight > 0.0
  {
    if images == [] then []
    else
      var image := images[|images| - 1];
      ImageChunksOf(images[..|images| - 1], embed, pageWidth, pageHeight)
      + if AcceptedImage(image, embed)
        then [ImageChunk(NormalizedRect(image.bounds, pageWidth, pageHeight), Some(embed.image(image.png.value)))]
        else []
  }

  /** The index of one page. */
  function IndexPage(page: ParsedPage, embed: Embedders): PdfPageIndex
    requires ValidPage(page)
  {
    var chunks := TextChunksOf(page.words, page.width, page.height);
    PdfPageIndex(page.number, page.width, page.height, page.text, None,
      seq(|chunks|, k requires 0 <= k < |chunks| => EmbedChunk(chunks[k], embed)),
      ImageChunksOf(page.images, embed, page.width, page.height))
  }

  /** `BuildIndex`: the document's path, its modification time and the index of each page, in order. */
  function IndexDocument(path: string, lastWrite: int, pages: seq<ParsedPage>, embed: Embedders): PdfDocumentIndex
    requires forall k :: 0 <= k < |pages| ==> ValidPage(pages[k])
  {
    PdfDocumentIndex(path, lastWrite, seq(|pages|, k requires 0 <= k < |pages| => IndexPage(pages[k], embed)))
  }

  function CountAccepted(images: seq<ParsedImage>, embed: Embedders): (n: nat)
    ensures n <= |images|
  {
    if images == [] then 0
    else CountAccepted(images[..|images| - 1], embed) + if AcceptedImage(images[|images| - 1], embed) then 1 else 0
  }

  /** One image chunk per accepted image, each with a nonempty embedding; rejected images leave no trace. */
  lemma {:induction false} ImageChunksSpec(images: seq<ParsedImage>, embed: Embedders, pageWidth: real, pageHeight: real)
    requires pageWidth > 0.0 && pageHeight > 0.0
    ensures |ImageChunksOf(images, embed, pageWidth, pageHeight)| == CountAccepted(images, embed)
    ensures forall c :: c in ImageChunksOf(images, embed, pageWidth, pageHeight) ==> HasEmbedding(c.embedding)
    decreases |images|
  {
    if images != [] {
      ImageChunksSpec(images[..|images| - 1], embed, pageWidth, pageHeight);
    }
  }

  /**
   * A page keeps every line chunk, in order, and exactly the chunks with non-blank text
   * carry the text embedding of their text.
   */
  lemma {:induction false} IndexPageTextChunks(page: ParsedPage, embed: Embedders, k: nat)
    requires ValidPage(page)
    requires k < |IndexPage(page, embed).textChunks|
    ensures var chunk := TextChunksOf(page.words, page.width, page.height)[k];
      var indexed := IndexPage(page, embed).textChunks[k];
      && indexed.text == chunk.text && indexed.bounds == chunk.bounds
      && (indexed.embedding.Some? <==> !IsBlank(chunk.text))
      && (indexed.embedding.Some? ==> indexed.embedding.value == embed.text(chunk.text))
  {
    var chunks := TextChunksOf(page.words, page.width, page.height);
    assert chunks[k].embedding.None? by {
      LinesSpec(SortedWords(page.words));
    }
  }

  /** The text-chunk loop of `BuildIndex`: every chunk with non-blank text gets its text embedding. */
  method EmbedTextChunks(chunks: seq<TextChunk>, embed: Embedders) returns (embedded: seq<TextChunk>)
    ensures |embedded| == |chunks|
    ensures forall k :: 0 <= k < |chunks| ==> embedded[k] == EmbedChunk(chunks[k], embed)
  {
    embedded := [];
    for k := 0 to |chunks|
      invariant |embedded| == k
      invariant forall j :: 0 <= j < k ==> embedded[j] == EmbedChunk(chunks[j], embed)
    {
      var chunk := chunks[k];
      if !IsBlank(chunk.text) {
        chunk := chunk.(embedding := Some(embed.text(chunk.text)));
      }
      embedded := embedded + [chunk];
    }
  }

  /** The image loop of `BuildIndex`: skips images without data, small images and empty embeddings. */
  method BuildImageChunks(images: seq<ParsedImage>, embed: Embedders, pageWidth: real, pageHeight: real)
    returns (imageChunks: seq<ImageChunk>)
    requires pageWidth > 0.0 && pageHeight > 0.0
    ensures imageChunks == ImageChunksOf(images, embed, pageWidth, pageHeight)
  {
    imageChunks := [];
    for k := 0 to |images|
      invariant imageChunks == ImageChunksOf(images[..k], embed, pageWidth, pageHeight)
    {
      assert images[..k + 1][..k] == images[..k];
      var image := images[k];
      if image.png.None? || |image.png.value| == 0 {
        continue;
      }
      var data := image.png.value;
      if image.pixelWidth < MinImageSide || image.pixelHeight < MinImageSide {
        continue;
      }
      var embedding := embed.image(data);
      if |embedding| == 0 {
        continue;
      }
      var bounds := NormalizedRect(image.bounds, pageWidth, pageHeight);
      imageChunks := imageChunks + [ImageChunk(bounds, Some(embedding))];
    }
    assert images[..|images|] == images;
  }

  /** The per-page body of `BuildIndex`. */
  method BuildPage(page: ParsedPage, embed: Embedders) returns (index: PdfPageIndex)
    requires ValidPage(page)
    ensures index == IndexPage(page, embed)
  {
    var chunks := ExtractTextChunks(page.words, page.width, page.height);
    var textChunks := EmbedTextChunks(chunks, embed);
    var imageChunks := BuildImageChunks(page.images, embed, page.width, page.height);
    index := PdfPageIndex(page.number, page.width, page.height, page.text, None, textChunks, imageChunks);
    assert textChunks == seq(|chunks|, k requires 0 <= k < |chunks| => EmbedChunk(chunks[k], embed));
  }

  /** `BuildIndex`: the page loop. */
  method BuildIndex(path: string, lastWrite: int, pages: seq<ParsedPage>, embed: Embedders) returns (doc: PdfDocumentIndex)
    requires forall k :: 0 <= k < |pages| ==> ValidPage(pages[k])
    ensures doc == IndexDocument(path, lastWrite, pages, embed)
  {
    var indexed: seq<PdfPageIndex> := [];
    for k := 0 to |pages|
      invariant indexed == seq(k, j requires 0 <= j < k => IndexPage(pages[j], embed))
    {
      var pageIndex := BuildPage(pages[k], embed);
      indexed := indexed + [pageIndex];
    }
    doc := PdfDocumentIndex(path, lastWrite, indexed);
  }

  // ---------------------------------------------------------------------------
  // IngestAsync
  // ---------------------------------------------------------------------------

  /** `FirstOrDefault` on a case-insensitive path match: the index of the first document for `path`. */
  function FirstMatch(docs: seq<PdfDocumentIndex>, path: string): (r: Option<nat>)
    ensures r.Some? ==> r.value < |docs| && EqualsIgnoreCase(docs[r.value].pdfPath, path)
    ensures r.Some? ==> forall j :: 0 <= j < r.value ==> !EqualsIgnoreCase(docs[j].pdfPath, path)
    ensures r.None? ==> forall j :: 0 <= j < |docs| ==> !EqualsIgnoreCase(docs[j].pdfPath, path)
  {
    if docs == [] then None
    else if EqualsIgnoreCase(docs[0].pdfPath, path) then Some(0)
    else
      var rest := FirstMatch(docs[1..], path);
      if rest.Some? then Some(rest.value + 1) else None
  }

  function RemoveAt<T>(s: seq<T>, k: nat): (r: seq<T>)
    requires k < |s|
    ensures |r| == |s| - 1
    ensures forall j :: 0 <= j < |r| ==> r[j] == if j < k then s[j] else s[j + 1]
  {
    s[..k] + s[k + 1..]
  }

  /** One iteration of the ingestion loop. */
  function IngestOne(docs: seq<PdfDocumentIndex>, path: string, files: Files, embed: Embedders): seq<PdfDocumentIndex>
    requires ValidFiles(files)
  {
    if !files.present(path) then docs
    else
      var lastWrite := files.lastWriteUtc(path);
      var existing := FirstMatch(docs, path);
      if existing.Some? && docs[existing.value].lastWriteUtc == lastWrite then docs
      else
        var kept := if existing.Some? then RemoveAt(docs, existing.value) else docs;
        kept + [IndexDocument(path, lastWrite, files.parse(path), embed)]
  }

  /** `IngestAsync`: the paths in order. */
  function IngestAll(docs: seq<PdfDocumentIndex>, paths: seq<string>, files: Files, embed: Embedders): seq<PdfDocumentIndex>
    requires ValidFiles(files)
  {
    if paths == [] then docs
    else IngestOne(IngestAll(docs, paths[..|paths| - 1], files, embed), paths[|paths| - 1], files, embed)
  }

  /** No two documents share a path, ignoring case. */
  ghost predicate UniquePaths(docs: seq<PdfDocumentIndex>)
  {
    forall i, j :: 0 <= i < j < |docs| ==> !EqualsIgnoreCase(docs[i].pdfPath, docs[j].pdfPath)
  }

  /**
   * A missing file or an unchanged one leaves the store as it is; otherwise the first
   * entry for the path (if any) is removed, the others keep their order, and the rebuilt
   * document is appended.
   */
  lemma {:induction false} IngestOneSpec(docs: seq<PdfDocumentIndex>, path: string, files: Files, embed: Embedders)
    requires ValidFiles(files)
    ensures !files.present(path) ==> IngestOne(docs, path, files, embed) == docs
    ensures files.present(path) && FirstMatch(docs, path).Some?
            && docs[FirstMatch(docs, path).value].lastWriteUtc == files.lastWriteUtc(path)
            ==> IngestOne(docs, path, files, embed) == docs
    ensures files.present(path) && FirstMatch(docs, path).None? ==>
            IngestOne(docs, path, files, embed) == docs + [IndexDocument(path, files.lastWriteUtc(path), files.parse(path), embed)]
    ensures files.present(path) && FirstMatch(docs, path).Some?
            && docs[FirstMatch(docs, path).value].lastWriteUtc != files.lastWriteUtc(path) ==>
            var k := FirstMatch(docs, path).value;
            IngestOne(docs, path, files, embed) == docs[..k] + docs[k + 1..] + [IndexDocument(path, files.lastWriteUtc(path), files.parse(path), embed)]
  {
  }

  /** Removing the first entry for `path` leaves unique paths none of which is `path`. */
  lemma {:induction false} RemoveMatchAvoidsPath(docs: seq<PdfDocumentIndex>, path: string, k: nat)
    requires UniquePaths(docs) && FirstMatch(docs, path) == Some(k)
    ensures UniquePaths(RemoveAt(docs, k))
    ensures forall j :: 0 <= j < |RemoveAt(docs, k)| ==> !EqualsIgnoreCase(RemoveAt(docs, k)[j].pdfPath, path)
  {
    var kept := RemoveAt(docs, k);
    forall j | 0 <= j < |kept|
      ensures !EqualsIgnoreCase(kept[j].pdfPath, path)
    {
      var src := if j < k then j else j + 1;
      assert kept[j] == docs[src];
      if EqualsIgnoreCase(docs[src].pdfPath, path) {
        EqualsIgnoreCaseIsEquivalence(docs[src].pdfPath, path, docs[k].pdfPath);
        EqualsIgnoreCaseIsEquivalence(path, docs[k].pdfPath, docs[src].pdfPath);
        EqualsIgnoreCaseIsEquivalence(docs[k].pdfPath, path, docs[src].pdfPath);
      }
    }
    forall i, j | 0 <= i < j < |kept|
      ensures !EqualsIgnoreCase(kept[i].pdfPath, kept[j].pdfPath)
    {
      assert kept[i] == docs[if i < k then i else i + 1];
      assert kept[j] == docs[if j < k then j else j + 1];
    }
  }

  /** Appending a document whose path no entry shares keeps paths unique. */
  lemma {:induction false} AppendNewPathUnique(kept: seq<PdfDocumentIndex>, doc: PdfDocumentIndex)
    requires UniquePaths(kept)
    requires forall j :: 0 <= j < |kept| ==> !EqualsIgnoreCase(kept[j].pdfPath, doc.pdfPath)
    ensures UniquePaths(kept + [doc])
  {
    var r := kept + [doc];
    forall i, j | 0 <= i < j < |r|
      ensures !EqualsIgnoreCase(r[i].pdfPath, r[j].pdfPath)
    {
      assert r[i] == kept[i];
      if j < |kept| {
        assert r[j] == kept[j];
      }
    }
  }

  /** Ingesting a path keeps at most one entry per path. */
  lemma {:induction false} IngestOneKeepsPathsUnique(docs: seq<PdfDocumentIndex>, path: string, files: Files, embed: Embedders)
    requires ValidFiles(files) && UniquePaths(docs)
    ensures UniquePaths(IngestOne(docs, path, files, embed))
  {
    var r := IngestOne(docs, path, files, embed);
    if files.present(path) && r != docs {
      var existing := FirstMatch(docs, path);
      var doc := IndexDocument(path, files.lastWriteUtc(path), files.parse(path), embed);
      if existing.Some? {
        RemoveMatchAvoidsPath(docs, path, existing.value);
        assert r == RemoveAt(docs, existing.value) + [doc];
        AppendNewPathUnique(RemoveAt(docs, existing.value), doc);
      } else {
        assert r == docs + [doc];
        AppendNewPathUnique(docs, doc);
      }
    }
  }

  /** Ingestion of any list of paths keeps at most one entry per path. */
  lemma {:induction false} IngestAllKeepsPathsUnique(docs: seq<PdfDocumentIndex>, paths: seq<string>, files: Files, embed: Embedders)
    requires ValidFiles(files) && UniquePaths(docs)
    ensures UniquePaths(IngestAll(docs, paths, files, embed))
    decreases |paths|
  {
    if paths != [] {
      IngestAllKeepsPathsUnique(docs, paths[..|paths| - 1], files, embed);
      IngestOneKeepsPathsUnique(IngestAll(docs, paths[..|paths| - 1], files, embed), paths[|paths| - 1], files, embed);
    }
  }

  /**
   * `IngestAsync`: updates the existing store's document list in place, or a fresh
   * empty store when there is none (saving it is not modelled).
   */
  method Ingest(existing: PdfIndexStore?, paths: seq<string>, files: Files, embed: Embedders) returns (store: PdfIndexStore)
    requires ValidFiles(files)
    modifies existing
    ensures existing != null ==> store == existing && store.documents == IngestAll(old(existing.documents), paths, files, embed)
    ensures existing == null ==> fresh(store) && store.documents == IngestAll([], paths, files, embed)
  {
    if existing == null {
      store := new PdfIndexStore();
    } else {
      store := existing;
    }
    IngestInto(store, paths, files, embed);
  }

  /** The ingestion loop of `IngestAsync` on the chosen store. */
  method IngestInto(store: PdfIndexStore, paths: seq<string>, files: Files, embed: Embedders)
    requires ValidFiles(files)
    modifies store
    ensures store.documents == IngestAll(old(store.documents), paths, files, embed)
  {
    for i := 0 to |paths|
      invariant store.documents == IngestAll(old(store.documents), paths[..i], files, embed)
    {
      assert paths[..i + 1][..i] == paths[..i];
      var path := paths[i];
      if !files.present(path) {
        continue;
      }
      var lastWrite := files.lastWriteUtc(path);
      var existing := FirstMatch(store.documents, path);
      if existing.Some? && store.documents[existing.value].lastWriteUtc == lastWrite {
        continue;
      }
      var doc := BuildIndex(path, lastWrite, files.parse(path), embed);
      if existing.Some? {
        store.documents := RemoveAt(store.documents, existing.value);
      }
      store.documents := store.documents + [doc];
    }
    assert paths[..|paths|] == paths;
  }

  // ---------------------------------------------------------------------------
  // Scoring
  // ---------------------------------------------------------------------------

  function Dot(a: seq<real>, b: seq<real>): real
    requires |a| == |b|
  {
    if a == [] then 0.0 else Dot(a[..|a| - 1], b[..|b| - 1]) + a[|a| - 1] * b[|b| - 1]
  }

  /** `Cosine`: the plain dot product (the embeddings are unit vectors), 0 for empty or mismatched vectors. */
  function CosineScore(a: seq<real>, b: seq<real>): real
  {
    if |a| == 0 || |b| == 0 || |a| != |b| then 0.0 else Dot(a, b)
  }

  lemma {:induction false} DotSymmetric(a: seq<real>, b: seq<real>)
    requires |a| == |b|
    ensures Dot(a, b) == Dot(b, a)
    decreases |a|
  {
    if a != [] {
      DotSymmetric(a[..|a| - 1], b[..|b| - 1]);
    }
  }

  /** The score is symmetric and is 0 whenever the vectors cannot be compared. */
  lemma {:induction false} CosineScoreSpec(a: seq<real>, b: seq<real>)
    ensures CosineScore(a, b) == CosineScore(b, a)
    ensures |a| == 0 || |b| == 0 || |a| != |b| ==> CosineScore(a, b) == 0.0
    ensures |a| == |b| ==> CosineScore(a, b) == Dot(a, b)
  {
    if |a| == |b| {
      DotSymmetric(a, b);
    }
  }

  /** `Cosine`, with its summing loop. */
  method Cosine(a: seq<real>, b: seq<real>) returns (score: real)
    ensures score == CosineScore(a, b)
  {
    if |a| == 0 || |b| == 0 || |a| != |b| {
      return 0.0;
    }
    var sum := 0.0;
    for i := 0 to |a|
      invariant sum == Dot(a[..i], b[..i])
    {
      assert a[..i + 1][..i] == a[..i] && b[..i + 1][..i] == b[..i];
      sum := sum + a[i] * b[i];
    }
    assert a[..|a|] == a && b[..|b|] == b;
    score := sum;
  }

  /** `CombineScores`. */
  function CombineScores(textScore: real, imageScore: real, hasText: bool, hasImage: bool): real
  {
    if hasText && hasImage then textScore * 0.7 + imageScore * 0.3
    else if hasText then textScore
    else if hasImage then imageScore
    else 0.0
  }

  function Min(a: real, b: real): real { if a <= b then a else b }
  function Max(a: real, b: real): real { if a <= b then b else a }

  /**
   * The combined score weighs text 0.7 and image 0.3 when both query kinds are present,
   * so it lies between the two scores; with one kind it is that kind's score, with none 0.
   */
  lemma {:induction false} CombineScoresSpec(textScore: real, imageScore: real, hasText: bool, hasImage: bool)
    ensures hasText && hasImage ==>
      Min(textScore, imageScore) <= CombineScores(textScore, imageScore, hasText, hasImage) <= Max(textScore, imageScore)
    ensures hasText && hasImage && textScore == imageScore ==> CombineScores(textScore, imageScore, hasText, hasImage) == textScore
    ensures hasText && !hasImage ==> CombineScores(textScore, imageScore, hasText, hasImage) == textScore
    ensures !hasText && hasImage ==> CombineScores(textScore, imageScore, hasText, hasImage) == imageScore
    ensures !hasText && !hasImage ==> CombineScores(textScore, imageScore, hasText, hasImage) == 0.0
  {
  }

  /** The text chunks that carry an embedding, each with its score against the query. */
  function ScoredText(query: seq<real>, chunks: seq<TextChunk>): seq<(TextChunk, real)>
  {
    if chunks == [] then []
    else
      var chunk := chunks[|chunks| - 1];
      ScoredText(query, chunks[..|chunks| - 1])
      + if HasEmbedding(chunk.embedding) then [(chunk, CosineScore(query, chunk.embedding.value))] else []
  }

  /** Every image chunk that carries an embedding, scored against every image query. */
  function ScoredImages(queries: seq<seq<real>>, chunks: seq<ImageChunk>): seq<(ImageChunk, real)>
  {
    if chunks == [] then []
    else
      var chunk := chunks[|chunks| - 1];
      ScoredImages(queries, chunks[..|chunks| - 1])
      + if HasEmbedding(chunk.embedding)
        then seq(|queries|, q requires 0 <= q < |queries| => (chunk, CosineScore(queries[q], chunk.embedding.value)))
        else []
  }

  /** Exactly the chunks with a nonempty embedding are scored, each with its score against the query. */
  lemma {:induction false} ScoredTextSpec(query: seq<real>, chunks: seq<TextChunk>)
    ensures forall s :: s in ScoredText(query, chunks) ==>
      s.0 in chunks && HasEmbedding(s.0.embedding) && s.1 == CosineScore(query, s.0.embedding.value)
    ensures forall c :: c in chunks && HasEmbedding(c.embedding) ==> (c, CosineScore(query, c.embedding.value)) in ScoredText(query, chunks)
    decreases |chunks|
  {
    if chunks != [] {
      var init := chunks[..|chunks| - 1];
      ScoredTextSpec(query, init);
      assert chunks == init + [chunks[|chunks| - 1]];
    }
  }

  /** Exactly the pairs of a chunk with a nonempty embedding and an image query are scored. */
  lemma {:induction false} ScoredImagesSpec(queries: seq<seq<real>>, chunks: seq<ImageChunk>)
    ensures forall s :: s in ScoredImages(queries, chunks) ==>
      s.0 in chunks && HasEmbedding(s.0.embedding) && exists q :: q in queries && s.1 == CosineScore(q, s.0.embedding.value)
    ensures forall c, q :: c in chunks && HasEmbedding(c.embedding) && q in queries ==>
      (c, CosineScore(q, c.embedding.value)) in ScoredImages(queries, chunks)
    decreases |chunks|
  {
    if chunks != [] {
      var init := chunks[..|chunks| - 1];
      var chunk := chunks[|chunks| - 1];
      ScoredImagesSpec(queries, init);
      assert chunks == init + [chunk];
      if HasEmbedding(chunk.embedding) {
        var pairs := seq(|queries|, q requires 0 <= q < |queries| => (chunk, CosineScore(queries[q], chunk.embedding.value)));
        forall s | s in pairs
          ensures exists q :: q in queries && s.1 == CosineScore(q, s.0.embedding.value)
        {
          var k :| 0 <= k < |pairs| && pairs[k] == s;
          assert queries[k] in queries;
        }
        forall q | q in queries
          ensures (chunk, CosineScore(q, chunk.embedding.value)) in pairs
        {
          var k :| 0 <= k < |queries| && queries[k] == q;
          assert pairs[k] == (chunk, CosineScore(q, chunk.embedding.value));
        }
      }
    }
  }

  /** `Max` over the scores, or 0 when nothing was scored. */
  function TopScore<C>(scored: seq<(C, real)>): (r: real)
    ensures scored == [] ==> r == 0.0
    ensures forall k :: 0 <= k < |scored| ==> scored[k].1 <= r
    ensures scored != [] ==> exists k :: 0 <= k < |scored| && scored[k].1 == r
  {
    if scored == [] then 0.0
    else if |scored| == 1 then scored[0].1
    else
      var rest := TopScore(scored[1..]);
      assert forall k :: 1 <= k < |scored| ==> scored[k] == scored[1..][k - 1];
      if scored[0].1 >= rest then scored[0].1
      else
        var k :| 0 <= k < |scored[1..]| && scored[1..][k].1 == rest;
        assert scored[k + 1].1 == rest;
        rest
  }

  /** `OrderByDescending(score)`. */
  function ByScore<C>(): ((C, real), (C, real)) -> bool
  {
    (a: (C, real), b: (C, real)) => a.1 > b.1
  }

  /** The `n` best-scored entries, ties in input order. */
  function Best<C>(scored: seq<(C, real)>, n: int): seq<(C, real)>
  {
    Take(SortBy(scored, ByScore()), n)
  }

  const HighlightThreshold: real := 0.2
  const MaxTextHighlights: int := 3
  const MaxImageHighlights: int := 2
  const SnippetLength: nat := 180

  function TextHighlights(matches: seq<(TextChunk, real)>): seq<PdfHighlight>
  {
    if matches == [] then []
    else
      var m := matches[|matches| - 1];
      TextHighlights(matches[..|matches| - 1])
      + if m.1 >= HighlightThreshold then [PdfHighlight(m.0.bounds, "text")] else []
  }

  function ImageHighlights(matches: seq<(ImageChunk, real)>): seq<PdfHighlight>
  {
    if matches == [] then []
    else
      var m := matches[|matches| - 1];
      ImageHighlights(matches[..|matches| - 1])
      + if m.1 >= HighlightThreshold then [PdfHighlight(m.0.bounds, "image")] else []
  }

  /** The matches scoring at least 0.2, in their order. */
  function Passing<C(!new)>(matches: seq<(C, real)>): (r: seq<(C, real)>)
    ensures |r| <= |matches|
    ensures forall x :: x in r <==> x in matches && x.1 >= HighlightThreshold
  {
    if matches == [] then []
    else (if matches[0].1 >= HighlightThreshold then [matches[0]] else []) + Passing(matches[1..])
  }

  lemma {:induction false} PassingSnoc<C(!new)>(matches: seq<(C, real)>, m: (C, real))
    ensures Passing(matches + [m]) == Passing(matches) + if m.1 >= HighlightThreshold then [m] else []
    decreases |matches|
  {
    if matches == [] {
      assert [m][1..] == [];
    } else {
      var s := matches + [m];
      assert s[0] == matches[0] && s[1..] == matches[1..] + [m];
      PassingSnoc(matches[1..], m);
    }
  }

  /** The text highlights are the boxes of the matches scoring at least 0.2, one each, in order. */
  lemma {:induction false} TextHighlightsInOrder(matches: seq<(TextChunk, real)>)
    ensures |TextHighlights(matches)| == |Passing(matches)|
    ensures forall i :: 0 <= i < |Passing(matches)| ==>
      TextHighlights(matches)[i] == PdfHighlight(Passing(matches)[i].0.bounds, "text")
    decreases |matches|
  {
    if matches != [] {
      var init := matches[..|matches| - 1];
      var m := matches[|matches| - 1];
      assert matches == init + [m];
      TextHighlightsInOrder(init);
      PassingSnoc(init, m);
    }
  }

  /** The image highlights are the boxes of the matches scoring at least 0.2, one each, in order. */
  lemma {:induction false} ImageHighlightsInOrder(matches: seq<(ImageChunk, real)>)
    ensures |ImageHighlights(matches)| == |Passing(matches)|
    ensures forall i :: 0 <= i < |Passing(matches)| ==>
      ImageHighlights(matches)[i] == PdfHighlight(Passing(matches)[i].0.bounds, "image")
    decreases |matches|
  {
    if matches != [] {
      var init := matches[..|matches| - 1];
      var m := matches[|matches| - 1];
      assert matches == init + [m];
      ImageHighlightsInOrder(init);
      PassingSnoc(init, m);
    }
  }

  /** Each text highlight marks a match scoring at least 0.2, and every such match gets one. */
  lemma {:induction false} TextHighlightsSpec(textMatches: seq<(TextChunk, real)>)
    ensures |TextHighlights(textMatches)| <= |textMatches|
    ensures forall h :: h in TextHighlights(textMatches) ==>
      h.kind == "text" && exists m :: m in textMatches && m.1 >= HighlightThreshold && m.0.bounds == h.bounds
    ensures forall m :: m in textMatches && m.1 >= HighlightThreshold ==>
      PdfHighlight(m.0.bounds, "text") in TextHighlights(textMatches)
  {
    TextHighlightsInOrder(textMatches);
    var tp := Passing(textMatches);
    var th := TextHighlights(textMatches);
    forall h | h in th
      ensures h.kind == "text" && exists m :: m in textMatches && m.1 >= HighlightThreshold && m.0.bounds == h.bounds
    {
      var i :| 0 <= i < |th| && th[i] == h;
      assert tp[i] in tp;
    }
    forall m | m in textMatches && m.1 >= HighlightThreshold
      ensures PdfHighlight(m.0.bounds, "text") in th
    {
      var i :| 0 <= i < |tp| && tp[i] == m;
      assert th[i] == PdfHighlight(m.0.bounds, "text");
    }
  }

  /** Each image highlight marks a match scoring at least 0.2, and every such match gets one. */
  lemma {:induction false} ImageHighlightsSpec(imageMatches: seq<(ImageChunk, real)>)
    ensures |ImageHighlights(imageMatches)| <= |imageMatches|
    ensures forall h :: h in ImageHighlights(imageMatches) ==>
      h.kind == "image" && exists m :: m in imageMatches && m.1 >= HighlightThreshold && m.0.bounds == h.bounds
    ensures forall m :: m in imageMatches && m.1 >= HighlightThreshold ==>
      PdfHighlight(m.0.bounds, "image") in ImageHighlights(imageMatches)
  {
    ImageHighlightsInOrder(imageMatches);
    var ip := Passing(imageMatches);
    var ih := ImageHighlights(imageMatches);
    forall h | h in ih
      ensures h.kind == "image" && exists m :: m in imageMatches && m.1 >= HighlightThreshold && m.0.bounds == h.bounds
    {
      var i :| 0 <= i < |ih| && ih[i] == h;
      assert ip[i] in ip;
    }
    forall m | m in imageMatches && m.1 >= HighlightThreshold
      ensures PdfHighlight(m.0.bounds, "image") in ih
    {
      var i :| 0 <= i < |ip| && ip[i] == m;
      assert ih[i] == PdfHighlight(m.0.bounds, "image");
    }
  }

  /**
   * There are no more highlights than matches; each highlight marks a match that scored
   * at least 0.2, and every match scoring at least 0.2 gets a highlight of its box.
   */
  lemma {:induction false} HighlightsSpec(textMatches: seq<(TextChunk, real)>, imageMatches: seq<(ImageChunk, real)>)
    ensures |TextHighlights(textMatches)| <= |textMatches|
    ensures forall h :: h in TextHighlights(textMatches) ==>
      h.kind == "text" && exists m :: m in textMatches && m.1 >= HighlightThreshold && m.0.bounds == h.bounds
    ensures forall m :: m in textMatches && m.1 >= HighlightThreshold ==>
      PdfHighlight(m.0.bounds, "text") in TextHighlights(textMatches)
    ensures |ImageHighlights(imageMatches)| <= |imageMatches|
    ensures forall h :: h in ImageHighlights(imageMatches) ==>
      h.kind == "image" && exists m :: m in imageMatches && m.1 >= HighlightThreshold && m.0.bounds == h.bounds
    ensures forall m :: m in imageMatches && m.1 >= HighlightThreshold ==>
      PdfHighlight(m.0.bounds, "image") in ImageHighlights(imageMatches)
  {
    TextHighlightsSpec(textMatches);
    ImageHighlightsSpec(imageMatches);
  }

  lemma {:induction false} ByScoreIsStrictWeak<C(!new)>()
    ensures StrictWeakOrder(ByScore<C>())
  {
  }

  /** `Best` keeps min(n, all) entries, in descending score. */
  lemma {:induction false} BestDescending<C(!new)>(scored: seq<(C, real)>, n: int)
    ensures |Best(scored, n)| == if n <= 0 then 0 else if n < |scored| then n else |scored|
    ensures forall i, j :: 0 <= i < j < |Best(scored, n)| ==> Best(scored, n)[i].1 >= Best(scored, n)[j].1
  {
    var best := Best(scored, n);
    var sorted := SortBy(scored, ByScore());
    SortByPermutes(scored, ByScore());
    ByScoreIsStrictWeak<C>();
    SortByOrdered(scored, ByScore());
    forall i, j | 0 <= i < j < |best|
      ensures best[i].1 >= best[j].1
    {
      assert best[i] == sorted[i] && best[j] == sorted[j];
      assert !ByScore<C>()(sorted[j], sorted[i]);
    }
  }

  /** `Best` keeps entries of the input, and none left out scores above one kept. */
  lemma {:induction false} BestIsTop<C(!new)>(scored: seq<(C, real)>, n: int)
    ensures multiset(Best(scored, n)) <= multiset(scored)
    ensures forall x, i :: x in multiset(scored) - multiset(Best(scored, n)) && 0 <= i < |Best(scored, n)| ==>
      x.1 <= Best(scored, n)[i].1
  {
    var best := Best(scored, n);
    ByScoreIsStrictWeak<C>();
    TakeSortedIsTop(scored, ByScore(), n);
    forall x: (C, real), i | x in multiset(scored) - multiset(best) && 0 <= i < |best|
      ensures x.1 <= best[i].1
    {
      assert !ByScore<C>()(x, best[i]);
    }
  }

  /** The page text, cut to 180 characters followed by "..." when longer. */
  function Snippet(text: string): (r: string)
    ensures |r| <= SnippetLength + 3
    ensures |text| <= SnippetLength ==> r == text
    ensures |text| > SnippetLength ==> |r| == SnippetLength + 3 && r[..SnippetLength] == text[..SnippetLength] && r[SnippetLength..] == "..."
  {
    if |text| > SnippetLength then text[..SnippetLength] + "..." else text
  }

  /** The scores of the text chunks, when there is a text query and the page has text chunks. */
  function PageTextScores(page: PdfPageIndex, queryText: seq<real>): seq<(TextChunk, real)>
  {
    if |queryText| > 0 && |page.textChunks| > 0 then ScoredText(queryText, page.textChunks) else []
  }

  /** The scores of the image chunks, when there are image queries and the page has image chunks. */
  function PageImageScores(page: PdfPageIndex, queryImages: seq<seq<real>>): seq<(ImageChunk, real)>
  {
    if |queryImages| > 0 && |page.imageChunks| > 0 then ScoredImages(queryImages, page.imageChunks) else []
  }

  /** The result for one page: none for a page without chunks. */
  function PageResult(path: string, page: PdfPageIndex, queryText: seq<real>, queryImages: seq<seq<real>>): Option<SearchResult>
  {
    if page.textChunks == [] && page.imageChunks == [] then None
    else
      var textScores := PageTextScores(page, queryText);
      var imageScores := PageImageScores(page, queryImages);
      var score := CombineScores(TopScore(textScores), TopScore(imageScores), |queryText| > 0, |queryImages| > 0);
      var highlights := TextHighlights(Best(textScores, MaxTextHighlights)) + ImageHighlights(Best(imageScores, MaxImageHighlights));
      Some(SearchResult(path, page.pageNumber, score, Snippet(page.text), highlights))
  }

  /**
   * A page yields a result exactly when it has a chunk; the result's score combines the
   * best text and the best image score, its snippet is the page text cut to at most 183
   * characters, and it carries at most 3 text and 2 image highlights.
   */
  lemma {:induction false} PageResultSpec(path: string, page: PdfPageIndex, queryText: seq<real>, queryImages: seq<seq<real>>)
    ensures PageResult(path, page, queryText, queryImages).None? <==> page.textChunks == [] && page.imageChunks == []
    ensures var r := PageResult(path, page, queryText, queryImages);
      r.Some? ==>
        && r.value.pdfPath == path && r.value.pageNumber == page.pageNumber
        && r.value.snippet == Snippet(page.text) && |r.value.snippet| <= 183
        && r.value.score == CombineScores(TopScore(PageTextScores(page, queryText)), TopScore(PageImageScores(page, queryImages)), |queryText| > 0, |queryImages| > 0)
        && exists t: seq<PdfHighlight>, i: seq<PdfHighlight> ::
             && r.value.highlights == t + i && |t| <= 3 && |i| <= 2
             && (forall h :: h in t ==> h.kind == "text") && (forall h :: h in i ==> h.kind == "image")
  {
    var textBest := Best(PageTextScores(page, queryText), MaxTextHighlights);
    var imageBest := Best(PageImageScores(page, queryImages), MaxImageHighlights);
    HighlightsSpec(textBest, imageBest);
  }

  /** The best text score bounds every match it is compared with in the highlight loop. */
  lemma {:induction false} BestBelowTop<C>(scored: seq<(C, real)>, n: int)
    ensures forall k :: 0 <= k < |Best(scored, n)| ==> Best(scored, n)[k].1 <= TopScore(scored)
  {
    var sorted := SortBy(scored, ByScore());
    SortByPermutes(scored, ByScore());
    forall k | 0 <= k < |Best(scored, n)|
      ensures Best(scored, n)[k].1 <= TopScore(scored)
    {
      assert Best(scored, n)[k] == sorted[k];
      assert sorted[k] in multiset(scored);
      var j :| 0 <= j < |scored| && scored[j] == sorted[k];
    }
  }

  /** The text part of the page loop of `Search`: best score, snippet and highlights. */
  method MatchText(page: PdfPageIndex, queryText: seq<real>) returns (textScore: real, snippet: string, highlights: seq<PdfHighlight>)
    ensures textScore == TopScore(PageTextScores(page, queryText))
    ensures snippet == page.text
    ensures highlights == TextHighlights(Best(PageTextScores(page, queryText), MaxTextHighlights))
  {
    textScore := 0.0;
    snippet := page.text;
    highlights := [];
    if |queryText| > 0 && |page.textChunks| > 0 {
      var scored: seq<(TextChunk, real)> := [];
      for k := 0 to |page.textChunks|
        invariant scored == ScoredText(queryText, page.textChunks[..k])
      {
        assert page.textChunks[..k + 1][..k] == page.textChunks[..k];
        var chunk := page.textChunks[k];
        if chunk.embedding.None? || |chunk.embedding.value| == 0 {
          continue;
        }
        var sim := Cosine(queryText, chunk.embedding.value);
        scored := scored + [(chunk, sim)];
      }
      assert page.textChunks[..|page.textChunks|] == page.textChunks;
      if |scored| > 0 {
        textScore := TopScore(scored);
      }
      var matches := Best(scored, MaxTextHighlights);
      BestBelowTop(scored, MaxTextHighlights);
      for k := 0 to |matches|
        invariant textScore == TopScore(scored) && snippet == page.text
        invariant highlights == TextHighlights(matches[..k])
      {
        assert matches[..k + 1][..k] == matches[..k];
        var m := matches[k];
        if textScore < m.1 {
          textScore := m.1;
          snippet := m.0.text;
        }
        if m.1 >= HighlightThreshold {
          highlights := highlights + [PdfHighlight(m.0.bounds, "text")];
        }
      }
      assert matches[..|matches|] == matches;
    }
  }

  /** The image part of the page loop of `Search`: best score over chunk and query pairs, and highlights. */
  method MatchImages(page: PdfPageIndex, queryImages: seq<seq<real>>) returns (imageScore: real, highlights: seq<PdfHighlight>)
    ensures imageScore == TopScore(PageImageScores(page, queryImages))
    ensures highlights == ImageHighlights(Best(PageImageScores(page, queryImages), MaxImageHighlights))
  {
    imageScore := 0.0;
    highlights := [];
    if |queryImages| > 0 && |page.imageChunks| > 0 {
      var scored: seq<(ImageChunk, real)> := [];
      for k := 0 to |page.imageChunks|
        invariant scored == ScoredImages(queryImages, page.imageChunks[..k])
      {
        assert page.imageChunks[..k + 1][..k] == page.imageChunks[..k];
        var chunk := page.imageChunks[k];
        if chunk.embedding.None? || |chunk.embedding.value| == 0 {
          continue;
        }
        var pairs := ScoreAgainst(queryImages, chunk);
        scored := scored + pairs;
      }
      assert page.imageChunks[..|page.imageChunks|] == page.imageChunks;
      if |scored| > 0 {
        imageScore := TopScore(scored);
      }
      var matches := Best(scored, MaxImageHighlights);
      BestBelowTop(scored, MaxImageHighlights);
      for k := 0 to |matches|
        invariant imageScore == TopScore(scored)
        invariant highlights == ImageHighlights(matches[..k])
      {
        assert matches[..k + 1][..k] == matches[..k];
        var m := matches[k];
        if imageScore < m.1 {
          imageScore := m.1;
        }
        if m.1 >= HighlightThreshold {
          highlights := highlights + [PdfHighlight(m.0.bounds, "image")];
        }
      }
      assert matches[..|matches|] == matches;
    }
  }

  /** The inner query loop over one image chunk. */
  method ScoreAgainst(queries: seq<seq<real>>, chunk: ImageChunk) returns (pairs: seq<(ImageChunk, real)>)
    requires HasEmbedding(chunk.embedding)
    ensures pairs == seq(|queries|, q requires 0 <= q < |queries| => (chunk, CosineScore(queries[q], chunk.embedding.value)))
  {
    pairs := [];
    for q := 0 to |queries|
      invariant pairs == seq(q, j requires 0 <= j < q => (chunk, CosineScore(queries[j], chunk.embedding.value)))
    {
      var sim := Cosine(queries[q], chunk.embedding.value);
      pairs := pairs + [(chunk, sim)];
    }
  }

  /** The body of the page loop of `Search`. */
  method ScorePage(path: string, page: PdfPageIndex, queryText: seq<real>, queryImages: seq<seq<real>>) returns (result: Option<SearchResult>)
    ensures result == PageResult(path, page, queryText, queryImages)
  {
    if |page.textChunks| == 0 && |page.imageChunks| == 0 {
      return None;
    }
    var textScore, snippet, textHighlights := MatchText(page, queryText);
    var imageScore, imageHighlights := MatchImages(page, queryImages);
    var score := CombineScores(textScore, imageScore, |queryText| > 0, |queryImages| > 0);
    if |snippet| > SnippetLength {
      snippet := snippet[..SnippetLength] + "...";
    }
    result := Some(SearchResult(path, page.pageNumber, score, snippet, textHighlights + imageHighlights));
  }

  // ---------------------------------------------------------------------------
  // Search
  // ---------------------------------------------------------------------------

  function ResultsOfPages(path: string, pages: seq<PdfPageIndex>, queryText: seq<real>, queryImages: seq<seq<real>>): seq<SearchResult>
  {
    if pages == [] then []
    else
      var r := PageResult(path, pages[|pages| - 1], queryText, queryImages);
      ResultsOfPages(path, pages[..|pages| - 1], queryText, queryImages) + if r.Some? then [r.value] else []
  }

  /** One more page of the document adds that page's result, if any. */
  lemma {:induction false} ResultsOfPagesStep(path: string, pages: seq<PdfPageIndex>, p: nat, queryText: seq<real>, queryImages: seq<seq<real>>)
    requires p < |pages|
    ensures var r := PageResult(path, pages[p], queryText, queryImages);
      ResultsOfPages(path, pages[..p + 1], queryText, queryImages)
        == ResultsOfPages(path, pages[..p], queryText, queryImages) + if r.Some? then [r.value] else []
  {
    assert pages[..p + 1][..p] == pages[..p];
  }

  /** The page results of every document, in enumeration order. */
  function AllResults(docs: seq<PdfDocumentIndex>, queryText: seq<real>, queryImages: seq<seq<real>>): seq<SearchResult>
  {
    if docs == [] then []
    else
      var doc := docs[|docs| - 1];
      AllResults(docs[..|docs| - 1], queryText, queryImages) + ResultsOfPages(doc.pdfPath, doc.pages, queryText, queryImages)
  }

  function ByResultScore(): (SearchResult, SearchResult) -> bool
  {
    (a: SearchResult, b: SearchResult) => a.score > b.score
  }

  /** `Search`: the page results by descending score, ties in enumeration order, at most `topN` of them. */
  function SearchResults(docs: seq<PdfDocumentIndex>, queryText: seq<real>, queryImages: seq<seq<real>>, topN: int): seq<SearchResult>
  {
    Take(SortBy(AllResults(docs, queryText, queryImages), ByResultScore()), topN)
  }

  lemma {:induction false} ByResultScoreIsStrictWeak()
    ensures StrictWeakOrder(ByResultScore())
  {
  }

  /** The results are page results in descending score order, and all of them when `topN` covers them. */
  lemma {:induction false} SearchResultsRanked(docs: seq<PdfDocumentIndex>, queryText: seq<real>, queryImages: seq<seq<real>>, topN: int)
    ensures var r := SearchResults(docs, queryText, queryImages, topN);
      forall k :: 0 <= k < |r| ==> r[k] in AllResults(docs, queryText, queryImages)
    ensures var r := SearchResults(docs, queryText, queryImages, topN);
      forall i, j :: 0 <= i < j < |r| ==> r[i].score >= r[j].score
    ensures topN >= |AllResults(docs, queryText, queryImages)| ==>
      multiset(SearchResults(docs, queryText, queryImages, topN)) == multiset(AllResults(docs, queryText, queryImages))
  {
    var all := AllResults(docs, queryText, queryImages);
    var sorted := SortBy(all, ByResultScore());
    SortByPermutes(all, ByResultScore());
    ByResultScoreIsStrictWeak();
    SortByOrdered(all, ByResultScore());
    var r := SearchResults(docs, queryText, queryImages, topN);
    forall k | 0 <= k < |r|
      ensures r[k] in all
    {
      assert r[k] == sorted[k];
      assert sorted[k] in multiset(all);
    }
    forall i, j | 0 <= i < j < |r|
      ensures r[i].score >= r[j].score
    {
      assert r[i] == sorted[i] && r[j] == sorted[j];
      assert !ByResultScore()(sorted[j], sorted[i]);
    }
    if topN >= |all| {
      assert r == sorted;
    }
  }

  /**
   * Ties keep their enumeration order: the results are a prefix of the index-tagged sort of
   * the page results, in which tied results have increasing indices. (`SearchResultsRanked`
   * and `SearchResultsTop` state which results are returned.)
   */
  lemma {:induction false} SearchResultsSpec(docs: seq<PdfDocumentIndex>, queryText: seq<real>, queryImages: seq<seq<real>>, topN: int)
    ensures var r := SearchResults(docs, queryText, queryImages, topN);
      |r| <= if topN < 0 then 0 else topN
    ensures var all := AllResults(docs, queryText, queryImages);
      Untagged(SortBy(Tagged(all), OnValues(ByResultScore()))) == SortBy(all, ByResultScore())
      && TiesByTag(SortBy(Tagged(all), OnValues(ByResultScore())), ByResultScore())
    ensures var all := AllResults(docs, queryText, queryImages);
      var r := SearchResults(docs, queryText, queryImages, topN);
      r == Untagged(SortBy(Tagged(all), OnValues(ByResultScore())))[..|r|]
  {
    var all := AllResults(docs, queryText, queryImages);
    SortByPermutes(all, ByResultScore());
    SortByStable(all, ByResultScore());
    var r := SearchResults(docs, queryText, queryImages, topN);
    assert r == SortBy(all, ByResultScore())[..|r|];
  }

  /** The search keeps min(topN, all) results, and no page result left out outscores one kept. */
  lemma {:induction false} SearchResultsTop(docs: seq<PdfDocumentIndex>, queryText: seq<real>, queryImages: seq<seq<real>>, topN: int)
    ensures var all := AllResults(docs, queryText, queryImages);
      |SearchResults(docs, queryText, queryImages, topN)| == if topN <= 0 then 0 else if topN < |all| then topN else |all|
    ensures var all := AllResults(docs, queryText, queryImages);
      var r := SearchResults(docs, queryText, queryImages, topN);
      && multiset(r) <= multiset(all)
      && forall x, i :: x in multiset(all) - multiset(r) && 0 <= i < |r| ==> x.score <= r[i].score
  {
    var all := AllResults(docs, queryText, queryImages);
    var r := SearchResults(docs, queryText, queryImages, topN);
    SortByPermutes(all, ByResultScore());
    ByResultScoreIsStrictWeak();
    TakeSortedIsTop(all, ByResultScore(), topN);
    forall x: SearchResult, i | x in multiset(all) - multiset(r) && 0 <= i < |r|
      ensures x.score <= r[i].score
    {
      assert !ByResultScore()(x, r[i]);
    }
  }

  /** The page loop of `Search` for one document: the results of its pages, in page order. */
  method SearchDocument(doc: PdfDocumentIndex, queryText: seq<real>, queryImages: seq<seq<real>>) returns (found: seq<SearchResult>)
    ensures found == ResultsOfPages(doc.pdfPath, doc.pages, queryText, queryImages)
  {
    found := [];
    for p := 0 to |doc.pages|
      invariant found == ResultsOfPages(doc.pdfPath, doc.pages[..p], queryText, queryImages)
    {
      ResultsOfPagesStep(doc.pdfPath, doc.pages, p, queryText, queryImages);
      var result := ScorePage(doc.pdfPath, doc.pages[p], queryText, queryImages);
      if result.Some? {
        found := found + [result.value];
      }
    }
    assert doc.pages[..|doc.pages|] == doc.pages;
  }

  /** `Search`: scores every page of every document, then ranks. */
  method Search(store: PdfIndexStore, queryText: seq<real>, queryImages: seq<seq<real>>, topN: int := 8) returns (results: seq<SearchResult>)
    ensures results == SearchResults(store.documents, queryText, queryImages, topN)
  {
    var docs := store.documents;
    var found: seq<SearchResult> := [];
    for d := 0 to |docs|
      invariant found == AllResults(docs[..d], queryText, queryImages)
    {
      assert docs[..d + 1][..d] == docs[..d];
      var pageResults := SearchDocument(docs[d], queryText, queryImages);
      found := found + pageResults;
    }
    assert docs[..|docs|] == docs;
    results := Take(SortBy(found, ByResultScore()), topN);
  }
}
