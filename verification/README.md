# CopyHelper core, modelled in Dafny

CopyHelper is a Windows desktop helper. It captures part of the screen, finds the photos in the
capture, reads its text with OCR, and can look the capture up in a local corpus of PDF files
indexed with CLIP embeddings. This project models and verifies the logic at the centre of that
pipeline:

- **`ClipTokenizer`** (`clip_tokenizer.dfy`): the CLIP byte-level BPE tokenizer. It covers:
  - the byte-to-character table;
  - the merge-rank table;
  - greedy pair merging with its memo cache;
  - packing into fixed-length id and attention arrays.
- **`ClipEmbedding`** (`clip_embedding.dfy`): the code around the CLIP ONNX models. It covers:
  - naming the text-model inputs;
  - the image tensor layout;
  - masked mean pooling of the model output;
  - zero-guarded normalisation;
  - the empty-text short cut.
- **`PdfIndexModels`, `PdfLayout`, `PdfIndex`** (`pdf_index_models.dfy`, `pdf_layout.dfy`,
  `pdf_index.dfy`): the PDF index. It covers:
  - grouping words into line chunks;
  - normalising rectangles to page fractions;
  - building a document's index;
  - incremental ingestion into the store;
  - cosine scoring, the 0.7/0.3 score combination, highlights, snippets and stable top-N ranking.
- **`ImageSegmentation`** (`image_segmentation.dfy`): photo detection. It covers:
  - the downscale factor;
  - the contour acceptance filter;
  - the greedy merge of overlapping regions.
- **`ImagePipeline`** (`image_pipeline.dfy`): the capture pipeline. It covers:
  - padding and integer conversion of regions;
  - routing regions to photos or OCR;
  - the single whole-image OCR fallback;
  - joining the text.
- **`ImageHash`** (`image_hash.dfy`): the difference hash of a 9×8 grey grid, its hexadecimal
  form and the Hamming similarity of two hashes.
- **Shared modules:**
  - `Wrappers` (`Option`, `byte`);
  - `Text` (.NET white space, `Trim`, `Join`, `Split` with empty entries removed, ordinal
    case-insensitive comparison);
  - `Linq` (`Take`, the stable sort behind `OrderBy`/`OrderByDescending`, `SelectMany`).

Code that updates state step by step is modelled as Dafny methods with loops. Each method is
proved equal to a specification function, and the properties are proved as lemmas about those
functions. The tokenizer's cache, the embedding arrays and the index store's document list are
mutable state: respectively class fields, arrays and class fields. Floating-point values are
`real`. Each comparison with a ratio models the IEEE result of dividing by zero (an infinity, or
NaN for 0/0, which compares false).

Behaviour of the code worth noting:

- The snippet of a search result is always the page text. The branch that would replace it by
  the best chunk's text cannot fire, because the text score already equals the maximum
  (`PdfIndex.MatchText`).
- Region merging compares a candidate with kept regions of any kind. It drops the candidate at an
  overlap of more than 70% of the candidate's area, and widens the kept region at more than 90%
  of the kept region's area.
- Segmentation emits only photo regions. So every capture gives one photo per region and reads
  the whole image with OCR exactly once (`ImagePipeline.CaptureSpec`).
- Text regions are not ordered into reading order before OCR.
- The combined score is not confined to [0, 1]: a dot product of unit vectors can be negative.
  What holds is that the combined score lies between the text and the image score.
- `Models/SearchResult.cs` declares a four-argument constructor, while the search passes a list
  of highlights as a fifth argument. The model follows the search: a result carries its
  highlights.

## Model

| member | source | states |
|---|---|---|
| Text.Trim | Services/ImagePipelineService.cs:66 | The trimmed string is empty exactly when the input is blank. Otherwise it starts and ends with a non-white-space character. It is a slice of the input whose cut-off borders are blank. |
| Text.Join | Services/PdfIndexService.cs:319 | Joining no parts gives the empty string; joining one part gives that part. |
| Text.SplitRemoveEmptyFields | Services/ClipTokenizer.cs:189 | Every part produced by a split with empty entries removed is non-empty and free of the separator. |
| Text.SplitJoinRoundTrip | Services/ClipTokenizer.cs:82 | Splitting on the separator (removing empty entries) gives back any list of non-empty, separator-free parts joined with that separator. |
| Text.EqualsIgnoreCaseIsEquivalence | Services/PdfIndexService.cs:59 | Ordinal case-insensitive comparison is reflexive, symmetric and transitive. |
| Linq.Take | Services/PdfIndexService.cs:187-190 | `Take(n)` yields the first min(max(n, 0), length) elements, in order. |
| Linq.SortByPermutes | Services/PdfIndexService.cs:187-188 | Sorting returns a permutation of its input (same length, same multiset). |
| Linq.SortByOrdered | Services/PdfIndexService.cs:187-188 | For a strict weak order, no element of the sorted sequence should come before an earlier one. |
| Linq.TakeSortedIsTop | Services/PdfIndexService.cs:187-190 | Taking the first n of a sorted sequence keeps elements of the input, and no element left out sorts strictly before a kept one. |
| Linq.SortByStable | Services/PdfIndexService.cs:187-188 | Sorting equals sorting the index-tagged sequence and dropping the tags, and in that tagged result equivalent elements keep increasing indices (the sort is stable). |
| ClipTokenizer.BuildByteEncoder | Services/ClipTokenizer.cs:201-227 | The table built by the loops maps every one of the 256 bytes to its fixed character. |
| ClipTokenizer.ByteEncoderLayout | Services/ClipTokenizer.cs:201-227 | Bytes 33–126, 161–172 and 174–255 map to themselves. The other 68 map into 256–323 in increasing order. The table is injective. |
| ClipTokenizer.ByteCharAvoidsSeparators | Services/ClipTokenizer.cs:201-227 | No encoded character is a space or U+0001, the two separators the tokenizer relies on. |
| ClipTokenizer.EncodedChars | Services/ClipTokenizer.cs:89-99 | The encoded string has one character per byte: the table's character for that byte. |
| ClipTokenizer.ClipTokenizer.EncodeBytes | Services/ClipTokenizer.cs:89-99 | The loop produces exactly the table encoding of the bytes. |
| ClipTokenizer.PairKeyInjective | Services/ClipTokenizer.cs:165 | Pair keys are injective when the first part has no U+0001, so distinct merge rules get distinct keys. |
| ClipTokenizer.MergeKey | Services/ClipTokenizer.cs:183-195 | A merge line yields a key only when it is present, not blank and splits into exactly two fields; the key is the pair key of those fields. |
| ClipTokenizer.MergeKeys | Services/ClipTokenizer.cs:179-196 | There is at most one key per merge line. |
| ClipTokenizer.RankMapSpec | Services/ClipTokenizer.cs:179-196 | Over the keys of the well-formed lines, a key has a rank exactly when it occurs. Its rank is the position of its last occurrence, because a later line overwrites an earlier one. |
| ClipTokenizer.LoadMerges | Services/ClipTokenizer.cs:179-196 | The rank loop skips blank and malformed lines without using up a rank and builds exactly that rank table. |
| ClipTokenizer.Chars | Services/ClipTokenizer.cs:108 | The initial word has one single-character symbol per character of the token. |
| ClipTokenizer.BestFrom | Services/ClipTokenizer.cs:117-130 | The chosen pair is a ranked adjacent pair. It has the least rank of all ranked pairs and a strictly smaller rank than every earlier one. When nothing is chosen, no adjacent pair is ranked. |
| ClipTokenizer.FindBestSpec | Services/ClipTokenizer.cs:117-135 | The search finds position i exactly when i is the lowest-ranked pair, earliest on ties. It finds nothing exactly when no pair is ranked. |
| ClipTokenizer.LowestRankedPair | Services/ClipTokenizer.cs:117-135 | The scan returns the symbols at the position the search defines, or none when no pair is ranked. |
| ClipTokenizer.MergePairShrinks | Services/ClipTokenizer.cs:137-153 | A round that fuses an occurring pair strictly shortens the word, so the merge loop terminates. |
| ClipTokenizer.MergePair | Services/ClipTokenizer.cs:137-151 | A merge round never lengthens the word. |
| ClipTokenizer.MergePairSpells | Services/ClipTokenizer.cs:137-151 | A round preserves the spelled-out token. |
| ClipTokenizer.MergePairExhaustive | Services/ClipTokenizer.cs:137-151 | After the left-to-right pass, the fused pair occurs at no adjacent position. |
| ClipTokenizer.MergeAll | Services/ClipTokenizer.cs:137-151 | The rebuild loop computes exactly one merge round. |
| ClipTokenizer.BpeWord | Services/ClipTokenizer.cs:115-158 | Repeated merging never lengthens the word. |
| ClipTokenizer.BpeWordSpec | Services/ClipTokenizer.cs:115-158 | The final word spells the token and has no ranked adjacent pair left. |
| ClipTokenizer.BpeWordFields | Services/ClipTokenizer.cs:108-160 | When no initial symbol contains the separator, no merged piece does either. So splitting the space-joined result gives back the pieces. |
| ClipTokenizer.TokenPiecesSpec | Services/ClipTokenizer.cs:80-85 | The pieces of a pre-token are the BPE result of its encoded characters, and they concatenate back to the encoded token. |
| ClipTokenizer.ClipTokenizer.constructor | Services/ClipTokenizer.cs:24-31 | The tokenizer starts with the given vocabulary, the rank table of the merge list and an empty cache. The start and end ids are those of the marker tokens, or 0 when absent. |
| ClipTokenizer.ClipTokenizer.Bpe | Services/ClipTokenizer.cs:101-163 | The result is the BPE of the token, whether it comes from the cache or is computed. The cache records it and keeps holding only correct results. |
| ClipTokenizer.ClipTokenizer.Tokenize | Services/ClipTokenizer.cs:70-87 | The sub-words of a pre-token are exactly its BPE pieces. |
| ClipTokenizer.KnownIds | Services/ClipTokenizer.cs:53-58 | There is at most one id per sub-word. |
| ClipTokenizer.KnownIdsMembers | Services/ClipTokenizer.cs:53-58 | An id is emitted exactly when some sub-word with that id is in the vocabulary; unknown sub-words are skipped. |
| ClipTokenizer.KnownIdsAllKnown | Services/ClipTokenizer.cs:53-58 | When every sub-word is known, each one consumes exactly one slot. |
| ClipTokenizer.KnownIdsAppend | Services/ClipTokenizer.cs:46-59 | The ids of a stream are the ids of its parts, concatenated. |
| ClipTokenizer.PadIds | Services/ClipTokenizer.cs:35-36 | The id array has exactly `maxTokens` entries. |
| ClipTokenizer.AttentionMask | Services/ClipTokenizer.cs:35-36 | The attention array has exactly `maxTokens` entries. |
| ClipTokenizer.EncodeLayout | Services/ClipTokenizer.cs:35-65 | Every attention entry is 0 or 1, and the 1s form a prefix holding the framed ids. Ids are 0 after it. A non-zero start id opens a non-empty array. A non-zero end id sits right after the last id whenever that slot exists. |
| ClipTokenizer.WritePieces | Services/ClipTokenizer.cs:46-59 | Writing a pre-token's pieces appends their known ids, and nothing is written once `maxTokens` slots are used. |
| ClipTokenizer.RestIgnored | Services/ClipTokenizer.cs:48-51 | Once the arrays are full, the remaining pre-tokens change nothing. |
| ClipTokenizer.ClipTokenizer.Encode | Services/ClipTokenizer.cs:33-68 | The arrays are the padded framed ids and the attention mask of the known sub-word ids of the pre-tokens. |
| ClipTokenizer.ClipTokenizer.WriteStream | Services/ClipTokenizer.cs:46-59 | The token loop writes the known ids of the whole token stream after what was already written, stopping when the arrays are full. The cache stays correct. |
| ClipTokenizer.WritePiece | Services/ClipTokenizer.cs:53-58 | Given a free slot, a sub-word in the vocabulary is written there as its id with attention 1. An unknown one writes nothing. |
| ClipEmbedding.TextInputsSpec | Services/ClipEmbeddingService.cs:44-60 | Each model input keeps its name and has shape [1, 77]. It carries the attention mask exactly when its name contains "attention" ignoring case, and the ids otherwise. |
| ClipEmbedding.TextInputs | Services/ClipEmbeddingService.cs:49-60 | There is one input tensor per model input name. |
| ClipEmbedding.AttentionNameSelectsMask | Services/ClipEmbeddingService.cs:52-55 | Any input name containing "attention" in any letter case, at any position, receives the attention mask. |
| ClipEmbedding.BuildTextInputs | Services/ClipEmbeddingService.cs:49-60 | The input loop builds exactly those named tensors, in input order. |
| ClipEmbedding.UnmaskedWithoutMask | Services/ClipEmbeddingService.cs:76 | Without a mask (the image path) every position is pooled. |
| ClipEmbedding.Pooled | Services/ClipEmbeddingService.cs:129-131 | The pooled vector has `hidden` entries. |
| ClipEmbedding.AddRow | Services/ClipEmbeddingService.cs:141-145 | Adding a row adds the row's values to the running sums, entry by entry. |
| ClipEmbedding.MeanPool | Services/ClipEmbeddingService.cs:127-157 | The pooling loops compute the masked column means, or zeros when every position is masked. |
| ClipEmbedding.ColumnSumIgnoresMasked | Services/ClipEmbeddingService.cs:134-147 | Rows whose mask entry is 0 do not contribute to the sums. |
| ClipEmbedding.PooledSpec | Services/ClipEmbeddingService.cs:134-155 | Tensors that agree on the unmasked rows pool to the same vector. The result is all zeros when every row is masked (count 0, no division). |
| ClipEmbedding.ExtractEmbedding | Services/ClipEmbeddingService.cs:116-163 | The output loop returns exactly the extraction the specification function defines. |
| ClipEmbedding.ExtractedSpec | Services/ClipEmbeddingService.cs:118-159 | The first float tensor of rank 2 or 3 alone decides the result; other outputs are skipped. |
| ClipEmbedding.ExtractedNone | Services/ClipEmbeddingService.cs:162 | When no output qualifies, the embedding is empty. |
| ClipEmbedding.SumSq | Services/ClipEmbeddingService.cs:172-176 | The sum of squares is non-negative. |
| ClipEmbedding.Scale | Services/ClipEmbeddingService.cs:184-187 | Every component is divided by the same positive norm. |
| ClipEmbedding.Normalized | Services/ClipEmbeddingService.cs:165-188 | Normalisation keeps the vector's length. |
| ClipEmbedding.NormalizeInPlace | Services/ClipEmbeddingService.cs:165-188 | The vector becomes its normalisation by the square root of its sum of squares. |
| ClipEmbedding.NormalizedSpec | Services/ClipEmbeddingService.cs:167-187 | Empty and zero-norm vectors are left unchanged. Otherwise each component times the norm gives back the original. |
| ClipEmbedding.NormalizedLength | Services/ClipEmbeddingService.cs:172-187 | The normalised vector's sum of squares times norm² equals the original's sum of squares. |
| ClipEmbedding.LayoutInjective | Services/ClipEmbeddingService.cs:87-109 | Channel-first tensor indices `c·224·224 + y·224 + x` and byte indices `y·672 + 3x + c` stay in range and are injective. |
| ClipEmbedding.LayoutOnto | Services/ClipEmbeddingService.cs:87-109 | Every tensor index and every byte index belongs to exactly one (channel, row, column) triple. |
| ClipEmbedding.BuildImageTensor | Services/ClipEmbeddingService.cs:81-114 | The nested loops fill all 3·224·224 entries. The entry for channel c of pixel (x, y) is the normalised value of byte `y·672 + 3x + c`. |
| ClipEmbedding.ClipEmbeddingService.constructor | Services/ClipEmbeddingService.cs:25-35 | The service holds the given tokenizer and the input names of the two models. |
| ClipEmbedding.ClipEmbeddingService.EncodeText | Services/ClipEmbeddingService.cs:37-66 | Blank text gives an empty vector without running the model. Otherwise the model receives the named id and mask tensors. The result is the normalised pooled output, pooled under the mask. |
| ClipEmbedding.ClipEmbeddingService.EncodeImage | Services/ClipEmbeddingService.cs:68-79 | The model receives a tensor with the channel-first layout under its first input name. The result is the normalised, unmasked pooled output. |
| ImageHash.DHashPrefixBits | Utilities/ImageHash.cs:20-35 | After n comparisons, bit k (for k < n) is set exactly when comparison k found the left byte brighter, and no higher bit is set. |
| ImageHash.DHashBits | Utilities/ImageHash.cs:20-35 | The loops produce the 64-bit hash whose bit y·8 + x is set exactly when grid byte (x, y) is greater than byte (x+1, y). |
| ImageHash.DHashRow | Utilities/ImageHash.cs:24-34 | The inner loop adds the eight comparisons of row y to the hash built from the rows above it. |
| ImageHash.FormatHex16 | Utilities/ImageHash.cs:37 | The hash is written as exactly 16 hexadecimal digits. |
| ImageHash.ParseHex | Utilities/ImageHash.cs:42-50 | A successful parse reads a run of hexadecimal digits. |
| ImageHash.FormatParseRoundTrip | Utilities/ImageHash.cs:37-42 | Parsing the formatted hash gives back the hash. |
| ImageHash.HexDigitsRoundTrip | Utilities/ImageHash.cs:37-50 | Writing a value below 16ⁿ as n hexadecimal digits gives digits only, and reading them back gives the value. |
| ImageHash.ComputeDHash | Utilities/ImageHash.cs:9-38 | The hash text has 16 characters and parses back to the hash, whose bits are the brightness comparisons. |
| ImageHash.ClearLowestBit | Utilities/ImageHash.cs:54-58 | `x & (x - 1)` is smaller than a non-zero x and has one set bit fewer, so the popcount loop terminates. |
| ImageHash.PopCountBound | Utilities/ImageHash.cs:52-58 | A 64-bit value has at most 64 set bits. |
| ImageHash.Similarity | Utilities/ImageHash.cs:40-61 | The similarity is 0 when either text fails to parse. Otherwise it is 1 − (popcount of a XOR b)/64, computed by the clearing loop. |
| ImageHash.HammingSimilarityProperties | Utilities/ImageHash.cs:52-60 | The similarity lies in [0, 1], is 1 for identical hashes and is symmetric. |
| ImageHash.SimilarityOfFormatted | Utilities/ImageHash.cs:37-60 | Comparing the texts of two hashes gives the similarity of the hashes. |
| PdfIndexModels.PdfIndexStore.constructor | Models/PdfIndexModels.cs:6-9 | A new store has no documents. |
| PdfLayout.NormalizedRectRoundTrip | Services/PdfIndexService.cs:333-354 | Mapping the page fractions back to page units gives the original box, so normalisation loses nothing. |
| PdfLayout.NormalizedRectInsidePage | Services/PdfIndexService.cs:333-354 | A box inside the page becomes a rectangle inside the unit square, measured from the top edge. |
| PdfLayout.MinOf | Services/PdfIndexService.cs:320-322 | `Min` is attained by some element and bounds all of them from below. |
| PdfLayout.MaxOf | Services/PdfIndexService.cs:321-323 | `Max` is attained by some element and bounds all of them from above. |
| PdfLayout.Texts | Services/PdfIndexService.cs:319 | The texts of the words, one per word, in order. |
| PdfLayout.SpanBoxSpec | Services/PdfIndexService.cs:320-325 | The chunk box contains every word's box, and each of its four edges is some word's edge. |
| PdfLayout.BuildChunkText | Services/PdfIndexService.cs:317-331 | The chunk text splits back into the words' texts when those have no spaces, and a new chunk has no embedding. |
| PdfLayout.ReadingOrderIsStrictWeak | Services/PdfIndexService.cs:279-282 | Bottom descending, then left ascending, is a strict weak order, so the sort is well defined. |
| PdfLayout.LinesSpec | Services/PdfIndexService.cs:284-314 | The lines partition the sorted words in order, and there is no line exactly when there are no words. Each line's words lie within 2.5 of its first word's bottom. Each new line starts with a word outside that tolerance of the previous line's first word. |
| PdfLayout.ChunksOf | Services/PdfIndexService.cs:304-313 | There is one chunk per line. |
| PdfLayout.TextChunksSpec | Services/PdfIndexService.cs:277-315 | Every word lands in exactly one chunk, in reading order, with one chunk per line. |
| PdfLayout.ExtractTextChunks | Services/PdfIndexService.cs:277-315 | The loop with its line buffer and current baseline yields exactly those chunks. |
| PdfIndex.ImageChunksSpec | Services/PdfIndexService.cs:244-269 | There is one image chunk per accepted image, each with a non-empty embedding. Images without PNG data, under 50 px or with an empty embedding leave none. |
| PdfIndex.BuildImageChunks | Services/PdfIndexService.cs:244-269 | The image loop builds exactly the image chunks of the accepted images. |
| PdfIndex.IndexPageTextChunks | Services/PdfIndexService.cs:234-242 | Every line chunk is kept in order. A chunk has an embedding exactly when its text is not blank, and then it is the embedding of that text. |
| PdfIndex.EmbedTextChunks | Services/PdfIndexService.cs:234-242 | The chunk loop keeps every extracted chunk, one for one and in order. Each chunk is embedded exactly when its text is not blank. |
| PdfIndex.BuildPage | Services/PdfIndexService.cs:222-272 | The per-page loops build exactly the page index. |
| PdfIndex.BuildIndex | Services/PdfIndexService.cs:213-275 | The document index has the path, the modification time and one page index per page, in order. |
| PdfIndex.FirstMatch | Services/PdfIndexService.cs:59 | The result is the first document whose path equals the given one ignoring case, or none when no path matches. |
| PdfIndex.RemoveAt | Services/PdfIndexService.cs:66-69 | Removing an entry keeps the others in their relative order. |
| PdfIndex.IngestOneSpec | Services/PdfIndexService.cs:53-71 | A missing file or an unchanged modification time leaves the store as it is. Otherwise the first entry for the path is removed and the rebuilt document appended. |
| PdfIndex.IngestOneKeepsPathsUnique | Services/PdfIndexService.cs:59-71 | Ingesting one path keeps at most one entry per path, ignoring case. |
| PdfIndex.IngestAllKeepsPathsUnique | Services/PdfIndexService.cs:48-76 | Ingesting any list of paths keeps at most one entry per path. |
| PdfIndex.Ingest | Services/PdfIndexService.cs:48-76 | An existing store is updated in place and returned; without one, a fresh store is created and filled from an empty list. Either way the document list becomes what the ingestion function says. |
| PdfIndex.IngestInto | Services/PdfIndexService.cs:51-72 | The path loop updates the store's document list in place exactly as the ingestion function says. |
| PdfIndex.CosineScoreSpec | Services/PdfIndexService.cs:356-370 | The score is 0 for empty or length-mismatched vectors and otherwise the plain dot product. It is symmetric. |
| PdfIndex.Cosine | Services/PdfIndexService.cs:356-370 | The summing loop computes exactly that score. |
| PdfIndex.CombineScoresSpec | Services/PdfIndexService.cs:193-211 | With both query kinds, 0.7·text + 0.3·image, which lies between the two scores. With one kind, that kind's score; with none, 0. |
| PdfIndex.ScoredTextSpec | Services/PdfIndexService.cs:101-111 | Exactly the text chunks with a non-empty embedding are scored, each with its cosine against the query. |
| PdfIndex.ScoredImagesSpec | Services/PdfIndexService.cs:136-149 | Exactly the pairs of an image chunk with a non-empty embedding and an image query are scored. |
| PdfIndex.TopScore | Services/PdfIndexService.cs:113-116 | The top score is the maximum of the scores (attained by one of them), or 0 when nothing was scored. |
| PdfIndex.BestBelowTop | Services/PdfIndexService.cs:113-124 | No match among the best few scores above the maximum, so the branch that would raise the score and replace the snippet never fires. |
| PdfIndex.Passing | Services/PdfIndexService.cs:126-129 | The passing matches are exactly the matches scoring at least 0.2, and there are no more of them than matches. |
| PdfIndex.TextHighlightsInOrder | Services/PdfIndexService.cs:118-130 | There is one text highlight per passing match, in order, and the i-th one carries the i-th passing match's box. |
| PdfIndex.ImageHighlightsInOrder | Services/PdfIndexService.cs:156-167 | There is one image highlight per passing match, in order, and the i-th one carries the i-th passing match's box. |
| PdfIndex.TextHighlightsSpec | Services/PdfIndexService.cs:118-130 | Every text highlight marks a text match scoring at least 0.2, and every such match gets a highlight of its box. |
| PdfIndex.ImageHighlightsSpec | Services/PdfIndexService.cs:156-167 | Every image highlight marks an image match scoring at least 0.2, and every such match gets a highlight of its box. |
| PdfIndex.HighlightsSpec | Services/PdfIndexService.cs:118-167 | Both directions for both kinds: a highlight exists exactly for the matches scoring at least 0.2, with kind "text" or "image". |
| PdfIndex.BestDescending | Services/PdfIndexService.cs:118 | `OrderByDescending(score).Take(n)` keeps min(n, count) matches (none for n ≤ 0), in descending score. |
| PdfIndex.BestIsTop | Services/PdfIndexService.cs:118 | The kept matches come from the input, and no match left out scores above a kept one. |
| PdfIndex.Snippet | Services/PdfIndexService.cs:177-180 | The snippet is the page text when it has at most 180 characters. Otherwise it is its first 180 characters followed by "...", so it never exceeds 183 characters. |
| PdfIndex.MatchText | Services/PdfIndexService.cs:95-131 | The text pass yields the best text score, keeps the page text as snippet and highlights the top 3 matches scoring at least 0.2. |
| PdfIndex.MatchImages | Services/PdfIndexService.cs:133-168 | The image pass yields the best chunk-and-query score and highlights the top 2 matches scoring at least 0.2. |
| PdfIndex.ScoreAgainst | Services/PdfIndexService.cs:144-148 | The query loop scores one chunk against every image query, in order. |
| PdfIndex.PageResultSpec | Services/PdfIndexService.cs:88-183 | A page yields a result exactly when it has a chunk. The result carries the combined best scores, the truncated page text (at most 183 characters), at most 3 text highlights followed by at most 2 image highlights. |
| PdfIndex.ScorePage | Services/PdfIndexService.cs:88-183 | The page body computes exactly the page result. |
| PdfIndex.SearchDocument | Services/PdfIndexService.cs:88-183 | The page loop for one document collects the page results of its pages, in page order. |
| PdfIndex.ByResultScoreIsStrictWeak | Services/PdfIndexService.cs:187-188 | Descending score is a strict weak order. |
| PdfIndex.SearchResultsRanked | Services/PdfIndexService.cs:187-190 | Every result is a page result, the scores descend, and when `topN` covers all page results every one of them is returned. |
| PdfIndex.SearchResultsTop | Services/PdfIndexService.cs:187-190 | The search returns min(`topN`, page results) results (none for `topN` ≤ 0). They come from the page results, and no page result left out scores above a returned one. |
| PdfIndex.SearchResultsSpec | Services/PdfIndexService.cs:187-190 | At most `topN` results, and ties keep their order: the results are the prefix of the stable descending sort of the page results, which keeps equal scores in page enumeration order. |
| PdfIndex.Search | Services/PdfIndexService.cs:78-191 | The document and page loops collect the page results and rank them as the search function says. |
| ImageSegmentation.UnionContains | Services/ImageSegmentationService.cs:155 | The union of two rectangles contains both. |
| ImageSegmentation.IntersectInside | Services/ImageSegmentationService.cs:138-139 | For non-negative sizes, two rectangles have an intersection exactly when they touch or overlap, and it lies inside both. |
| ImageSegmentation.Scale | Services/ImageSegmentationService.cs:21-32 | The scale is width/800 when the width exceeds 800, else 1. It is never below 1. |
| ImageSegmentation.ProcessedFrame | Services/ImageSegmentationService.cs:26-33 | Wide images are processed 800 pixels wide and no taller than the original; others keep their size. |
| ImageSegmentation.AcceptedSpec | Services/ImageSegmentationService.cs:62-99 | A contour is accepted exactly when its area lies in [0.5%, 95%] of the image. A non-convex one must also fill at least 85% of its hull, and every one at least 85% of its rotated rectangle. Its aspect ratio must lie in [0.1, 10]. |
| ImageSegmentation.CandidatesSpec | Services/ImageSegmentationService.cs:66-107 | Each candidate is the scaled bounding box of an accepted contour. Every accepted contour gives one, and there is at most one per contour. |
| ImageSegmentation.SegmentedSpec | Services/ImageSegmentationService.cs:15-116 | An empty image gives no regions. Every region is a photo, and there are no more regions than contours. |
| ImageSegmentation.Segment | Services/ImageSegmentationService.cs:15-116 | The filter loop and the merge compute exactly the segmentation function. |
| ImageSegmentation.ByAreaIsStrictWeak | Services/ImageSegmentationService.cs:124 | Descending area is a strict weak order. |
| ImageSegmentation.PlaceFromSpec | Services/ImageSegmentationService.cs:132-164 | Placing a candidate either appends it, or keeps the count with each kept region unchanged or widened to its union with the candidate. A candidate that meets no kept region is appended. |
| ImageSegmentation.PlaceFromAt | Services/ImageSegmentationService.cs:135-158 | At the first kept region where a test succeeds: an overlap above 70% of the candidate's area drops the candidate and leaves the list unchanged. Otherwise the overlap is above 90% of the kept region's area, and that region alone is replaced by the union, with the candidate's kind. |
| ImageSegmentation.PlaceFromNoneFires | Services/ImageSegmentationService.cs:135-164 | When neither test succeeds against any kept region, the candidate is appended. |
| ImageSegmentation.PlaceSpec | Services/ImageSegmentationService.cs:127-165 | One placement adds at most one region, and only the candidate. Kept regions only grow, and kinds come from the inputs. |
| ImageSegmentation.MergeAllSpec | Services/ImageSegmentationService.cs:127-165 | Over all candidates the list never shrinks, gains at most one region per candidate, and kept regions only grow. |
| ImageSegmentation.MergedSpec | Services/ImageSegmentationService.cs:119-168 | Lists of at most one region come back unchanged. Otherwise the result is the greedy merge over some ordering of the input that is a permutation of it, sorted by descending area. The output is never longer than the input. |
| ImageSegmentation.MergedKinds | Services/ImageSegmentationService.cs:155-157 | Merging all-photo regions gives only photo regions. |
| ImageSegmentation.MergeOverlaps | Services/ImageSegmentationService.cs:119-168 | The pop-and-scan loops compute exactly the merge function. |
| ImagePipeline.PadRegionSpec | Services/ImagePipelineService.cs:99-106 | The padded rectangle has x, y ≥ 0, ends inside the image and is at most 2·padding larger than the region. A region inside the image is always padded. One with room all round is grown by exactly the padding. |
| ImagePipeline.Truncate | Services/ImagePipelineService.cs:110-113 | The integer cast truncates toward zero. |
| ImagePipeline.ToRectSpec | Services/ImagePipelineService.cs:108-115 | The integer rectangle is at least 1×1. A non-negative origin is truncated to the pixel containing it, and sizes of at least one pixel are truncated. |
| ImagePipeline.RoutingSpec | Services/ImagePipelineService.cs:34-54 | Each photo region gives one photo. Each other region gives one OCR call on its crop. At most one text is kept per such region, and every kept text is non-blank. Region reads are never whole-image reads. |
| ImagePipeline.PhotoPositions | Services/ImagePipelineService.cs:39 | The indices of the photo regions: all of them, each once, increasing. |
| ImagePipeline.TextPositions | Services/ImagePipelineService.cs:45-52 | The indices of the non-photo regions whose OCR text is not blank: all of them, each once, increasing. |
| ImagePipeline.PhotosInOrder | Services/ImagePipelineService.cs:34-44 | The j-th photo is the crop of the j-th photo region, and there are no other photos. |
| ImagePipeline.TextsInOrder | Services/ImagePipelineService.cs:34-54 | The j-th kept text is the OCR text of the crop of the j-th region whose text is kept, and there are no other texts. |
| ImagePipeline.Route | Services/ImagePipelineService.cs:34-54 | The region loop succeeds exactly when every region can be cropped. It then yields the routed photos, the kept texts and the OCR calls, all in region order. |
| ImagePipeline.ProcessedSpec | Services/ImagePipelineService.cs:56-66 | The whole image is read exactly once when no region produced text, and never otherwise. Every text part is non-blank, and the text is trimmed and empty when there are no parts. |
| ImagePipeline.PhotosOfAllPhotos | Services/ImagePipelineService.cs:34-44 | For photo regions only, the photos are the regions' crops in region order, and no OCR happens on regions. |
| ImagePipeline.CaptureSpec | Services/ImagePipelineService.cs:24-69 | A capture gives one photo per segmented region and reads the whole image exactly once. Its text is the trimmed whole-image text. |
| ImagePipeline.Process | Services/ImagePipelineService.cs:24-69 | The pipeline fails exactly when a region cannot be cropped. Otherwise it returns the processed result and makes exactly the specified OCR calls, in order. |

## Left out

- Floating point: scores, coordinates and tensor values are exact reals. IEEE rounding, the `float` casts and overflow to infinity are not modelled.
- ClipEmbedding.NormalizeInPlace: `Math.Sqrt` is a parameter, and unit length is stated as a sum of squares times norm² (`NormalizedLength`) rather than as a sum equal to 1, because the solver cannot cancel the product norm² against that sum.
- Per-channel pixel normalisation: the mean and deviation arithmetic is stated as written, with the constants as reals.
- ClipTokenizer.ClipTokenizer.Encode: `maxTokens` is a natural number. The exception .NET throws for a negative array size is not modelled; the only caller passes 77.
- Regex pre-tokenisation and UTF-8 encoding: `Encode` and `EncodeText` take the pre-tokens' bytes as given.
- JSON reading of the tokenizer file: the vocabulary and the merge lines are given already read. A missing `merges` or `vocab` property, or a non-string merge entry, are not modelled.
- ClipTokenizer.LoadMerges: the `int` rank counter cannot overflow for any merge list that fits in memory, so ranks are unbounded integers.
- Case-insensitive comparison folds ASCII letters only. .NET's ordinal-ignore-case folding of other letters is not modelled.
- ONNX sessions: a model run is a function parameter returning its outputs. Outputs other than float tensors are one opaque kind.
- ClipEmbedding.ExtractEmbedding: a rank-3 output is required to have a buffer of at least `dims[1]·dims[2]` values (`WellFormed`), which ONNX Runtime guarantees. Rank-2 outputs are returned whole.
- ClipEmbedding.ClipEmbeddingService.EncodeImage: the image model is required to have an input name, which `First()` needs to avoid throwing. The RGB conversion and the resize to 224×224 are WPF calls: the 224×224×3 pixel bytes are the input.
- ImageHash: grey conversion and the resize to 9×8 are WPF calls; the 9×8 grid is the input. `ulong.TryParse` is modelled for hex digit runs with optional surrounding white space only.
- PDF parsing (PdfPig), file existence, modification times and the embedders are parameters. A parser or embedder exception, which would abort ingestion part way, is not modelled.
- PdfLayout.NormalizedRect: page width and height are required to be positive. For an empty page size the code divides by zero and stores infinities or NaN.
- `PdfPageIndex.TextEmbedding` is never set by the indexer and is always absent in the model.
- Saving and loading the store as JSON, and the `Task.Run`/`ConfigureAwait` asynchrony of ingestion and capture, are left out.
- PdfIndex.Snippet: lengths are counted in Unicode characters, while .NET's `Length` and `Substring` count UTF-16 code units. So text with characters outside the Basic Multilingual Plane is cut at a different place, and a surrogate pair can be split in .NET but not here.
- The debug counters and log lines of the search are left out.
- OpenCV: grey conversion, blur, Canny, dilation, contour search, convex hull and minimum-area rectangle are not modelled. Each contour arrives with its area, convexity, hull area, rotated-rectangle area and bounding box.
- ImageSegmentation.ProcessedFrame: the resized height is `height·800 / width` truncated. The rounding of the `double` division before the cast is not modelled, and neither is `int` overflow of the area product.
- The definition of `RegionType` is not part of this model; it is modelled as a photo kind and one other kind.
- ImagePipeline.Process: OCR, together with its OpenCV preprocessing, is a function of what it reads, and a photo is represented by its crop rectangle. OpenCV's check that a crop lies inside the image is not modelled, and neither is `int` overflow in the rectangle cast.
- UI, windows, keyboard and mouse hooks, typing injection, screen capture, PDF rendering and the view models are outside the core.
