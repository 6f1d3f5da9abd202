/**
 * Post-processing around the CLIP text and image encoders (Services/ClipEmbeddingService.cs):
 * feeding the tokenizer's arrays to the text model by input name, laying out image pixels
 * as a channel-first tensor, pooling the model output into one vector and normalising it.
 *
 * The ONNX sessions are function parameters from named inputs to output values;
 * `sqrt` is a parameter as well, and floating-point values are reals.
 */
module ClipEmbedding {
  import opened Wrappers
  import opened Text
  import ClipTokenizer

  const ImageSize: nat := 224
  const MaxTokens: nat := 77
  /** Bytes per row of the resized RGB image. */
  const Stride: nat := 672
  const ChannelSize: nat := 50176

  /** Per-channel mean and standard deviation of the CLIP image preprocessing. */
  const Mean: seq<real> := [0.48145466, 0.4578275, 0.40821073]
  const Std: seq<real> := [0.26862954, 0.26130258, 0.27577711]

  /** One named input tensor of the text model: its name, its data and its shape. */
  datatype NamedTensor = NamedTensor(name: string, data: seq<int>, shape: seq<int>)

  /** One output of a model run: a float tensor (dimensions and row-major buffer) or anything else. */
  datatype OutputValue = FloatTensor(dims: seq<int>, buffer: seq<real>) | OtherValue

  // ---------------------------------------------------------------------------
  // Text model inputs
  // ---------------------------------------------------------------------------

  /** The inputs of the text model: the mask for names mentioning "attention", the ids for the others. */
  function TextInputs(names: seq<string>, ids: seq<int>, mask: seq<int>): (r: seq<NamedTensor>)
    ensures |r| == |names|
  {
    seq(|names|, i requires 0 <= i < |names| =>
      NamedTensor(names[i], if ContainsIgnoreCase(names[i], "attention") then mask else ids, [1, MaxTokens as int]))
  }

  /** Every input keeps its name and has shape [1, 77]; it carries the mask exactly when its name mentions "attention". */
  lemma {:induction false} TextInputsSpec(names: seq<string>, ids: seq<int>, mask: seq<int>, i: nat)
    requires i < |names| && ids != mask
    ensures TextInputs(names, ids, mask)[i].name == names[i]
    ensures TextInputs(names, ids, mask)[i].shape == [1, 77]
    ensures TextInputs(names, ids, mask)[i].data == mask <==> ContainsIgnoreCase(names[i], "attention")
    ensures TextInputs(names, ids, mask)[i].data == ids <==> !ContainsIgnoreCase(names[i], "attention")
  {
  }

  /** Any name with "attention" in it, in any ASCII case and at any position, is fed the mask. */
  lemma {:induction false} AttentionNameSelectsMask(prefix: string, word: string, suffix: string, ids: seq<int>, mask: seq<int>)
    requires EqualsIgnoreCase(word, "attention")
    ensures TextInputs([prefix + word + suffix], ids, mask)[0].data == mask
  {
    var name := prefix + word + suffix;
    assert name[|prefix|..|prefix| + |word|] == word;
    assert MatchesAt(name, "attention", |prefix|);
  }

  /** The input-building loop of `EncodeText`. */
  method BuildTextInputs(names: seq<string>, ids: seq<int>, mask: seq<int>) returns (inputs: seq<NamedTensor>)
    ensures inputs == TextInputs(names, ids, mask)
  {
    inputs := [];
    for k := 0 to |names|
      invariant inputs == TextInputs(names[..k], ids, mask)
    {
      var name := names[k];
      if ContainsIgnoreCase(name, "attention") {
        inputs := inputs + [NamedTensor(name, mask, [1, MaxTokens as int])];
      } else {
        inputs := inputs + [NamedTensor(name, ids, [1, MaxTokens as int])];
      }
    }
    assert names[..|names|] == names;
  }

  // ---------------------------------------------------------------------------
  // Output extraction and mean pooling
  // ---------------------------------------------------------------------------

  /** A sequence position is skipped when a mask is given, covers it, and holds 0 there. */
  predicate Masked(attention: Option<seq<int>>, i: nat)
  {
    attention.Some? && i < |attention.value| && attention.value[i] == 0
  }

  /** The number of positions below `n` that are not masked. */
  function Unmasked(attention: Option<seq<int>>, n: nat): (c: nat)
    ensures c <= n
  {
    if n == 0 then 0 else Unmasked(attention, n - 1) + (if Masked(attention, n - 1) then 0 else 1)
  }

  /** The value of hidden unit `h` at position `i` of a row-major [_, seqLen, hidden] buffer (0 past its end). */
  function Cell(buffer: seq<real>, hidden: nat, i: nat, h: nat): real
  {
    if i * hidden + h < |buffer| then buffer[i * hidden + h] else 0.0
  }

  /** Row `i` of a buffer holding `seqLen` rows lies inside it. */
  lemma {:induction false} RowInBounds(i: nat, h: nat, seqLen: nat, hidden: nat)
    requires i < seqLen && h < hidden
    ensures i * hidden + h < seqLen * hidden
  {
    MulMonotone(i + 1, seqLen, hidden);
    assert (i + 1) * hidden == i * hidden + hidden;
  }

  lemma {:induction false} MulMonotone(a: nat, b: nat, c: nat)
    requires a <= b
    ensures a * c <= b * c
    decreases b - a
  {
    if a < b {
      MulMonotone(a + 1, b, c);
      assert (a + 1) * c == a * c + c;
    }
  }

  /** Column `h` of the `n` first rows, summed over the positions that are not masked. */
  function ColumnSum(buffer: seq<real>, hidden: nat, attention: Option<seq<int>>, n: nat, h: nat): real
  {
    if n == 0 then 0.0
    else ColumnSum(buffer, hidden, attention, n - 1, h) + (if Masked(attention, n - 1) then 0.0 else Cell(buffer, hidden, n - 1, h))
  }

  lemma {:induction false} ColumnSumAllMasked(buffer: seq<real>, hidden: nat, attention: Option<seq<int>>, n: nat, h: nat)
    requires Unmasked(attention, n) == 0
    ensures ColumnSum(buffer, hidden, attention, n, h) == 0.0
  {
    if n > 0 {
      ColumnSumAllMasked(buffer, hidden, attention, n - 1, h);
    }
  }

  /** Mean over the unmasked positions of each hidden unit; all zeros when every position is masked. */
  function Pooled(buffer: seq<real>, seqLen: nat, hidden: nat, attention: Option<seq<int>>): (r: seq<real>)
    ensures |r| == hidden
  {
    var count := Unmasked(attention, seqLen);
    seq(hidden, h requires 0 <= h < hidden =>
      if count > 0 then ColumnSum(buffer, hidden, attention, seqLen, h) / count as real else 0.0)
  }

  /** The output tensors the source can read: rank-3 ones hold at least `seqLen * hidden` values. */
  predicate WellFormed(v: OutputValue)
  {
    v.FloatTensor? && |v.dims| == 3 ==>
      v.dims[1] >= 0 && v.dims[2] >= 0 && v.dims[1] * v.dims[2] <= |v.buffer|
  }

  /** A float tensor of rank 2 or 3. */
  predicate Qualifies(v: OutputValue)
  {
    v.FloatTensor? && (|v.dims| == 2 || |v.dims| == 3)
  }

  /** `ExtractEmbedding`: the first qualifying output, rank 2 as is and rank 3 mean-pooled; empty when none qualifies. */
  function Extracted(results: seq<OutputValue>, attention: Option<seq<int>>): seq<real>
    requires forall k :: 0 <= k < |results| ==> WellFormed(results[k])
  {
    if results == [] then []
    else if Qualifies(results[0]) then
      var t := results[0];
      assert WellFormed(t);
      if |t.dims| == 2 then t.buffer else Pooled(t.buffer, t.dims[1], t.dims[2], attention)
    else Extracted(results[1..], attention)
  }

  /** The inner loop of the pooling: adds row `i` to the running sums. */
  method AddRow(output: array<real>, buffer: seq<real>, seqLen: nat, hidden: nat, i: nat)
    requires output.Length == hidden && i < seqLen && seqLen * hidden <= |buffer|
    modifies output
    ensures forall k :: 0 <= k < hidden ==> output[k] == old(output[k]) + Cell(buffer, hidden, i, k)
  {
    var baseIndex := i * hidden;
    for h := 0 to hidden
      invariant forall k :: 0 <= k < h ==> output[k] == old(output[k]) + Cell(buffer, hidden, i, k)
      invariant forall k :: h <= k < hidden ==> output[k] == old(output[k])
    {
      RowInBounds(i, h, seqLen, hidden);
      output[h] := output[h] + buffer[baseIndex + h];
    }
  }

  /** The pooling loop of `ExtractEmbedding`. */
  method MeanPool(buffer: seq<real>, seqLen: nat, hidden: nat, attention: Option<seq<int>>) returns (output: array<real>)
    requires seqLen * hidden <= |buffer|
    ensures fresh(output)
    ensures output[..] == Pooled(buffer, seqLen, hidden, attention)
  {
    output := new real[hidden](_ => 0.0);
    var count := 0;
    for i := 0 to seqLen
      invariant output.Length == hidden
      invariant count == Unmasked(attention, i)
      invariant forall h :: 0 <= h < hidden ==> output[h] == ColumnSum(buffer, hidden, attention, i, h)
    {
      if Masked(attention, i) {
        continue;
      }
      AddRow(output, buffer, seqLen, hidden, i);
      count := count + 1;
    }
    if count == 0 {
      forall h | 0 <= h < hidden
        ensures ColumnSum(buffer, hidden, attention, seqLen, h) == 0.0
      {
        ColumnSumAllMasked(buffer, hidden, attention, seqLen, h);
      }
    }
    if count > 0 {
      for h := 0 to hidden
        invariant forall k :: 0 <= k < h ==> output[k] == ColumnSum(buffer, hidden, attention, seqLen, k) / count as real
        invariant forall k :: h <= k < hidden ==> output[k] == ColumnSum(buffer, hidden, attention, seqLen, k)
      {
        output[h] := output[h] / count as real;
      }
    }
    assert forall h :: 0 <= h < hidden ==> output[..][h] == Pooled(buffer, seqLen, hidden, attention)[h];
  }

  /** `ExtractEmbedding`: outputs that are not float tensors of rank 2 or 3 are passed over. */
  method ExtractEmbedding(results: seq<OutputValue>, attention: Option<seq<int>>) returns (output: array<real>)
    requires forall k :: 0 <= k < |results| ==> WellFormed(results[k])
    ensures fresh(output)
    ensures output[..] == Extracted(results, attention)
  {
    for k := 0 to |results|
      invariant Extracted(results, attention) == Extracted(results[k..], attention)
    {
      assert results[k..][1..] == results[k + 1..];
      var item := results[k];
      if item.FloatTensor? {
        if |item.dims| == 2 {
          output := new real[|item.buffer|](i requires 0 <= i < |item.buffer| => item.buffer[i]);
          return;
        }
        if |item.dims| == 3 {
          assert WellFormed(item);
          output := MeanPool(item.buffer, item.dims[1], item.dims[2], attention);
          return;
        }
      }
    }
    output := new real[0];
  }

  /** The buffers agree on every hidden unit of every unmasked position below `n`. */
  ghost predicate AgreeUnmasked(b1: seq<real>, b2: seq<real>, hidden: nat, attention: Option<seq<int>>, n: nat)
  {
    forall i: nat, k: nat :: i < n && k < hidden && !Masked(attention, i) ==> Cell(b1, hidden, i, k) == Cell(b2, hidden, i, k)
  }

  lemma {:induction false} ColumnSumIgnoresMasked(b1: seq<real>, b2: seq<real>, hidden: nat, attention: Option<seq<int>>, n: nat, h: nat)
    requires h < hidden && AgreeUnmasked(b1, b2, hidden, attention, n)
    ensures ColumnSum(b1, hidden, attention, n, h) == ColumnSum(b2, hidden, attention, n, h)
    decreases n
  {
    if n > 0 {
      ColumnSumIgnoresMasked(b1, b2, hidden, attention, n - 1, h);
    }
  }

  /**
   * Pooling is a masked mean: tensors that agree on the unmasked positions pool alike,
   * and a fully masked sequence pools to zeros.
   */
  lemma {:induction false} PooledSpec(b1: seq<real>, b2: seq<real>, seqLen: nat, hidden: nat, attention: Option<seq<int>>)
    requires AgreeUnmasked(b1, b2, hidden, attention, seqLen)
    ensures Pooled(b1, seqLen, hidden, attention) == Pooled(b2, seqLen, hidden, attention)
    ensures Unmasked(attention, seqLen) == 0 ==> forall h :: 0 <= h < hidden ==> Pooled(b1, seqLen, hidden, attention)[h] == 0.0
  {
    forall h | 0 <= h < hidden
      ensures ColumnSum(b1, hidden, attention, seqLen, h) == ColumnSum(b2, hidden, attention, seqLen, h)
    {
      ColumnSumIgnoresMasked(b1, b2, hidden, attention, seqLen, h);
    }
  }

  /** Without a mask (the image path) every position counts. */
  lemma {:induction false} UnmaskedWithoutMask(n: nat)
    ensures Unmasked(None, n) == n
  {
    if n > 0 {
      UnmaskedWithoutMask(n - 1);
    }
  }

  /** The first qualifying output decides; the outputs after it are never looked at. */
  lemma {:induction false} ExtractedSpec(results: seq<OutputValue>, attention: Option<seq<int>>, k: nat)
    requires forall j :: 0 <= j < |results| ==> WellFormed(results[j])
    requires k < |results| && Qualifies(results[k]) && forall j :: 0 <= j < k ==> !Qualifies(results[j])
    ensures Extracted(results, attention) == Extracted([results[k]], attention)
    decreases k
  {
    if k > 0 {
      ExtractedSpec(results[1..], attention, k - 1);
    }
  }

  /** Without a qualifying output the embedding is empty. */
  lemma {:induction false} ExtractedNone(results: seq<OutputValue>, attention: Option<seq<int>>)
    requires forall j :: 0 <= j < |results| ==> WellFormed(results[j]) && !Qualifies(results[j])
    ensures Extracted(results, attention) == []
    decreases |results|
  {
    if results != [] {
      ExtractedNone(results[1..], attention);
    }
  }

  // ---------------------------------------------------------------------------
  // Normalisation
  // ---------------------------------------------------------------------------

  function SumSq(v: seq<real>): (r: real)
    ensures r >= 0.0
  {
    if v == [] then 0.0 else SumSq(v[..|v| - 1]) + v[|v| - 1] * v[|v| - 1]
  }

  /** Every component divided by `norm`. */
  function Scale(v: seq<real>, norm: real): (r: seq<real>)
    requires norm > 0.0
    ensures |r| == |v|
    ensures forall i :: 0 <= i < |v| ==> r[i] * norm == v[i]
  {
    seq(|v|, i requires 0 <= i < |v| => v[i] / norm)
  }

  /** The vector divided by `norm`; empty vectors and non-positive norms leave it as it is. */
  function Normalized(v: seq<real>, norm: real): (r: seq<real>)
    ensures |r| == |v|
  {
    if |v| == 0 || norm <= 0.0 then v else Scale(v, norm)
  }

  /** `NormalizeInPlace` with the square root as a parameter. */
  method NormalizeInPlace(vector: array<real>, sqrt: real -> real)
    modifies vector
    ensures vector[..] == Normalized(old(vector[..]), sqrt(SumSq(old(vector[..]))))
  {
    if vector.Length == 0 {
      return;
    }
    var sum := 0.0;
    for i := 0 to vector.Length
      invariant sum == SumSq(vector[..i])
    {
      assert vector[..i + 1][..i] == vector[..i];
      sum := sum + vector[i] * vector[i];
    }
    assert vector[..vector.Length] == vector[..];
    var norm := sqrt(sum);
    if norm <= 0.0 {
      return;
    }
    ghost var original := vector[..];
    for i := 0 to vector.Length
      invariant forall k :: 0 <= k < i ==> vector[k] == original[k] / norm
      invariant forall k :: i <= k < vector.Length ==> vector[k] == original[k]
    {
      vector[i] := vector[i] / norm;
    }
  }

  /** Scaling by `1 / norm` scales the sum of squares by `1 / norm²`. */
  lemma {:induction false} SumSqScaled(v: seq<real>, norm: real)
    requires norm > 0.0
    ensures SumSq(Scale(v, norm)) * (norm * norm) == SumSq(v)
    decreases |v|
  {
    if v != [] {
      var w := Scale(v, norm);
      var init := v[..|v| - 1];
      SumSqScaled(init, norm);
      ScaleLast(v, norm);
      var q := w[|w| - 1];
      var x := v[|v| - 1];
      SquareScale(q, norm, x);
      ScaledSum(SumSq(w), SumSq(Scale(init, norm)), q * q, norm * norm, SumSq(init), x * x);
    }
  }

  /** Scaling commutes with dropping the last component. */
  lemma {:induction false} ScaleLast(v: seq<real>, norm: real)
    requires v != [] && norm > 0.0
    ensures Scale(v, norm)[..|v| - 1] == Scale(v[..|v| - 1], norm)
    ensures Scale(v, norm)[|v| - 1] * norm == v[|v| - 1]
  {
  }

  lemma {:induction false} SquareScale(q: real, norm: real, x: real)
    requires q * norm == x
    ensures q * q * (norm * norm) == x * x
  {
    assert q * q * (norm * norm) == (q * norm) * (q * norm);
  }

  lemma {:induction false} ScaledSum(s: real, a: real, b: real, m: real, sa: real, sb: real)
    requires s == a + b && a * m == sa && b * m == sb
    ensures s * m == sa + sb
  {
    assert (a + b) * m == a * m + b * m;
  }

  /**
   * Normalising by a positive norm divides every component by it; an empty vector or a
   * non-positive norm leaves the vector as it is.
   */
  lemma {:induction false} NormalizedSpec(v: seq<real>, norm: real)
    ensures v != [] && norm > 0.0 ==> forall i :: 0 <= i < |v| ==> Normalized(v, norm)[i] * norm == v[i]
    ensures v == [] || norm <= 0.0 ==> Normalized(v, norm) == v
  {
  }

  /**
   * Normalising by a positive norm scales the sum of squares by `1 / norm²`: with the
   * square root of the sum of squares as norm, a nonzero vector comes out with unit length.
   */
  lemma {:induction false} NormalizedLength(v: seq<real>, norm: real)
    requires v != [] && norm > 0.0
    ensures SumSq(Normalized(v, norm)) * (norm * norm) == SumSq(v)
  {
    SumSqScaled(v, norm);
  }

  // ---------------------------------------------------------------------------
  // Image tensor layout
  // ---------------------------------------------------------------------------

  /** Where channel `c` of pixel (x, y) goes in the channel-first tensor. */
  function TensorIndex(c: nat, y: nat, x: nat): nat
  {
    c * ChannelSize + y * ImageSize + x
  }

  /** Where channel `c` of pixel (x, y) is read in the row-major RGB buffer. */
  function PixelIndex(c: nat, y: nat, x: nat): nat
  {
    y * Stride + 3 * x + c
  }

  /** The normalised value of one channel byte. */
  function ChannelValue(b: byte, c: nat): real
    requires c < 3
  {
    (b as real / 255.0 - Mean[c]) / Std[c]
  }

  /** Both index maps send distinct (channel, row, column) triples to distinct indices below 3·224·224. */
  lemma {:induction false} LayoutInjective(c: nat, y: nat, x: nat, c': nat, y': nat, x': nat)
    requires c < 3 && y < ImageSize && x < ImageSize && c' < 3 && y' < ImageSize && x' < ImageSize
    ensures TensorIndex(c, y, x) < 3 * ChannelSize && PixelIndex(c, y, x) < 3 * ChannelSize
    ensures TensorIndex(c, y, x) == TensorIndex(c', y', x') ==> c == c' && y == y' && x == x'
    ensures PixelIndex(c, y, x) == PixelIndex(c', y', x') ==> c == c' && y == y' && x == x'
  {
  }

  /** Every tensor index and every pixel byte index below 3·224·224 is reached: each byte is read exactly once. */
  lemma {:induction false} LayoutOnto(k: nat)
    requires k < 3 * ChannelSize
    ensures var r := k % ChannelSize;
      k / ChannelSize < 3 && r / ImageSize < ImageSize && TensorIndex(k / ChannelSize, r / ImageSize, r % ImageSize) == k
    ensures var r := k % Stride;
      k / Stride < ImageSize && r / 3 < ImageSize && PixelIndex(r % 3, k / Stride, r / 3) == k
  {
    var r := k % ChannelSize;
    assert k == k / ChannelSize * ChannelSize + r;
    assert r == r / ImageSize * ImageSize + r % ImageSize;
    var s := k % Stride;
    assert k == k / Stride * Stride + s;
    assert s == s / 3 * 3 + s % 3;
  }

  /** `BuildImageTensor` after the resize: the 224×224 RGB bytes become a normalised channel-first tensor. */
  method BuildImageTensor(pixels: seq<byte>) returns (data: array<real>)
    requires |pixels| == 3 * ChannelSize
    ensures fresh(data) && data.Length == 3 * ChannelSize
    ensures forall c: nat, y: nat, x: nat :: c < 3 && y < ImageSize && x < ImageSize ==>
              data[TensorIndex(c, y, x)] == ChannelValue(pixels[PixelIndex(c, y, x)], c)
  {
    data := new real[3 * ChannelSize];
    var offsetR := 0;
    var offsetG := ChannelSize;
    var offsetB := 2 * ChannelSize;
    for y := 0 to ImageSize
      invariant forall c: nat, y': nat, x: nat :: c < 3 && y' < y && x < ImageSize ==>
                  data[TensorIndex(c, y', x)] == ChannelValue(pixels[PixelIndex(c, y', x)], c)
    {
      var row := y * Stride;
      for x := 0 to ImageSize
        invariant forall c: nat, y': nat, x': nat :: c < 3 && y' < y && x' < ImageSize ==>
                    data[TensorIndex(c, y', x')] == ChannelValue(pixels[PixelIndex(c, y', x')], c)
        invariant forall c: nat, x': nat :: c < 3 && x' < x ==>
                    data[TensorIndex(c, y, x')] == ChannelValue(pixels[PixelIndex(c, y, x')], c)
      {
        var idx := row + x * 3;
        var pix := y * ImageSize + x;
        data[offsetR + pix] := ChannelValue(pixels[idx], 0);
        data[offsetG + pix] := ChannelValue(pixels[idx + 1], 1);
        data[offsetB + pix] := ChannelValue(pixels[idx + 2], 2);
      }
    }
  }

  // ---------------------------------------------------------------------------
  // The service
  // ---------------------------------------------------------------------------

  class ClipEmbeddingService {
    const tokenizer: ClipTokenizer.ClipTokenizer
    /** The text model's input names, in metadata order. */
    const textInputNames: seq<string>
    /** The image model's input names, in metadata order. */
    const imageInputNames: seq<string>

    constructor (tok: ClipTokenizer.ClipTokenizer, textNames: seq<string>, imageNames: seq<string>)
      ensures tokenizer == tok && textInputNames == textNames && imageInputNames == imageNames
    {
      tokenizer := tok;
      textInputNames := textNames;
      imageInputNames := imageNames;
    }

    /**
     * `EncodeText`: blank text gives the empty vector and the model is not run (`fed` is
     * then `None`); otherwise the tokenizer's arrays are fed by input name, the output is
     * pooled over the attended positions and normalised.
     */
    method EncodeText(text: string, preTokens: seq<seq<byte>>, run: seq<NamedTensor> -> seq<OutputValue>, sqrt: real -> real)
      returns (embedding: array<real>, ghost fed: Option<seq<NamedTensor>>)
      requires tokenizer.Valid()
      requires forall inputs: seq<NamedTensor>, k :: 0 <= k < |run(inputs)| ==> WellFormed(run(inputs)[k])
      modifies tokenizer`cache
      ensures tokenizer.Valid()
      ensures IsBlank(text) ==> embedding.Length == 0 && fed.None?
      ensures !IsBlank(text) ==> fed.Some? && |fed.value| == |textInputNames|
      ensures !IsBlank(text) ==>
        var tokens := ClipTokenizer.TokenStream(preTokens, tokenizer.bpeRanks);
        var full := ClipTokenizer.Framed(ClipTokenizer.KnownIds(tokens, tokenizer.vocab), tokenizer.startId, tokenizer.endId);
        var mask := ClipTokenizer.AttentionMask(full, MaxTokens);
        && fed.value == TextInputs(textInputNames, ClipTokenizer.PadIds(full, MaxTokens), mask)
        && var pooled := Extracted(run(fed.value), Some(mask));
           embedding[..] == Normalized(pooled, sqrt(SumSq(pooled)))
    {
      if IsBlank(text) {
        embedding := new real[0];
        fed := None;
        return;
      }
      var inputIds, attention := tokenizer.Encode(preTokens, MaxTokens);
      var inputs := BuildTextInputs(textInputNames, inputIds[..], attention[..]);
      fed := Some(inputs);
      var results := run(inputs);
      embedding := ExtractEmbedding(results, Some(attention[..]));
      NormalizeInPlace(embedding, sqrt);
    }

    /** `EncodeImage` on the resized RGB bytes: the tensor goes to the first input, the output is normalised. */
    method EncodeImage(pixels: seq<byte>, run: seq<(string, seq<real>)> -> seq<OutputValue>, sqrt: real -> real)
      returns (embedding: array<real>)
      requires |pixels| == 3 * ChannelSize
      requires imageInputNames != []
      requires forall inputs: seq<(string, seq<real>)>, k :: 0 <= k < |run(inputs)| ==> WellFormed(run(inputs)[k])
      ensures fresh(embedding)
      ensures exists tensor: seq<real> ::
        && |tensor| == 3 * ChannelSize
        && (forall c: nat, y: nat, x: nat :: c < 3 && y < ImageSize && x < ImageSize ==>
              tensor[TensorIndex(c, y, x)] == ChannelValue(pixels[PixelIndex(c, y, x)], c))
        && var out := Extracted(run([(imageInputNames[0], tensor)]), None);
           embedding[..] == Normalized(out, sqrt(SumSq(out)))
    {
      var input := BuildImageTensor(pixels);
      var inputName := imageInputNames[0];
      var results := run([(inputName, input[..])]);
      embedding := ExtractEmbedding(results, None);
      NormalizeInPlace(embedding, sqrt);
    }
  }
}
