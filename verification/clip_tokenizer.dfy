/**
 * The CLIP byte-pair-encoding tokenizer (Services/ClipTokenizer.cs).
 *
 * Text is split into pre-tokens by a regular expression, each pre-token's UTF-8 bytes
 * are mapped to printable characters by the byte encoder, the characters are merged
 * by byte-pair encoding using the ranked merge list, and the resulting pieces are
 * looked up in the vocabulary and packed into fixed-length id and attention arrays.
 *
 * The regular expression and the UTF-8 encoding are not part of this model: `Encode`
 * receives the UTF-8 bytes of the pre-tokens, in order.
 */
module ClipTokenizer {
  import opened Wrappers
  import opened Text
  import opened Linq

  /** `int.MaxValue`, the initial "no merge yet" rank. */
  const IntMax: int := 0x7FFF_FFFF

  const StartToken: string := "<|startoftext|>"
  const EndToken: string := "<|endoftext|>"

  // ---------------------------------------------------------------------------
  // Byte encoder
  // ---------------------------------------------------------------------------

  /** The bytes the byte encoder maps to the character with the same code. */
  predicate IsPrintable(b: int)
  {
    33 <= b <= 126 || 161 <= b <= 172 || 174 <= b <= 255
  }

  /** How many of the bytes `0 .. b - 1` are not printable. */
  function NonPrintableBelow(b: int): (n: nat)
    requires 0 <= b <= 256
    ensures n <= b && n <= 68
  {
    if b <= 33 then b
    else if b <= 127 then 33
    else if b <= 161 then 33 + (b - 127)
    else if b <= 173 then 67
    else if b <= 174 then 67 + (b - 173)
    else 68
  }

  /** The character code the byte encoder gives `b`: itself when printable, else 256 + its rank among the others. */
  function ByteCharCode(b: int): (c: int)
    requires 0 <= b < 256
    ensures 0 <= c < 324
  {
    if IsPrintable(b) then b else 256 + NonPrintableBelow(b)
  }

  function ByteChar(b: byte): char
  {
    ByteCharCode(b as int) as char
  }

  /**
   * `BuildByteEncoder`: the printable ranges first, then every remaining byte in
   * increasing order, paired with the codes 256, 257, ...
   */
  method BuildByteEncoder() returns (m: map<byte, char>)
    ensures forall b: byte :: b in m && m[b] == ByteChar(b)
  {
    var bytes: seq<int> := [];
    for i := 33 to 127
      invariant forall x :: x in bytes <==> 33 <= x < i
      invariant forall k :: 0 <= k < |bytes| ==> IsPrintable(bytes[k])
    {
      bytes := bytes + [i];
    }
    for i := 161 to 173
      invariant forall x :: x in bytes <==> 33 <= x <= 126 || 161 <= x < i
      invariant forall k :: 0 <= k < |bytes| ==> IsPrintable(bytes[k])
    {
      bytes := bytes + [i];
    }
    for i := 174 to 256
      invariant forall x :: x in bytes <==> 33 <= x <= 126 || 161 <= x <= 172 || 174 <= x < i
      invariant forall k :: 0 <= k < |bytes| ==> IsPrintable(bytes[k])
    {
      bytes := bytes + [i];
    }
    var chars := bytes;
    var n := 0;
    for b := 0 to 256
      invariant |bytes| == |chars|
      invariant forall k :: 0 <= k < |bytes| ==> 0 <= bytes[k] < 256 && chars[k] == ByteCharCode(bytes[k])
      invariant forall x :: x in bytes <==> 0 <= x < 256 && (IsPrintable(x) || x < b)
      invariant n == NonPrintableBelow(b)
    {
      if b !in bytes {
        bytes := bytes + [b];
        chars := chars + [256 + n];
        n := n + 1;
      }
    }
    m := map[];
    for i := 0 to |bytes|
      invariant forall x: byte :: x in m ==> m[x] == ByteChar(x)
      invariant forall k :: 0 <= k < i ==> bytes[k] as byte in m
    {
      m := m[bytes[i] as byte := chars[i] as char];
    }
    forall x: byte
      ensures x in m
    {
      assert x as int in bytes;
      var k :| 0 <= k < |bytes| && bytes[k] == x as int;
    }
  }

  /**
   * The byte encoder is a bijection onto its image: printable bytes keep their code,
   * the others go, in increasing order, to the codes 256 .. 323.
   */
  lemma {:induction false} ByteEncoderLayout(b1: byte, b2: byte)
    ensures IsPrintable(b1 as int) ==> ByteChar(b1) as int == b1 as int
    ensures !IsPrintable(b1 as int) ==> 256 <= ByteChar(b1) as int <= 323
    ensures !IsPrintable(b1 as int) && !IsPrintable(b2 as int) && b1 < b2 ==> ByteChar(b1) < ByteChar(b2)
    ensures b1 != b2 ==> ByteChar(b1) != ByteChar(b2)
  {
  }

  /** Encoded text contains neither a space (so pieces survive `Split(' ')`) nor the pair-key separator. */
  lemma {:induction false} ByteCharAvoidsSeparators(b: byte)
    ensures ByteChar(b) != ' ' && ByteChar(b) != '\U{1}'
  {
  }

  /** `EncodeBytes`: each byte replaced by its encoder character. */
  function EncodedChars(bytes: seq<byte>): (s: string)
    ensures |s| == |bytes|
    ensures forall i :: 0 <= i < |bytes| ==> s[i] == ByteChar(bytes[i])
  {
    seq(|bytes|, i requires 0 <= i < |bytes| => ByteChar(bytes[i]))
  }

  // ---------------------------------------------------------------------------
  // Merge ranks
  // ---------------------------------------------------------------------------

  /** `PairKey`: the two symbols joined by U+0001. */
  function PairKey(a: string, b: string): string
  {
    a + "\U{1}" + b
  }

  /** The position of the first `ch` in `s`, or `|s|`. */
  function IndexOf(s: string, ch: char): (i: nat)
    ensures i <= |s|
  {
    if s == [] || s[0] == ch then 0 else 1 + IndexOf(s[1..], ch)
  }

  lemma {:induction false} IndexOfSeparator(a: string, b: string)
    requires '\U{1}' !in a
    ensures IndexOf(PairKey(a, b), '\U{1}') == |a|
    decreases |a|
  {
    if a != [] {
      assert PairKey(a, b)[1..] == PairKey(a[1..], b);
      IndexOfSeparator(a[1..], b);
    }
  }

  /** Keys of symbols free of U+0001 identify the pair. */
  lemma {:induction false} PairKeyInjective(a: string, b: string, c: string, d: string)
    requires '\U{1}' !in a && '\U{1}' !in c
    requires PairKey(a, b) == PairKey(c, d)
    ensures a == c && b == d
  {
    var k := PairKey(a, b);
    IndexOfSeparator(a, b);
    IndexOfSeparator(c, d);
    assert a == k[..|a|] && c == k[..|c|];
    assert b == k[|a| + 1..] && d == k[|c| + 1..];
  }

  /** The key a line of the merge list contributes, if it is well formed (two fields separated by spaces). */
  function MergeKey(line: Option<string>): (r: Option<string>)
    ensures r.Some? ==>
              && line.Some? && !IsBlank(line.value)
              && |SplitRemoveEmpty(line.value, ' ')| == 2
              && r.value == PairKey(SplitRemoveEmpty(line.value, ' ')[0], SplitRemoveEmpty(line.value, ' ')[1])
    ensures r.None? ==> line.None? || IsBlank(line.value) || |SplitRemoveEmpty(line.value, ' ')| != 2
  {
    if line.None? || IsBlank(line.value) then None
    else
      var parts := SplitRemoveEmpty(line.value, ' ');
      if |parts| != 2 then None else Some(PairKey(parts[0], parts[1]))
  }

  /** The keys of the well-formed lines, in file order. */
  function MergeKeys(lines: seq<Option<string>>): (keys: seq<string>)
    ensures |keys| <= |lines|
  {
    if lines == [] then []
    else
      var last := MergeKey(lines[|lines| - 1]);
      MergeKeys(lines[..|lines| - 1]) + (if last.Some? then [last.value] else [])
  }

  /** The rank of each key: its position among the well-formed lines, the last one winning. */
  function RankMap(keys: seq<string>): (ranks: map<string, int>)
  {
    if keys == [] then map[]
    else RankMap(keys[..|keys| - 1])[keys[|keys| - 1] := |keys| - 1]
  }

  /**
   * A key has a rank exactly when some well-formed line gives it; its rank is the
   * position of the last such line, so distinct keys have distinct ranks.
   */
  lemma {:induction false} RankMapSpec(keys: seq<string>, key: string)
    ensures key in RankMap(keys) <==> key in keys
    ensures key in RankMap(keys) ==>
      var r := RankMap(keys)[key];
      0 <= r < |keys| && keys[r] == key && forall j :: r < j < |keys| ==> keys[j] != key
    decreases |keys|
  {
    if keys != [] {
      var init := keys[..|keys| - 1];
      RankMapSpec(init, key);
      assert keys == init + [keys[|keys| - 1]];
    }
  }

  /** `LoadTokenizer`'s merge loop: blank and malformed lines are skipped and do not use up a rank. */
  method LoadMerges(lines: seq<Option<string>>) returns (ranks: map<string, int>)
    ensures ranks == RankMap(MergeKeys(lines))
  {
    ranks := map[];
    var rank := 0;
    for i := 0 to |lines|
      invariant ranks == RankMap(MergeKeys(lines[..i]))
      invariant rank == |MergeKeys(lines[..i])|
    {
      assert lines[..i + 1][..i] == lines[..i];
      assert MergeKeys(lines[..i + 1]) == MergeKeys(lines[..i]) + (if MergeKey(lines[i]).Some? then [MergeKey(lines[i]).value] else []);
      var line := lines[i];
      if line.None? || IsBlank(line.value) {
        assert MergeKey(line).None?;
        assert MergeKeys(lines[..i + 1]) == MergeKeys(lines[..i]);
        continue;
      }
      var parts := SplitRemoveEmpty(line.value, ' ');
      if |parts| != 2 {
        assert MergeKey(line).None?;
        assert MergeKeys(lines[..i + 1]) == MergeKeys(lines[..i]);
        continue;
      }
      ghost var keys := MergeKeys(lines[..i]);
      ghost var key := PairKey(parts[0], parts[1]);
      assert MergeKey(line) == Some(key);
      assert (keys + [key])[..|keys|] == keys;
      assert RankMap(keys + [key]) == RankMap(keys)[key := |keys|];
      ranks := ranks[PairKey(parts[0], parts[1]) := rank];
      rank := rank + 1;
    }
    assert lines[..|lines|] == lines;
  }

  // ---------------------------------------------------------------------------
  // Byte-pair encoding
  // ---------------------------------------------------------------------------

  /** The symbols of a token before any merge: one per character. */
  function Chars(token: string): (w: seq<string>)
    ensures |w| == |token|
    ensures forall i :: 0 <= i < |token| ==> w[i] == [token[i]]
  {
    seq(|token|, i requires 0 <= i < |token| => [token[i]])
  }

  /** The text a sequence of symbols spells. */
  function Concat(w: seq<string>): string
  {
    if w == [] then [] else w[0] + Concat(w[1..])
  }

  /** The adjacent pair at `i` has a rank the merge loop can choose (below the `int.MaxValue` sentinel). */
  predicate Candidate(w: seq<string>, ranks: map<string, int>, i: int)
  {
    0 <= i < |w| - 1 && PairKey(w[i], w[i + 1]) in ranks && ranks[PairKey(w[i], w[i + 1])] < IntMax
  }

  function RankAt(w: seq<string>, ranks: map<string, int>, i: int): int
    requires Candidate(w, ranks, i)
  {
    ranks[PairKey(w[i], w[i + 1])]
  }

  /** The leftmost candidate of lowest rank at or after `i`, if any. */
  function BestFrom(w: seq<string>, ranks: map<string, int>, i: nat): (r: Option<nat>)
    ensures r.Some? ==> i <= r.value && Candidate(w, ranks, r.value)
    ensures r.Some? ==> forall j :: i <= j && Candidate(w, ranks, j) ==> RankAt(w, ranks, r.value) <= RankAt(w, ranks, j)
    ensures r.Some? ==> forall j :: i <= j < r.value && Candidate(w, ranks, j) ==> RankAt(w, ranks, r.value) < RankAt(w, ranks, j)
    ensures r.None? ==> forall j :: i <= j ==> !Candidate(w, ranks, j)
    decreases |w| - i
  {
    if i + 1 >= |w| then None
    else
      var rest := BestFrom(w, ranks, i + 1);
      if Candidate(w, ranks, i) && (rest.None? || RankAt(w, ranks, i) <= RankAt(w, ranks, rest.value)) then Some(i)
      else rest
  }

  /** The pair the merge loop picks: the lowest rank, the leftmost on a tie. */
  function FindBest(w: seq<string>, ranks: map<string, int>): Option<nat>
  {
    BestFrom(w, ranks, 0)
  }

  /** `i` is the leftmost candidate of lowest rank. */
  ghost predicate IsBest(w: seq<string>, ranks: map<string, int>, i: nat)
  {
    Candidate(w, ranks, i)
    && (forall j :: Candidate(w, ranks, j) ==> RankAt(w, ranks, i) <= RankAt(w, ranks, j))
    && (forall j :: 0 <= j < i && Candidate(w, ranks, j) ==> RankAt(w, ranks, i) < RankAt(w, ranks, j))
  }

  /** `FindBest` returns exactly the leftmost lowest-rank candidate, and nothing only when there is none. */
  lemma {:induction false} FindBestSpec(w: seq<string>, ranks: map<string, int>, i: nat)
    ensures FindBest(w, ranks) == Some(i) <==> IsBest(w, ranks, i)
    ensures FindBest(w, ranks).None? <==> forall j :: !Candidate(w, ranks, j)
  {
  }

  /** Every occurrence of `a` followed by `b`, left to right and without overlap, becomes `a + b`. */
  function MergePair(w: seq<string>, a: string, b: string): (r: seq<string>)
    ensures |r| <= |w|
  {
    if |w| >= 2 && w[0] == a && w[1] == b then [a + b] + MergePair(w[2..], a, b)
    else if w == [] then []
    else [w[0]] + MergePair(w[1..], a, b)
  }

  lemma {:induction false} MergePairShrinks(w: seq<string>, a: string, b: string, i: nat)
    requires i + 1 < |w| && w[i] == a && w[i + 1] == b
    ensures |MergePair(w, a, b)| < |w|
    decreases |w|
  {
    if !(w[0] == a && w[1] == b) {
      MergePairShrinks(w[1..], a, b, i - 1);
    }
  }

  /** Merging never changes the text the symbols spell. */
  lemma {:induction false} MergePairSpells(w: seq<string>, a: string, b: string)
    ensures Concat(MergePair(w, a, b)) == Concat(w)
    decreases |w|
  {
    if |w| >= 2 && w[0] == a && w[1] == b {
      MergePairSpells(w[2..], a, b);
      assert ([a + b] + MergePair(w[2..], a, b))[1..] == MergePair(w[2..], a, b);
      assert w[1..][1..] == w[2..];
    } else if w != [] {
      MergePairSpells(w[1..], a, b);
      assert ([w[0]] + MergePair(w[1..], a, b))[1..] == MergePair(w[1..], a, b);
    }
  }

  /** After a merge pass no `a` is left directly followed by `b`. */
  lemma {:induction false} MergePairExhaustive(w: seq<string>, a: string, b: string, k: nat)
    requires a != [] && b != []
    requires k + 1 < |MergePair(w, a, b)|
    ensures !(MergePair(w, a, b)[k] == a && MergePair(w, a, b)[k + 1] == b)
    decreases |w|
  {
    var r := MergePair(w, a, b);
    if |w| >= 2 && w[0] == a && w[1] == b {
      if k == 0 {
        assert |r[0]| == |a| + |b|;
      } else {
        MergePairExhaustive(w[2..], a, b, k - 1);
      }
    } else {
      var rest := MergePair(w[1..], a, b);
      if k == 0 {
        if |w[1..]| >= 2 && w[1] == a && w[2] == b {
          assert rest[0] == a + b;
          assert |rest[0]| == |a| + |b|;
        } else {
          assert rest[0] == w[1];
        }
      } else {
        MergePairExhaustive(w[1..], a, b, k - 1);
      }
    }
  }

  /** Merging symbols that are nonempty and contain no `sep` gives such symbols. */
  lemma {:induction false} MergePairFields(w: seq<string>, a: string, b: string, sep: char)
    requires IsField(a, sep) && IsField(b, sep)
    requires forall p :: p in w ==> IsField(p, sep)
    ensures forall p :: p in MergePair(w, a, b) ==> IsField(p, sep)
    decreases |w|
  {
    if |w| >= 2 && w[0] == a && w[1] == b {
      MergePairFields(w[2..], a, b, sep);
    } else if w != [] {
      assert forall p :: p in w[1..] ==> p in w;
      MergePairFields(w[1..], a, b, sep);
    }
  }

  /** `Bpe` on a list of symbols: merge the best pair until no candidate is left. */
  function BpeWord(w: seq<string>, ranks: map<string, int>): (r: seq<string>)
    ensures |r| <= |w|
    decreases |w|
  {
    match FindBest(w, ranks)
    case None => w
    case Some(i) =>
      MergePairShrinks(w, w[i], w[i + 1], i);
      BpeWord(MergePair(w, w[i], w[i + 1]), ranks)
  }

  /** `Bpe(token)`: the merged symbols joined by spaces. */
  function BpeResult(token: string, ranks: map<string, int>): string
  {
    Join(BpeWord(Chars(token), ranks), " ")
  }

  lemma {:induction false} CharsSpell(token: string)
    ensures Concat(Chars(token)) == token
    decreases |token|
  {
    if token != [] {
      CharsSpell(token[1..]);
      assert Chars(token)[1..] == Chars(token[1..]);
      assert token == [token[0]] + token[1..];
    }
  }

  /**
   * Byte-pair encoding only regroups characters: the pieces spell the token, there are
   * at most as many as characters, and no rankable pair is left.
   */
  lemma {:induction false} BpeWordSpec(w: seq<string>, ranks: map<string, int>)
    ensures Concat(BpeWord(w, ranks)) == Concat(w)
    ensures FindBest(BpeWord(w, ranks), ranks).None?
    decreases |w|
  {
    match FindBest(w, ranks)
    case None =>
    case Some(i) =>
      MergePairShrinks(w, w[i], w[i + 1], i);
      MergePairSpells(w, w[i], w[i + 1]);
      BpeWordSpec(MergePair(w, w[i], w[i + 1]), ranks);
  }

  lemma {:induction false} BpeWordFields(w: seq<string>, ranks: map<string, int>, sep: char)
    requires forall p :: p in w ==> IsField(p, sep)
    ensures forall p :: p in BpeWord(w, ranks) ==> IsField(p, sep)
    decreases |w|
  {
    match FindBest(w, ranks)
    case None =>
    case Some(i) =>
      MergePairShrinks(w, w[i], w[i + 1], i);
      assert w[i] in w && w[i + 1] in w;
      MergePairFields(w, w[i], w[i + 1], sep);
      BpeWordFields(MergePair(w, w[i], w[i + 1]), ranks, sep);
  }

  /** The pieces one pre-token contributes: its encoded characters, merged, then split on spaces. */
  function TokenPieces(bytes: seq<byte>, ranks: map<string, int>): seq<string>
  {
    if bytes == [] then [] else SplitRemoveEmpty(BpeResult(EncodedChars(bytes), ranks), ' ')
  }

  /**
   * Splitting the joined result recovers the merged symbols exactly, because encoded
   * text has no spaces; the pieces therefore spell the encoded pre-token.
   */
  lemma {:induction false} TokenPiecesSpec(bytes: seq<byte>, ranks: map<string, int>)
    ensures TokenPieces(bytes, ranks) == BpeWord(Chars(EncodedChars(bytes)), ranks)
    ensures Concat(TokenPieces(bytes, ranks)) == EncodedChars(bytes)
  {
    var token := EncodedChars(bytes);
    forall p | p in Chars(token)
      ensures IsField(p, ' ')
    {
      var i :| 0 <= i < |token| && p == Chars(token)[i];
      ByteCharAvoidsSeparators(bytes[i]);
    }
    BpeWordFields(Chars(token), ranks, ' ');
    if bytes != [] {
      SplitJoinRoundTrip(BpeWord(Chars(token), ranks), ' ');
    }
    BpeWordSpec(Chars(token), ranks);
    CharsSpell(token);
  }

  /** The pieces of each pre-token. */
  function PiecesOf(preTokens: seq<seq<byte>>, ranks: map<string, int>): (r: seq<seq<string>>)
    ensures |r| == |preTokens|
    ensures forall i :: 0 <= i < |preTokens| ==> r[i] == TokenPieces(preTokens[i], ranks)
  {
    seq(|preTokens|, i requires 0 <= i < |preTokens| => TokenPieces(preTokens[i], ranks))
  }

  /** The pieces of all pre-tokens, in order. */
  function TokenStream(preTokens: seq<seq<byte>>, ranks: map<string, int>): seq<string>
  {
    Flatten(PiecesOf(preTokens, ranks))
  }

  /** The vocabulary ids of the pieces that are in the vocabulary; the others are dropped. */
  function KnownIds(tokens: seq<string>, vocab: map<string, int>): (ids: seq<int>)
    ensures |ids| <= |tokens|
  {
    if tokens == [] then []
    else
      var last := tokens[|tokens| - 1];
      KnownIds(tokens[..|tokens| - 1], vocab) + (if last in vocab then [vocab[last]] else [])
  }

  lemma {:induction false} KnownIdsAppend(a: seq<string>, b: seq<string>, vocab: map<string, int>)
    ensures KnownIds(a + b, vocab) == KnownIds(a, vocab) + KnownIds(b, vocab)
    decreases |b|
  {
    if b != [] {
      var b' := b[..|b| - 1];
      assert (a + b)[..|a + b| - 1] == a + b';
      KnownIdsAppend(a, b', vocab);
    } else {
      assert a + b == a;
    }
  }

  /** Every id comes from a piece in the vocabulary, and every such piece contributes its id. */
  lemma {:induction false} KnownIdsMembers(tokens: seq<string>, vocab: map<string, int>, id: int)
    ensures id in KnownIds(tokens, vocab) <==> exists t :: t in tokens && t in vocab && vocab[t] == id
    decreases |tokens|
  {
    if tokens != [] {
      var init := tokens[..|tokens| - 1];
      var last := tokens[|tokens| - 1];
      KnownIdsMembers(init, vocab, id);
      assert tokens == init + [last];
      if id in KnownIds(tokens, vocab) && !(id in KnownIds(init, vocab)) {
        assert last in tokens;
      }
      if exists t :: t in tokens && t in vocab && vocab[t] == id {
        var t :| t in tokens && t in vocab && vocab[t] == id;
        if t != last {
          assert t in init;
        }
      }
    }
  }

  /** With every piece in the vocabulary, no piece is dropped. */
  lemma {:induction false} KnownIdsAllKnown(tokens: seq<string>, vocab: map<string, int>)
    requires forall t :: t in tokens ==> t in vocab
    ensures |KnownIds(tokens, vocab)| == |tokens|
    decreases |tokens|
  {
    if tokens != [] {
      var init := tokens[..|tokens| - 1];
      assert forall t :: t in init ==> t in tokens;
      KnownIdsAllKnown(init, vocab);
      assert tokens[|tokens| - 1] in tokens;
    }
  }

  /** The ids before truncation: start marker, known pieces, end marker (a marker is left out when its id is 0). */
  function Framed(ids: seq<int>, startId: int, endId: int): seq<int>
  {
    (if startId != 0 then [startId] else []) + ids + (if endId != 0 then [endId] else [])
  }

  /** The id array: the framed ids truncated to `maxTokens`, padded with 0. */
  function PadIds(full: seq<int>, maxTokens: nat): (r: seq<int>)
    ensures |r| == maxTokens
  {
    seq(maxTokens, i requires 0 <= i < maxTokens => if i < |full| then full[i] else 0)
  }

  /** The attention array: 1 over the written prefix, 0 after it. */
  function AttentionMask(full: seq<int>, maxTokens: nat): (r: seq<int>)
    ensures |r| == maxTokens
  {
    seq(maxTokens, i requires 0 <= i < maxTokens => if i < |full| then 1 else 0)
  }

  /**
   * The layout `Encode` produces: attention is 1 exactly on the first
   * min(|framed|, maxTokens) positions, which hold the framed ids; the rest is 0.
   * The start marker opens a non-empty array; the end marker is written only when
   * everything before it fits, and then right after the last piece id.
   */
  lemma {:induction false} EncodeLayout(ids: seq<int>, startId: int, endId: int, maxTokens: nat)
    ensures var full := Framed(ids, startId, endId);
      var len := if |full| < maxTokens then |full| else maxTokens;
      (forall i :: 0 <= i < maxTokens ==> (AttentionMask(full, maxTokens)[i] == 1 <==> i < len))
      && (forall i :: 0 <= i < maxTokens ==> AttentionMask(full, maxTokens)[i] in {0, 1})
      && (forall i :: 0 <= i < len ==> PadIds(full, maxTokens)[i] == full[i])
      && (forall i :: len <= i < maxTokens ==> PadIds(full, maxTokens)[i] == 0)
    ensures startId != 0 && maxTokens > 0 ==> PadIds(Framed(ids, startId, endId), maxTokens)[0] == startId
    ensures var pos := (if startId != 0 then 1 else 0) + |ids|;
      endId != 0 ==> (pos < maxTokens <==> pos < maxTokens && PadIds(Framed(ids, startId, endId), maxTokens)[pos] == endId)
  {
  }

  /** The scan in `Bpe` for the pair to merge: strictly lower ranks replace the current choice. */
  method LowestRankedPair(word: seq<string>, ranks: map<string, int>) returns (best: Option<(string, string)>, ghost bestIndex: nat)
    ensures best.None? <==> FindBest(word, ranks).None?
    ensures best.Some? ==> FindBest(word, ranks) == Some(bestIndex) && best.value == (word[bestIndex], word[bestIndex + 1])
  {
    var minRank := IntMax;
    best := None;
    bestIndex := 0;
    var i := 0;
    while i < |word| - 1
      invariant 0 <= i <= if |word| == 0 then 0 else |word| - 1
      invariant best.None? ==> minRank == IntMax && forall j :: 0 <= j < i ==> !Candidate(word, ranks, j)
      invariant best.Some? ==>
                  && bestIndex < i && Candidate(word, ranks, bestIndex)
                  && best.value == (word[bestIndex], word[bestIndex + 1])
                  && minRank == RankAt(word, ranks, bestIndex)
                  && (forall j :: 0 <= j < i && Candidate(word, ranks, j) ==> minRank <= RankAt(word, ranks, j))
                  && (forall j :: 0 <= j < bestIndex && Candidate(word, ranks, j) ==> minRank < RankAt(word, ranks, j))
    {
      var key := PairKey(word[i], word[i + 1]);
      if key in ranks && ranks[key] < minRank {
        minRank := ranks[key];
        best := Some((word[i], word[i + 1]));
        bestIndex := i;
      }
      i := i + 1;
    }
    if best.None? {
      FindBestSpec(word, ranks, 0);
    } else {
      FindBestSpec(word, ranks, bestIndex);
    }
  }

  /** One step of `MergePair` taken at position `index` of `word`. */
  lemma {:induction false} MergePairFrom(word: seq<string>, index: nat, a: string, b: string)
    requires index < |word|
    ensures MergePair(word[index..], a, b)
      == if index < |word| - 1 && word[index] == a && word[index + 1] == b
         then [a + b] + MergePair(word[index + 2..], a, b)
         else [word[index]] + MergePair(word[index + 1..], a, b)
  {
    var tail := word[index..];
    assert tail[0] == word[index];
    if index < |word| - 1 {
      assert tail[1] == word[index + 1] && tail[2..] == word[index + 2..];
    }
    assert tail[1..] == word[index + 1..];
  }

  /** The rewrite in `Bpe`: a left-to-right pass replacing each `a` directly followed by `b` with `a + b`. */
  method MergeAll(word: seq<string>, a: string, b: string) returns (merged: seq<string>)
    ensures merged == MergePair(word, a, b)
  {
    merged := [];
    var index := 0;
    while index < |word|
      invariant 0 <= index <= |word|
      invariant merged + MergePair(word[index..], a, b) == MergePair(word, a, b)
    {
      MergePairFrom(word, index, a, b);
      var piece := word[index];
      var next := index + 1;
      if index < |word| - 1 && word[index] == a && word[index + 1] == b {
        piece := a + b;
        next := index + 2;
      }
      ghost var rest := MergePair(word[next..], a, b);
      assert merged + MergePair(word[index..], a, b) == merged + ([piece] + rest);
      assert (merged + [piece]) + rest == merged + ([piece] + rest);
      merged := merged + [piece];
      index := next;
    }
    assert word[|word|..] == [];
  }

  class ClipTokenizer {
    const vocab: map<string, int>
    const bpeRanks: map<string, int>
    var cache: map<string, string>
    const byteEncoder: map<byte, char>
    const startId: int
    const endId: int

    /** The byte encoder is the fixed table and every cached entry is the merge result of its key. */
    ghost predicate Valid()
      reads this
    {
      (forall b: byte :: b in byteEncoder && byteEncoder[b] == ByteChar(b))
      && (forall t :: t in cache ==> cache[t] == BpeResult(t, bpeRanks))
    }

    /** The tokenizer file's vocabulary and merge list, already read; the markers default to id 0. */
    constructor (vocabulary: map<string, int>, merges: seq<Option<string>>)
      ensures Valid()
      ensures vocab == vocabulary && bpeRanks == RankMap(MergeKeys(merges)) && cache == map[]
      ensures startId == (if StartToken in vocabulary then vocabulary[StartToken] else 0)
      ensures endId == (if EndToken in vocabulary then vocabulary[EndToken] else 0)
    {
      var ranks := LoadMerges(merges);
      var encoder := BuildByteEncoder();
      vocab := vocabulary;
      bpeRanks := ranks;
      byteEncoder := encoder;
      startId := if StartToken in vocabulary then vocabulary[StartToken] else 0;
      endId := if EndToken in vocabulary then vocabulary[EndToken] else 0;
      cache := map[];
    }

    /** `EncodeBytes`, through the encoder table. */
    method EncodeBytes(bytes: seq<byte>) returns (s: string)
      requires Valid()
      ensures s == EncodedChars(bytes)
    {
      var chars := new char[|bytes|];
      for i := 0 to |bytes|
        invariant forall k :: 0 <= k < i ==> chars[k] == ByteChar(bytes[k])
      {
        chars[i] := byteEncoder[bytes[i]];
      }
      s := chars[..];
    }

    /** `Bpe` with its memo table: a cached result is returned as is, a new one is computed and stored. */
    method Bpe(token: string) returns (result: string)
      requires Valid()
      modifies this`cache
      ensures Valid()
      ensures result == BpeResult(token, bpeRanks)
      ensures cache == old(cache)[token := result]
    {
      if token in cache {
        result := cache[token];
        assert cache[token := result] == cache;
        return;
      }
      var word := Chars(token);
      if |word| == 1 {
        assert FindBest(word, bpeRanks).None?;
        assert BpeWord(word, bpeRanks) == word;
        assert token == [token[0]] && word == [token];
        assert BpeResult(token, bpeRanks) == token;
        cache := cache[token := token];
        return token;
      }
      while true
        invariant BpeWord(word, bpeRanks) == BpeWord(Chars(token), bpeRanks)
        invariant cache == old(cache)
        decreases |word|
      {
        var best, bestIndex := LowestRankedPair(word, bpeRanks);
        if best.None? {
          assert BpeWord(word, bpeRanks) == word;
          break;
        }
        var (a, b) := best.value;
        MergePairShrinks(word, a, b, bestIndex);
        word := MergeAll(word, a, b);
        if |word| == 1 {
          assert FindBest(word, bpeRanks).None?;
          assert BpeWord(word, bpeRanks) == word;
          break;
        }
      }
      assert BpeWord(word, bpeRanks) == word;
      result := Join(word, " ");
      assert result == BpeResult(token, bpeRanks);
      cache := cache[token := result];
    }

    /** `Tokenize` for one pre-token: its encoded characters, merged, split into pieces. */
    method Tokenize(bytes: seq<byte>) returns (pieces: seq<string>)
      requires Valid()
      modifies this`cache
      ensures Valid()
      ensures pieces == TokenPieces(bytes, bpeRanks)
    {
      pieces := [];
      if bytes != [] {
        var encoded := EncodeBytes(bytes);
        var bpe := Bpe(encoded);
        pieces := SplitRemoveEmpty(bpe, ' ');
      }
    }

    /**
     * `Encode`: the start marker, the vocabulary ids of the pieces of each pre-token in
     * order (unknown pieces skipped), then the end marker if there is room; reading
     * stops as soon as the array is full.
     */
    method Encode(preTokens: seq<seq<byte>>, maxTokens: nat) returns (ids: array<int>, attention: array<int>)
      requires Valid()
      modifies this`cache
      ensures Valid()
      ensures fresh(ids) && fresh(attention)
      ensures ids[..] == PadIds(Framed(KnownIds(TokenStream(preTokens, bpeRanks), vocab), startId, endId), maxTokens)
      ensures attention[..] == AttentionMask(Framed(KnownIds(TokenStream(preTokens, bpeRanks), vocab), startId, endId), maxTokens)
    {
      ids := new int[maxTokens](_ => 0);
      attention := new int[maxTokens](_ => 0);
      var index: nat := 0;
      var start: seq<int> := if startId != 0 then [startId] else [];
      assert Layout(ids, attention, [], 0);
      if startId != 0 && index < maxTokens {
        Put(ids, attention, [], index, startId);
        index := index + 1;
      }
      assert Layout(ids, attention, start, index);
      index := WriteStream(preTokens, ids, attention, index, start);
      ghost var all := start + KnownIds(TokenStream(preTokens, bpeRanks), vocab);
      if endId != 0 && index < maxTokens {
        Put(ids, attention, all, index, endId);
      }
      ghost var full := Framed(KnownIds(TokenStream(preTokens, bpeRanks), vocab), startId, endId);
      assert full == all + (if endId != 0 then [endId] else []);
      LayoutIsPadded(ids, attention, full);
    }

    /** The pre-token loop of `Encode`: the known ids of every piece, until the arrays are full. */
    method WriteStream(preTokens: seq<seq<byte>>, ids: array<int>, attention: array<int>, index: nat, ghost start: seq<int>)
      returns (next: nat)
      requires Valid() && ids != attention
      requires Layout(ids, attention, start, index)
      modifies this`cache, ids, attention
      ensures Valid()
      ensures Layout(ids, attention, start + KnownIds(TokenStream(preTokens, bpeRanks), vocab), next)
    {
      next := index;
      ghost var stream := PiecesOf(preTokens, bpeRanks);
      ghost var done: seq<string> := [];
      ghost var written := start;
      var p := 0;
      while p < |preTokens|
        invariant 0 <= p <= |preTokens|
        invariant Valid()
        invariant done == Flatten(stream[..p])
        invariant written == start + KnownIds(done, vocab)
        invariant Layout(ids, attention, written, next)
      {
        if next >= ids.Length {
          break;
        }
        var pieces := Tokenize(preTokens[p]);
        next := WritePieces(ids, attention, vocab, pieces, next, written);
        NextPreToken(stream, p, start, done, pieces, vocab);
        written := written + KnownIds(pieces, vocab);
        done := done + pieces;
        p := p + 1;
      }
      RestIgnored(ids, attention, stream, p, start, done, vocab, next);
    }
  }

  lemma {:induction false} NextPreToken(stream: seq<seq<string>>, p: nat, start: seq<int>, done: seq<string>, pieces: seq<string>,
                     vocab: map<string, int>)
    requires p < |stream| && done == Flatten(stream[..p]) && pieces == stream[p]
    ensures done + pieces == Flatten(stream[..p + 1])
    ensures start + KnownIds(done + pieces, vocab) == (start + KnownIds(done, vocab)) + KnownIds(pieces, vocab)
  {
    assert stream[..p + 1][..p] == stream[..p];
    KnownIdsAppend(done, pieces, vocab);
  }

  /** Once the loop stops, the layout is that of all the pieces: either all were read or the arrays are full. */
  lemma {:induction false} RestIgnored(ids: array<int>, attention: array<int>, stream: seq<seq<string>>, p: nat, start: seq<int>,
                    done: seq<string>, vocab: map<string, int>, index: nat)
    requires p <= |stream| && done == Flatten(stream[..p])
    requires Layout(ids, attention, start + KnownIds(done, vocab), index)
    requires p < |stream| ==> index >= ids.Length
    ensures Layout(ids, attention, start + KnownIds(Flatten(stream), vocab), index)
  {
    FlattenSplit(stream, p);
    KnownIdsAppend(done, Flatten(stream[p..]), vocab);
    if p < |stream| {
      LayoutFull(ids, attention, start + KnownIds(done, vocab), KnownIds(Flatten(stream[p..]), vocab), index);
    } else {
      assert stream[..p] == stream && stream[p..] == [];
    }
  }

  /** The finished layout is the padded id array and the attention mask. */
  lemma {:induction false} LayoutIsPadded(ids: array<int>, attention: array<int>, full: seq<int>)
    requires Layout(ids, attention, full, Min(|full|, ids.Length))
    ensures ids[..] == PadIds(full, ids.Length)
    ensures attention[..] == AttentionMask(full, attention.Length)
  {
  }

  /** The inner loop of `Encode`: the ids of the pieces in the vocabulary, until the arrays are full. */
  method WritePieces(ids: array<int>, attention: array<int>, vocab: map<string, int>, pieces: seq<string>,
                     index: nat, ghost written: seq<int>) returns (next: nat)
    requires ids != attention
    requires Layout(ids, attention, written, index)
    modifies ids, attention
    ensures Layout(ids, attention, written + KnownIds(pieces, vocab), next)
  {
    next := index;
    var q := 0;
    assert written + KnownIds(pieces[..0], vocab) == written;
    while q < |pieces|
      invariant 0 <= q <= |pieces|
      invariant Layout(ids, attention, written + KnownIds(pieces[..q], vocab), next)
    {
      if next >= ids.Length {
        break;
      }
      KnownIdsSnoc(written, pieces, q, vocab);
      next := WritePiece(ids, attention, vocab, pieces[q], next, written + KnownIds(pieces[..q], vocab));
      q := q + 1;
    }
    if q < |pieces| {
      KnownIdsAppend(pieces[..q], pieces[q..], vocab);
      assert pieces[..q] + pieces[q..] == pieces;
      LayoutFull(ids, attention, written + KnownIds(pieces[..q], vocab), KnownIds(pieces[q..], vocab), next);
    } else {
      assert pieces[..q] == pieces;
    }
  }

  /** One more piece adds its id, when it has one. */
  lemma {:induction false} KnownIdsSnoc(written: seq<int>, pieces: seq<string>, q: nat, vocab: map<string, int>)
    requires q < |pieces|
    ensures written + KnownIds(pieces[..q + 1], vocab)
         == (written + KnownIds(pieces[..q], vocab)) + (if pieces[q] in vocab then [vocab[pieces[q]]] else [])
  {
    assert pieces[..q + 1][..q] == pieces[..q];
  }

  /** One step of the inner loop: a piece in the vocabulary is written, any other is skipped. */
  method WritePiece(ids: array<int>, attention: array<int>, vocab: map<string, int>, piece: string,
                    index: nat, ghost written: seq<int>) returns (next: nat)
    requires ids != attention
    requires Layout(ids, attention, written, index) && index < ids.Length
    modifies ids, attention
    ensures Layout(ids, attention, written + (if piece in vocab then [vocab[piece]] else []), next)
  {
    next := index;
    if piece in vocab {
      Put(ids, attention, written, index, vocab[piece]);
      next := index + 1;
    } else {
      assert written + [] == written;
    }
  }

  /** Once the arrays are full, more ids change nothing. */
  lemma {:induction false} LayoutFull(ids: array<int>, attention: array<int>, written: seq<int>, more: seq<int>, index: nat)
    requires Layout(ids, attention, written, index) && index >= ids.Length
    ensures Layout(ids, attention, written + more, index)
  {
    assert (written + more)[..index] == written[..index];
  }

  /** Writes the next id and marks it attended. */
  method Put(ids: array<int>, attention: array<int>, ghost written: seq<int>, index: nat, id: int)
    requires ids != attention
    requires Layout(ids, attention, written, index) && index < ids.Length
    modifies ids, attention
    ensures Layout(ids, attention, written + [id], index + 1)
    ensures ids[..] == old(ids[..])[index := id]
  {
    ids[index] := id;
    attention[index] := 1;
    assert (written + [id])[..index + 1] == written[..index] + [id];
    assert ids[..index + 1] == old(ids[..index]) + [id];
  }

  /**
   * The arrays hold the first `index` entries of `written` (all of them, or as many as
   * fit): attention 1 over that prefix, ids and attention 0 after it.
   */
  ghost predicate Layout(ids: array<int>, attention: array<int>, written: seq<int>, index: nat)
    reads ids, attention
  {
    && ids.Length == attention.Length
    && index == Min(|written|, ids.Length)
    && ids[..index] == written[..index]
    && (forall k :: 0 <= k < attention.Length ==> attention[k] == (if k < index then 1 else 0))
    && (forall k :: index <= k < ids.Length ==> ids[k] == 0)
  }

  function Min(a: int, b: int): int
  {
    if a < b then a else b
  }
}
