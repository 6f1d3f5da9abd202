/**
 * Difference hash ("dHash") of a 9x8 grey-scale grid, its 16-digit hexadecimal text form,
 * and the Hamming similarity of two hashes given as text (Utilities/ImageHash.cs).
 *
 * The C# `ulong` is modelled as a natural number below 2^64; `|`, `&` and `^` are defined
 * bit by bit on naturals. No operation of this file can leave the 64-bit range (the only
 * subtraction, `xor - 1`, runs on a non-zero value), so no wrap-around needs modelling.
 * The conversion to grey scale and the resize to 9x8 are WPF calls and are not modelled:
 * the grid of bytes is the input.
 */
module ImageHash {
  import opened Wrappers

  const GridWidth: nat := 9
  const GridHeight: nat := 8
  const HashBits: nat := 64

  function Pow2(k: nat): (r: nat)
    ensures r >= 1
  {
    if k == 0 then 1 else 2 * Pow2(k - 1)
  }

  /** One more than the largest `ulong`. */
  const ULongLimit: nat := 0x1_0000_0000_0000_0000

  type ULong = x: nat | x < ULongLimit

  // ---------------------------------------------------------------------------
  // Bit operations on naturals
  // ---------------------------------------------------------------------------

  /** Bit k (0 = least significant) of h. */
  function Bit(h: nat, k: nat): (b: nat)
    ensures b <= 1
  {
    if k == 0 then h % 2 else Bit(h / 2, k - 1)
  }

  function Or(a: nat, b: nat): nat
    decreases a + b
  {
    if a == 0 then b
    else if b == 0 then a
    else 2 * Or(a / 2, b / 2) + (if a % 2 == 1 || b % 2 == 1 then 1 else 0)
  }

  function And(a: nat, b: nat): nat
    decreases a + b
  {
    if a == 0 || b == 0 then 0
    else 2 * And(a / 2, b / 2) + (if a % 2 == 1 && b % 2 == 1 then 1 else 0)
  }

  function Xor(a: nat, b: nat): nat
    decreases a + b
  {
    if a == 0 then b
    else if b == 0 then a
    else 2 * Xor(a / 2, b / 2) + (a % 2 + b % 2) % 2
  }

  /** Number of set bits. */
  function PopCount(x: nat): nat
  {
    if x == 0 then 0 else x % 2 + PopCount(x / 2)
  }

  lemma {:induction false} XorBound(a: nat, b: nat, n: nat)
    requires a < Pow2(n) && b < Pow2(n)
    ensures Xor(a, b) < Pow2(n)
    decreases n
  {
    if a != 0 && b != 0 {
      XorBound(a / 2, b / 2, n - 1);
    }
  }

  lemma {:induction false} XorCommutes(a: nat, b: nat)
    ensures Xor(a, b) == Xor(b, a)
    decreases a + b
  {
    if a != 0 && b != 0 {
      XorCommutes(a / 2, b / 2);
    }
  }

  lemma {:induction false} XorSelf(a: nat)
    ensures Xor(a, a) == 0
    decreases a
  {
    if a != 0 {
      XorSelf(a / 2);
    }
  }

  lemma {:induction false} AndSelf(a: nat)
    ensures And(a, a) == a
    decreases a
  {
    if a != 0 {
      AndSelf(a / 2);
    }
  }

  lemma {:induction false} PopCountBound(x: nat, n: nat)
    requires x < Pow2(n)
    ensures PopCount(x) <= n
    decreases n
  {
    if x != 0 {
      PopCountBound(x / 2, n - 1);
    }
  }

  /**
   * Kernighan's step: `x & (x - 1)` clears the lowest set bit of a non-zero x, so it is
   * smaller than x and has exactly one set bit fewer.
   */
  lemma {:induction false} ClearLowestBit(x: nat)
    requires x > 0
    ensures And(x, x - 1) < x
    ensures PopCount(And(x, x - 1)) == PopCount(x) - 1
    decreases x
  {
    var h := x / 2;
    if x % 2 == 1 {
      assert x == 2 * h + 1;
      if h > 0 {
        assert (x - 1) / 2 == h && (x - 1) % 2 == 0;
        AndSelf(h);
        assert And(x, x - 1) == 2 * h;
        assert PopCount(x - 1) == PopCount(h);
        assert PopCount(x) == 1 + PopCount(h);
      }
    } else {
      assert x == 2 * h && h >= 1;
      assert (x - 1) / 2 == h - 1 && (x - 1) % 2 == 1;
      ClearLowestBit(h);
      var a := And(h, h - 1);
      assert And(x, x - 1) == 2 * a;
      PopCountDouble(a);
      assert PopCount(x) == PopCount(h);
    }
  }

  lemma {:induction false} PopCountDouble(a: nat)
    ensures PopCount(2 * a) == PopCount(a)
  {
    if a > 0 {
      assert (2 * a) % 2 == 0 && (2 * a) / 2 == a;
    }
  }

  /** Adding a bit above every set bit of v is an or. */
  lemma {:induction false} OrHighBit(v: nat, n: nat)
    requires v < Pow2(n)
    ensures Or(v, Pow2(n)) == v + Pow2(n)
    decreases n
  {
    if v != 0 && n > 0 {
      OrHighBit(v / 2, n - 1);
    }
  }

  lemma {:induction false} BitOfSum(v: nat, n: nat, k: nat)
    requires v < Pow2(n)
    ensures Bit(v + Pow2(n), k) == if k == n then 1 else Bit(v, k)
    ensures k >= n ==> Bit(v, k) == 0
    decreases k
  {
    if k > 0 {
      if n > 0 {
        assert (v + Pow2(n)) / 2 == v / 2 + Pow2(n - 1);
        BitOfSum(v / 2, n - 1, k - 1);
      } else {
        assert v == 0 && (v + Pow2(n)) / 2 == 0;
        BitOfZero(k - 1);
      }
    }
  }

  lemma {:induction false} BitOfZero(k: nat)
    ensures Bit(0, k) == 0
  {
    if k > 0 {
      BitOfZero(k - 1);
    }
  }

  // ---------------------------------------------------------------------------
  // Difference hash
  // ---------------------------------------------------------------------------

  /** Grid byte (x, y) is greater than its right neighbour (x + 1, y). */
  predicate Brighter(pixels: seq<byte>, x: nat, y: nat)
    requires |pixels| == GridWidth * GridHeight && x < 8 && y < 8
  {
    pixels[y * GridWidth + x] > pixels[y * GridWidth + x + 1]
  }

  /** Index in the 9-wide grid of the left pixel compared for hash bit p (p = y*8 + x). */
  function Cell(p: nat): (i: nat)
    requires p < HashBits
    ensures i + 1 < GridWidth * GridHeight
  {
    GridWidth * (p / 8) + p % 8
  }

  /** The comparison behind hash bit p: the left pixel is brighter than its right neighbour. */
  predicate BrighterAt(pixels: seq<byte>, p: nat)
    requires |pixels| == GridWidth * GridHeight && p < HashBits
  {
    pixels[Cell(p)] > pixels[Cell(p) + 1]
  }

  /** The hash formed by the first n comparisons: bit p set exactly for the brighter pairs p < n. */
  function DHashPrefix(pixels: seq<byte>, n: nat): nat
    requires |pixels| == GridWidth * GridHeight && n <= HashBits
  {
    if n == 0 then 0
    else DHashPrefix(pixels, n - 1) + (if BrighterAt(pixels, n - 1) then Pow2(n - 1) else 0)
  }

  /** The first n comparisons occupy exactly the low n bits, one comparison per bit. */
  lemma {:induction false} DHashPrefixBits(pixels: seq<byte>, n: nat)
    requires |pixels| == GridWidth * GridHeight && n <= HashBits
    ensures DHashPrefix(pixels, n) < Pow2(n)
    ensures forall k: nat :: k < n ==> (Bit(DHashPrefix(pixels, n), k) == 1 <==> BrighterAt(pixels, k))
    ensures forall k: nat :: k >= n ==> Bit(DHashPrefix(pixels, n), k) == 0
  {
    if n == 0 {
      forall k: nat ensures Bit(0, k) == 0 {
        BitOfZero(k);
      }
    } else {
      var v := DHashPrefix(pixels, n - 1);
      DHashPrefixBits(pixels, n - 1);
      if BrighterAt(pixels, n - 1) {
        forall k: nat
          ensures Bit(DHashPrefix(pixels, n), k) == if k < n - 1 then Bit(v, k) else if k == n - 1 then 1 else 0
        {
          BitOfSum(v, n - 1, k);
        }
      }
    }
  }

  /** Pow2(64) is the ulong range. */
  lemma {:induction false} Pow2Is64()
    ensures Pow2(HashBits) == ULongLimit
  {
    assert Pow2(4) == 16 by {
      assert Pow2(1) == 2 && Pow2(2) == 4 && Pow2(3) == 8;
    }
    Pow2Add(4, 4);
    assert Pow2(8) == 0x100;
    Pow2Add(8, 8);
    assert Pow2(16) == 0x1_0000;
    Pow2Add(16, 16);
    assert Pow2(32) == 0x1_0000_0000;
    Pow2Add(32, 32);
  }

  lemma {:induction false} Pow2Add(a: nat, b: nat)
    ensures Pow2(a + b) == Pow2(a) * Pow2(b)
  {
    if a > 0 {
      Pow2Add(a - 1, b);
    }
  }

  /** One comparison: or-ing in bit n exactly when pair n is brighter extends the prefix by one. */
  lemma {:induction false} DHashStep(pixels: seq<byte>, n: nat)
    requires |pixels| == GridWidth * GridHeight && n < HashBits
    ensures DHashPrefix(pixels, n + 1)
      == if BrighterAt(pixels, n) then Or(DHashPrefix(pixels, n), Pow2(n)) else DHashPrefix(pixels, n)
  {
    if BrighterAt(pixels, n) {
      DHashPrefixBits(pixels, n);
      OrHighBit(DHashPrefix(pixels, n), n);
    }
  }

  /** The inner loop of ComputeDHash (ImageHash.cs:24-33): the eight comparisons of row y. */
  method DHashRow(pixels: seq<byte>, y: nat, h: nat) returns (next: nat)
    requires |pixels| == GridWidth * GridHeight && y < GridHeight
    requires h == DHashPrefix(pixels, y * 8)
    ensures next == DHashPrefix(pixels, y * 8 + 8)
  {
    var row := y * GridWidth;
    next := h;
    var x: nat := 0;
    while x < GridWidth - 1
      invariant x <= GridWidth - 1
      invariant next == DHashPrefix(pixels, y * 8 + x)
    {
      var bit := y * 8 + x;
      var left := pixels[row + x];
      var right := pixels[row + x + 1];
      assert Cell(bit) == row + x;
      DHashStep(pixels, bit);
      if left > right {
        next := Or(next, Pow2(bit));
      }
      x := x + 1;
    }
  }

  /**
   * The bit loop of ComputeDHash (ImageHash.cs:20-35): bit y*8 + x of the result is set
   * exactly when grid byte (x, y) is greater than byte (x + 1, y).
   */
  method DHashBits(pixels: seq<byte>) returns (hash: ULong)
    requires |pixels| == GridWidth * GridHeight
    ensures hash == DHashPrefix(pixels, HashBits)
    ensures forall x: nat, y: nat :: x < 8 && y < 8 ==> (Bit(hash, y * 8 + x) == 1 <==> Brighter(pixels, x, y))
  {
    var h: nat := 0;
    var y: nat := 0;
    while y < GridHeight
      invariant y <= GridHeight
      invariant h == DHashPrefix(pixels, y * 8)
    {
      h := DHashRow(pixels, y, h);
      y := y + 1;
    }
    DHashPrefixBits(pixels, HashBits);
    Pow2Is64();
    hash := h;
    forall x: nat, y: nat | x < 8 && y < 8
      ensures Bit(hash, y * 8 + x) == 1 <==> Brighter(pixels, x, y)
    {
      assert Cell(y * 8 + x) == y * 9 + x;
    }
  }

  // ---------------------------------------------------------------------------
  // Hexadecimal text form: "X16" formatting and ulong.TryParse with HexNumber
  // ---------------------------------------------------------------------------

  function HexChar(d: nat): (c: char)
    requires d < 16
  {
    "0123456789ABCDEF"[d]
  }

  predicate IsHexDigit(c: char)
  {
    '0' <= c <= '9' || 'A' <= c <= 'F' || 'a' <= c <= 'f'
  }

  function HexDigitValue(c: char): (d: nat)
    requires IsHexDigit(c)
    ensures d < 16
  {
    if '0' <= c <= '9' then c as int - '0' as int
    else if 'A' <= c <= 'F' then c as int - 'A' as int + 10
    else c as int - 'a' as int + 10
  }

  /** The last n hexadecimal digits of v, most significant first, upper case. */
  function HexDigits(v: nat, n: nat): (s: seq<char>)
    ensures |s| == n
  {
    if n == 0 then [] else HexDigits(v / 16, n - 1) + [HexChar(v % 16)]
  }

  /** `ulong.ToString("X16")`: exactly 16 upper-case hexadecimal digits. */
  function FormatHex16(h: ULong): (s: string)
    ensures |s| == 16
  {
    HexDigits(h, 16)
  }

  /** Value of a string of hexadecimal digits. */
  function HexValue(s: seq<char>): nat
    requires forall i :: 0 <= i < |s| ==> IsHexDigit(s[i])
  {
    if s == [] then 0 else HexValue(s[..|s| - 1]) * 16 + HexDigitValue(s[|s| - 1])
  }

  /** White space accepted around a number by .NET's number parsing: tab to carriage return and space. */
  predicate IsNumberWhite(c: char)
  {
    c == ' ' || '\t' <= c <= '\r'
  }

  /** The two character classes the hexadecimal parser scans for. */
  datatype CharClass = NumberWhite | HexDigit

  predicate InClass(c: char, cls: CharClass)
  {
    match cls
    case NumberWhite => IsNumberWhite(c)
    case HexDigit => IsHexDigit(c)
  }

  /** Number of leading characters of s in the class. */
  function PrefixLength(s: seq<char>, cls: CharClass): (n: nat)
    ensures n <= |s|
    ensures forall i :: 0 <= i < n ==> InClass(s[i], cls)
    ensures n < |s| ==> !InClass(s[n], cls)
  {
    if s == [] || !InClass(s[0], cls) then 0 else 1 + PrefixLength(s[1..], cls)
  }

  /**
   * `ulong.TryParse(s, NumberStyles.HexNumber, ...)`: optional leading white space, one or more
   * hexadecimal digits of either case, optional trailing white space, then only NUL characters;
   * fails when the value does not fit in 64 bits.
   */
  function ParseHex(s: string): (r: Option<ULong>)
    ensures r.Some? ==> exists i, j :: 0 <= i < j <= |s| && (forall k :: i <= k < j ==> IsHexDigit(s[k])) && r.value == HexValue(s[i..j])
  {
    var lead := PrefixLength(s, NumberWhite);
    var body := s[lead..];
    var digits := PrefixLength(body, HexDigit);
    var rest := body[digits..];
    var trail := PrefixLength(rest, NumberWhite);
    if digits == 0 || !OnlyNul(rest[trail..]) then None
    else
      DigitsWithin(s, lead, digits);
      var text := s[lead..lead + digits];
      assert forall i :: 0 <= i < |text| ==> IsHexDigit(text[i]);
      var v := HexValue(text);
      if v < ULongLimit then Some(v) else None
  }

  /** Nothing but NUL characters. */
  predicate OnlyNul(s: seq<char>)
  {
    forall k :: 0 <= k < |s| ==> s[k] == '\0'
  }

  /** The digits found after the leading white space, as a slice of the whole text. */
  lemma {:induction false} DigitsWithin(s: string, lead: nat, digits: nat)
    requires lead <= |s| && digits <= |s[lead..]|
    requires forall i :: 0 <= i < digits ==> InClass(s[lead..][i], HexDigit)
    ensures lead + digits <= |s|
    ensures forall k :: lead <= k < lead + digits ==> IsHexDigit(s[k])
  {
    forall k | lead <= k < lead + digits
      ensures IsHexDigit(s[k])
    {
      assert InClass(s[lead..][k - lead], HexDigit);
    }
  }

  function Pow16(n: nat): (r: nat)
    ensures r >= 1
  {
    if n == 0 then 1 else 16 * Pow16(n - 1)
  }

  lemma {:induction false} Pow16Is64()
    ensures Pow16(16) == ULongLimit
  {
    assert Pow16(1) == 16 && Pow16(2) == 256 && Pow16(3) == 0x1000 && Pow16(4) == 0x1_0000;
    Pow16Add(4, 4);
    Pow16Add(8, 8);
  }

  lemma {:induction false} Pow16Add(a: nat, b: nat)
    ensures Pow16(a + b) == Pow16(a) * Pow16(b)
  {
    if a > 0 {
      Pow16Add(a - 1, b);
    }
  }

  lemma {:induction false} HexDigitsAreHex(v: nat, n: nat)
    ensures forall i :: 0 <= i < n ==> IsHexDigit(HexDigits(v, n)[i])
  {
    if n > 0 {
      HexDigitsAreHex(v / 16, n - 1);
      assert IsHexDigit(HexChar(v % 16));
    }
  }

  lemma {:induction false} HexDigitsRoundTrip(v: nat, n: nat)
    requires v < Pow16(n)
    ensures forall i :: 0 <= i < n ==> IsHexDigit(HexDigits(v, n)[i])
    ensures HexValue(HexDigits(v, n)) == v
  {
    HexDigitsAreHex(v, n);
    if n > 0 {
      HexDigitsRoundTrip(v / 16, n - 1);
      var s := HexDigits(v, n);
      assert s[..n - 1] == HexDigits(v / 16, n - 1);
      var d := v % 16;
      assert HexDigitValue(HexChar(d)) == d;
      assert HexValue(s) == HexValue(s[..n - 1]) * 16 + d;
    }
  }

  /** Parsing the "X16" text of a hash gives the hash back (ImageHash.cs:37 and 42). */
  lemma {:induction false} FormatParseRoundTrip(h: ULong)
    ensures ParseHex(FormatHex16(h)) == Some(h)
  {
    Pow16Is64();
    var s := FormatHex16(h);
    HexDigitsRoundTrip(h, 16);
    assert PrefixLength(s, NumberWhite) == 0 by {
      assert IsHexDigit(s[0]);
    }
    var digits := PrefixLength(s, HexDigit);
    assert digits == 16;
    assert s[0..digits] == s;
    assert s[0..][digits..] == [];
  }

  /**
   * ComputeDHash (ImageHash.cs:9-38) from the 9x8 grid onwards: the hash as 16 upper-case
   * hexadecimal digits, which parse back to the hash.
   */
  method ComputeDHash(pixels: seq<byte>) returns (s: string)
    requires |pixels| == GridWidth * GridHeight
    ensures |s| == 16
    ensures ParseHex(s) == Some(DHashPrefix(pixels, HashBits))
    ensures forall x: nat, y: nat :: x < 8 && y < 8 ==> (Bit(ParseHex(s).value, y * 8 + x) == 1 <==> Brighter(pixels, x, y))
  {
    var hash := DHashBits(pixels);
    s := FormatHex16(hash);
    FormatParseRoundTrip(hash);
  }

  // ---------------------------------------------------------------------------
  // Similarity
  // ---------------------------------------------------------------------------

  /** Hamming similarity of two parsed hashes: the share of the 64 bits on which they agree. */
  function HammingSimilarity(a: ULong, b: ULong): real
  {
    1.0 - (PopCount(Xor(a, b)) as real) / 64.0
  }

  /**
   * Similarity (ImageHash.cs:40-61): 0 when either text does not parse as a hexadecimal ulong;
   * otherwise one minus the number of differing bits over 64, the differing bits being counted
   * by clearing the lowest set bit of `a ^ b` until none is left.
   */
  method Similarity(hashA: string, hashB: string) returns (r: real)
    ensures r == match (ParseHex(hashA), ParseHex(hashB))
                 case (Some(a), Some(b)) => HammingSimilarity(a, b)
                 case _ => 0.0
  {
    var pa := ParseHex(hashA);
    if pa.None? {
      return 0.0;
    }
    var pb := ParseHex(hashB);
    if pb.None? {
      return 0.0;
    }
    var a, b := pa.value, pb.value;
    var xor: nat := Xor(a, b);
    var dist: nat := 0;
    while xor != 0
      invariant dist + PopCount(xor) == PopCount(Xor(a, b))
      decreases xor
    {
      ClearLowestBit(xor);
      dist := dist + 1;
      xor := And(xor, xor - 1);
    }
    r := 1.0 - (dist as real) / 64.0;
  }

  /** Similarity lies in [0, 1], is 1 for equal hashes and does not depend on the argument order. */
  lemma {:induction false} HammingSimilarityProperties(a: ULong, b: ULong)
    ensures 0.0 <= HammingSimilarity(a, b) <= 1.0
    ensures HammingSimilarity(a, a) == 1.0
    ensures HammingSimilarity(a, b) == HammingSimilarity(b, a)
  {
    Pow2Is64();
    XorBound(a, b, HashBits);
    PopCountBound(Xor(a, b), HashBits);
    XorSelf(a);
    XorCommutes(a, b);
  }

  /** Two formatted hashes compare by their differing bits: the formatted text loses nothing. */
  lemma {:induction false} SimilarityOfFormatted(a: ULong, b: ULong)
    ensures ParseHex(FormatHex16(a)).Some? && ParseHex(FormatHex16(b)).Some?
    ensures HammingSimilarity(ParseHex(FormatHex16(a)).value, ParseHex(FormatHex16(b)).value) == HammingSimilarity(a, b)
  {
    FormatParseRoundTrip(a);
    FormatParseRoundTrip(b);
  }
}
