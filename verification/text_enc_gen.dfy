/**
 * The glyph encoder's pure parts: packing an 8x8 glyph bitmap into a
 * 64-bit word printed as two hex words, and parsing the charset file.
 * FreeType rendering and file output are not modelled.
 */
module TextEncGen {
  import opened Wrappers
  import opened Strings

  // ---------------------------------------------------------------------
  // Unsigned integers as bits
  // ---------------------------------------------------------------------

  function Pow2(n: nat): (r: nat)
    ensures r >= 1
  {
    if n == 0 then 1 else 2 * Pow2(n - 1)
  }

  lemma {:induction false} Pow2Add(a: nat, b: nat)
    ensures Pow2(a + b) == Pow2(a) * Pow2(b)
  {
    if a > 0 {
      Pow2Add(a - 1, b);
    }
  }

  /** Whether bit `k` of `n` is set: `(n >> k) & 1 == 1`. */
  function Bit(n: nat, k: nat): bool {
    if k == 0 then n % 2 == 1 else Bit(n / 2, k - 1)
  }

  /** `n | (1 << p)`: unchanged when bit `p` is already set, otherwise that bit's value is added. */
  function OrBit(n: nat, p: nat): nat {
    if Bit(n, p) then n else n + Pow2(p)
  }

  /** The number a bit sequence denotes, least significant bit first. */
  function ToNat(bits: seq<bool>): nat {
    if |bits| == 0 then 0 else (if bits[0] then 1 else 0) + 2 * ToNat(bits[1..])
  }

  lemma {:induction false} ToNatZero(bits: seq<bool>)
    requires forall k :: 0 <= k < |bits| ==> !bits[k]
    ensures ToNat(bits) == 0
  {
    if |bits| > 0 {
      ToNatZero(bits[1..]);
    }
  }

  lemma {:induction false} ToNatBound(bits: seq<bool>)
    ensures ToNat(bits) < Pow2(|bits|)
  {
    if |bits| > 0 {
      ToNatBound(bits[1..]);
    }
  }

  /** Bit `k` of the denoted number is the `k`-th bit of the sequence. */
  lemma {:induction false} ToNatBit(bits: seq<bool>, k: nat)
    requires k < |bits|
    ensures Bit(ToNat(bits), k) == bits[k]
  {
    var low := if bits[0] then 1 else 0;
    LowBitAndHalf(low, ToNat(bits[1..]));
    if k > 0 {
      ToNatBit(bits[1..], k - 1);
    }
  }

  lemma LowBitAndHalf(low: nat, t: nat)
    requires low < 2
    ensures (low + 2 * t) % 2 == low && (low + 2 * t) / 2 == t
  {
  }

  /** Setting a clear bit adds its value. */
  lemma {:induction false} ToNatSetBit(bits: seq<bool>, p: nat)
    requires p < |bits| && !bits[p]
    ensures ToNat(bits[p := true]) == ToNat(bits) + Pow2(p)
  {
    if p > 0 {
      ToNatSetBit(bits[1..], p - 1);
      assert bits[p := true][1..] == bits[1..][p - 1 := true];
    }
  }

  /** Or-ing bit `p` into the denoted number denotes the sequence with bit `p` set. */
  lemma OrBitSets(bits: seq<bool>, p: nat)
    requires p < |bits|
    ensures OrBit(ToNat(bits), p) == ToNat(bits[p := true])
  {
    ToNatBit(bits, p);
    if !bits[p] {
      ToNatSetBit(bits, p);
    } else {
      assert bits[p := true] == bits;
    }
  }

  // ---------------------------------------------------------------------
  // encode_bitmap_to_uvec2
  // ---------------------------------------------------------------------

  /** A rendered glyph: `rows` rows of `width` bytes, row-major in `buffer`. */
  datatype Bitmap = Bitmap(rows: nat, width: nat, buffer: seq<nat>)

  datatype EncodeError =
    | TooLarge          // the ValueError of the size check
    | IndexOutOfRange   // `buffer[i * width + j]` past the end of the buffer

  /** The size check: at most 8 rows, and the shifted row fits in 8 bits. */
  predicate Fits(b: Bitmap, offset: nat) {
    b.rows <= 8 && b.width + offset <= 8
  }

  lemma PixelIndexInRange(i: nat, j: nat, rows: nat, width: nat)
    requires i < rows && j < width
    ensures i * width + j < rows * width
  {
    assert i * width + j < (i + 1) * width;
    assert (i + 1) * width <= rows * width;
  }

  /** `buffer[i * width + j]`: the byte of pixel `(i, j)`. */
  function Pixel(b: Bitmap, i: nat, j: nat): nat
    requires i < b.rows && j < b.width && |b.buffer| >= b.rows * b.width
  {
    PixelIndexInRange(i, j, b.rows, b.width);
    b.buffer[i * b.width + j]
  }

  /** The bit pixel `(i, j)` lands on: row 0 in the top byte, column `j` shifted left by the offset. */
  function BitPosition(i: nat, j: nat, offset: nat): nat
    requires i < 8
  {
    (7 - i) * 8 + j + offset
  }

  /** The row of the pixel that bit `k` belongs to. */
  function RowOf(k: nat): int {
    7 - k / 8
  }

  /** The column of the pixel that bit `k` belongs to (negative for bits left of the offset). */
  function ColumnOf(k: nat, offset: nat): int {
    k % 8 - offset
  }

  /** Bit `k` of the packed word, read off the pixel it belongs to. */
  predicate PackedBit(b: Bitmap, offset: nat, k: nat)
    requires |b.buffer| >= b.rows * b.width
  {
    var i := RowOf(k);
    var j := ColumnOf(k, offset);
    && k < 64 && 0 <= j < b.width && 0 <= i < b.rows
    && Pixel(b, i, j) > 0
  }

  /** The packed word, defined bit by bit. */
  function PackedValue(b: Bitmap, offset: nat): nat
    requires |b.buffer| >= b.rows * b.width
  {
    ToNat(seq(64, k requires 0 <= k < 64 => PackedBit(b, offset, k)))
  }

  lemma PositionOfPixel(i: nat, j: nat, offset: nat)
    requires i < 8 && j + offset < 8
    ensures RowOf(BitPosition(i, j, offset)) == i && ColumnOf(BitPosition(i, j, offset), offset) == j
  {
  }

  /** Whether the pixel of bit `k` comes before `(i, j)` in the scan order. */
  predicate Visited(k: nat, offset: nat, i: nat, j: nat) {
    RowOf(k) < i || (RowOf(k) == i && ColumnOf(k, offset) < j)
  }

  /** The 64 bits after scanning every pixel before `(i, j)`. */
  ghost predicate ScanState(b: Bitmap, offset: nat, bits: seq<bool>, i: nat, j: nat)
    requires |b.buffer| >= b.rows * b.width
  {
    |bits| == 64 && forall k :: 0 <= k < 64 ==> bits[k] == (PackedBit(b, offset, k) && Visited(k, offset, i, j))
  }

  lemma ScanStart(b: Bitmap, offset: nat, bits: seq<bool>)
    requires |b.buffer| >= b.rows * b.width
    requires |bits| == 64 && forall k :: 0 <= k < 64 ==> !bits[k]
    ensures ScanState(b, offset, bits, 0, 0)
  {
  }

  /** Visiting pixel `(i, j)` sets its bit when it is lit and changes no other bit. */
  lemma ScanStep(b: Bitmap, offset: nat, bits: seq<bool>, i: nat, j: nat)
    requires Fits(b, offset) && |b.buffer| >= b.rows * b.width
    requires i < b.rows && j < b.width && ScanState(b, offset, bits, i, j)
    ensures ScanState(b, offset, if Pixel(b, i, j) > 0 then bits[BitPosition(i, j, offset) := true] else bits, i, j + 1)
  {
    var p := BitPosition(i, j, offset);
    PositionOfPixel(i, j, offset);
    forall k | 0 <= k < 64 && k != p
      ensures Visited(k, offset, i, j + 1) == Visited(k, offset, i, j)
    {
    }
  }

  lemma ScanRowDone(b: Bitmap, offset: nat, bits: seq<bool>, i: nat)
    requires |b.buffer| >= b.rows * b.width
    requires ScanState(b, offset, bits, i, b.width)
    ensures ScanState(b, offset, bits, i + 1, 0)
  {
  }

  lemma ScanDone(b: Bitmap, offset: nat, bits: seq<bool>)
    requires |b.buffer| >= b.rows * b.width
    requires ScanState(b, offset, bits, b.rows, 0)
    ensures bits == seq(64, k requires 0 <= k < 64 => PackedBit(b, offset, k))
  {
  }

  /**
   * The nested loops of `encode_bitmap_to_uvec2`: each lit pixel ORs its
   * bit into the word. Defined bit by bit, the result is `PackedValue`.
   */
  method PackBitmap(b: Bitmap, offset: nat) returns (u64: nat)
    requires Fits(b, offset) && |b.buffer| >= b.rows * b.width
    ensures u64 == PackedValue(b, offset)
  {
    ghost var bits: seq<bool> := seq(64, _ => false);
    ToNatZero(bits);
    ScanStart(b, offset, bits);
    u64 := 0;
    var i := 0;
    while i < b.rows
      invariant 0 <= i <= b.rows
      invariant ScanState(b, offset, bits, i, 0) && u64 == ToNat(bits)
    {
      var j := 0;
      while j < b.width
        invariant 0 <= j <= b.width
        invariant ScanState(b, offset, bits, i, j) && u64 == ToNat(bits)
      {
        var rowOffset := (7 - i) * 8;
        PixelIndexInRange(i, j, b.rows, b.width);
        ScanStep(b, offset, bits, i, j);
        if b.buffer[i * b.width + j] > 0 {
          var p := rowOffset + j + offset;
          OrBitSets(bits, p);
          u64 := OrBit(u64, p);
          bits := bits[p := true];
        }
        j := j + 1;
      }
      ScanRowDone(b, offset, bits, i);
      i := i + 1;
    }
    ScanDone(b, offset, bits);
  }

  /** Bit `k` of the packed word is set iff a lit pixel lands on it; no other bit is set. */
  lemma PackedBitExact(b: Bitmap, offset: nat, k: nat)
    requires Fits(b, offset) && |b.buffer| >= b.rows * b.width
    ensures Bit(PackedValue(b, offset), k) <==>
      exists i: nat, j: nat :: i < b.rows && j < b.width && BitPosition(i, j, offset) == k && Pixel(b, i, j) > 0
  {
    PackedValueBits(b, offset, k);
    if PackedBit(b, offset, k) {
      var i: nat, j: nat := RowOf(k), ColumnOf(k, offset);
      assert BitPosition(i, j, offset) == k;
    }
    forall i: nat, j: nat | i < b.rows && j < b.width && BitPosition(i, j, offset) == k
      ensures PackedBit(b, offset, k) == (Pixel(b, i, j) > 0)
    {
      PositionOfPixel(i, j, offset);
    }
  }

  /** The bits of the packed word are the `PackedBit`s, and there are no others. */
  lemma PackedValueBits(b: Bitmap, offset: nat, k: nat)
    requires |b.buffer| >= b.rows * b.width
    ensures Bit(PackedValue(b, offset), k) == PackedBit(b, offset, k)
  {
    var bits := seq(64, k requires 0 <= k < 64 => PackedBit(b, offset, k));
    if k < 64 {
      ToNatBit(bits, k);
    } else {
      ToNatBound(bits);
      HighBitClear(ToNat(bits), 64, k);
    }
  }

  /** A number below `2^n` has no bit at position `n` or above. */
  lemma {:induction false} HighBitClear(v: nat, n: nat, k: nat)
    requires v < Pow2(n) && n <= k
    ensures !Bit(v, k)
  {
    if k > 0 {
      if n > 0 {
        HighBitClear(v / 2, n - 1, k - 1);
      } else {
        HighBitClear(v / 2, 0, k - 1);
      }
    }
  }

  /** The packed word fits in 64 bits. */
  lemma PackedValueBound(b: Bitmap, offset: nat)
    requires |b.buffer| >= b.rows * b.width
    ensures PackedValue(b, offset) < Pow2(64)
  {
    ToNatBound(seq(64, k requires 0 <= k < 64 => PackedBit(b, offset, k)));
  }

  /** Row 0 of the glyph occupies the top byte of the word: its pixel `j` is bit `56 + j + offset`. */
  lemma TopRowInTopByte(b: Bitmap, offset: nat, j: nat)
    requires Fits(b, offset) && |b.buffer| >= b.rows * b.width
    requires 0 < b.rows && j < b.width
    ensures Bit(PackedValue(b, offset), 56 + j + offset) == (b.buffer[j] > 0)
  {
    var k := 56 + j + offset;
    PackedValueBits(b, offset, k);
    assert RowOf(k) == 0 && ColumnOf(k, offset) == j;
  }

  // ---------------------------------------------------------------------
  // Hex formatting: f"0x{low:08X}, 0x{high:08X}"
  // ---------------------------------------------------------------------

  const Word: nat := 0x1_0000_0000

  function HexChar(d: nat): char
    requires d < 16
  {
    if d < 10 then (48 + d) as char else (55 + d) as char
  }

  predicate IsHexDigit(c: char) {
    ('0' <= c <= '9') || ('A' <= c <= 'F')
  }

  predicate AllHex(s: string) {
    forall k :: 0 <= k < |s| ==> IsHexDigit(s[k])
  }

  function HexDigitValue(c: char): nat
    requires IsHexDigit(c)
  {
    if c <= '9' then c as nat - 48 else c as nat - 55
  }

  /** `format(n, "X")`: uppercase hex digits, most significant first, no leading zeros. */
  function Hex(n: nat): (s: string)
    ensures |s| >= 1 && AllHex(s)
  {
    if n < 16 then [HexChar(n)] else Hex(n / 16) + [HexChar(n % 16)]
  }

  function Zeros(n: nat): (s: string)
    ensures |s| == n && forall k :: 0 <= k < n ==> s[k] == '0'
  {
    if n == 0 then "" else Zeros(n - 1) + "0"
  }

  /** `format(n, "08X")`: `Hex(n)` left-padded with zeros to at least 8 characters. */
  function Hex08(n: nat): string {
    var h := Hex(n);
    if |h| >= 8 then h else Zeros(8 - |h|) + h
  }

  /** `int(s, 16)` on a string of hex digits. */
  function HexValue(s: string): nat
    requires AllHex(s)
  {
    if |s| == 0 then 0 else HexValue(s[..|s| - 1]) * 16 + HexDigitValue(s[|s| - 1])
  }

  function Pow16(n: nat): nat {
    if n == 0 then 1 else 16 * Pow16(n - 1)
  }

  lemma {:induction false} Pow16IsPow2(k: nat)
    ensures Pow16(k) == Pow2(4 * k)
  {
    if k > 0 {
      Pow16IsPow2(k - 1);
      Pow2Add(4, 4 * (k - 1));
    }
  }

  lemma WordPowers()
    ensures Pow2(32) == Word && Pow2(64) == Word * Word && Pow16(8) == Word
  {
    assert Pow2(8) == 256;
    Pow2Add(8, 8);
    Pow2Add(16, 16);
    Pow2Add(32, 32);
    Pow16IsPow2(8);
  }

  lemma {:induction false} HexRoundTrip(n: nat)
    ensures HexValue(Hex(n)) == n
  {
    if n >= 16 {
      HexRoundTrip(n / 16);
      var s := Hex(n);
      assert s[..|s| - 1] == Hex(n / 16);
    }
  }

  lemma {:induction false} HexLength(n: nat, k: nat)
    requires 1 <= k && n < Pow16(k)
    ensures |Hex(n)| <= k
  {
    if n >= 16 {
      HexLength(n / 16, k - 1);
    }
  }

  lemma {:induction false} LeadingZeros(z: nat, s: string)
    requires AllHex(s)
    ensures AllHex(Zeros(z) + s) && HexValue(Zeros(z) + s) == HexValue(s)
    decreases |s|
  {
    var t := Zeros(z) + s;
    if |s| == 0 {
      assert t == Zeros(z);
      ZerosValue(z);
    } else {
      LeadingZeros(z, s[..|s| - 1]);
      assert t[..|t| - 1] == Zeros(z) + s[..|s| - 1];
    }
  }

  lemma {:induction false} ZerosValue(z: nat)
    ensures AllHex(Zeros(z)) && HexValue(Zeros(z)) == 0
  {
    if z > 0 {
      ZerosValue(z - 1);
      assert Zeros(z)[..z - 1] == Zeros(z - 1);
    }
  }

  /** A 32-bit word prints as exactly eight hex digits that read back as the word. */
  lemma Hex08RoundTrip(n: nat)
    requires n < Word
    ensures |Hex08(n)| == 8 && AllHex(Hex08(n)) && HexValue(Hex08(n)) == n
  {
    WordPowers();
    HexLength(n, 8);
    HexRoundTrip(n);
    var h := Hex(n);
    if |h| < 8 {
      LeadingZeros(8 - |h|, h);
    }
  }

  /** The text of the two words: `u64 & 0xFFFFFFFF`, then `u64 >> 32`. */
  function FormatUvec2(u64: nat): string {
    "0x" + Hex08(u64 % Word) + ", 0x" + Hex08(u64 / Word)
  }

  /** Reads the two words back and recombines them as `low + high * 2^32`. */
  function ParseUvec2(s: string): Option<nat> {
    if |s| == 22 && s[..2] == "0x" && s[10..14] == ", 0x" && AllHex(s[2..10]) && AllHex(s[14..]) then
      Some(HexValue(s[2..10]) + HexValue(s[14..]) * Word)
    else None
  }

  /** Printing a 64-bit word and parsing the text gives the word back. */
  lemma FormatUvec2RoundTrip(u64: nat)
    requires u64 < Word * Word
    ensures ParseUvec2(FormatUvec2(u64)) == Some(u64)
  {
    var low, high := u64 % Word, u64 / Word;
    var a, b := Hex08(low), Hex08(high);
    assert |a| == 8 && AllHex(a) && HexValue(a) == low by {
      Hex08RoundTrip(low);
    }
    assert |b| == 8 && AllHex(b) && HexValue(b) == high by {
      Hex08RoundTrip(high);
    }
    ParseTwoWords(a, b);
    assert low + high * Word == u64;
  }

  /** Two eight-digit words laid out as `0x<a>, 0x<b>` are read back as `a + b * 2^32`. */
  lemma ParseTwoWords(a: string, b: string)
    requires |a| == 8 && |b| == 8 && AllHex(a) && AllHex(b)
    ensures ParseUvec2("0x" + a + ", 0x" + b) == Some(HexValue(a) + HexValue(b) * Word)
  {
    FourPieces("0x", a, ", 0x", b);
  }

  /** The pieces of `p + a + q + b`, for the widths of the two-word text, are where they were put. */
  lemma FourPieces(p: string, a: string, q: string, b: string)
    requires |p| == 2 && |a| == 8 && |q| == 4 && |b| == 8
    ensures var s := p + a + q + b;
      |s| == 22 && s[..2] == p && s[2..10] == a && s[10..14] == q && s[14..] == b
  {
    var s := p + a + q + b;
    assert s[..2] == p;
    assert s[2..10] == a;
    assert s[10..14] == q;
    assert s[14..] == b;
  }

  /**
   * `encode_bitmap_to_uvec2(bitmap, offset)`: the size check first, then
   * the packing loops (which fail on a buffer shorter than `rows * width`),
   * then the formatting.
   */
  method EncodeBitmapToUvec2(b: Bitmap, offset: nat) returns (r: Result<string, EncodeError>)
    ensures r == Failure(TooLarge) <==> !Fits(b, offset)
    ensures r == Failure(IndexOutOfRange) <==> Fits(b, offset) && |b.buffer| < b.rows * b.width
    ensures r.Success? ==> |b.buffer| >= b.rows * b.width && r.value == FormatUvec2(PackedValue(b, offset))
  {
    if b.rows > 8 || b.width + offset > 8 {
      return Failure(TooLarge);
    }
    if |b.buffer| < b.rows * b.width {
      return Failure(IndexOutOfRange);
    }
    var u64 := PackBitmap(b, offset);
    return Success(FormatUvec2(u64));
  }

  // ---------------------------------------------------------------------
  // read_charset and the hard-coded identifiers
  // ---------------------------------------------------------------------

  /** The first comprehension: the stripped lines that are not blank. */
  function NonBlankLines(lines: seq<string>): (r: seq<string>)
    ensures forall x :: x in r <==> exists l :: l in lines && Strip(l) == x && x != ""
  {
    if |lines| == 0 then []
    else
      var rest := NonBlankLines(lines[1..]);
      assert forall l :: l in lines <==> l == lines[0] || l in lines[1..];
      if Strip(lines[0]) != "" then [Strip(lines[0])] + rest else rest
  }

  /** The second comprehension: the lines that do not start with "#". */
  function UncommentedLines(lines: seq<string>): (r: seq<string>)
    ensures forall x :: x in r <==> x in lines && !StartsWith(x, "#")
  {
    if |lines| == 0 then []
    else
      var rest := UncommentedLines(lines[1..]);
      assert forall l :: l in lines <==> l == lines[0] || l in lines[1..];
      if !StartsWith(lines[0], "#") then [lines[0]] + rest else rest
  }

  /**
   * The first comprehension keeps file order: filtering a concatenation
   * is filtering each part and concatenating the results.
   */
  lemma {:induction false} NonBlankLinesAppend(a: seq<string>, b: seq<string>)
    ensures NonBlankLines(a + b) == NonBlankLines(a) + NonBlankLines(b)
    decreases |a|
  {
    if |a| == 0 {
      assert a + b == b;
    } else {
      assert (a + b)[1..] == a[1..] + b;
      NonBlankLinesAppend(a[1..], b);
    }
  }

  /** The second comprehension keeps file order in the same way. */
  lemma {:induction false} UncommentedLinesAppend(a: seq<string>, b: seq<string>)
    ensures UncommentedLines(a + b) == UncommentedLines(a) + UncommentedLines(b)
    decreases |a|
  {
    if |a| == 0 {
      assert a + b == b;
    } else {
      assert (a + b)[1..] == a[1..] + b;
      UncommentedLinesAppend(a[1..], b);
    }
  }

  /** The lines `read_charset` interprets, in file order. */
  function KeptLines(text: string): seq<string> {
    UncommentedLines(NonBlankLines(Split(text, '\n')))
  }

  /** The character a line defines: its first space-separated token. */
  function LineChar(line: string): string {
    Split(line, ' ')[0]
  }

  /** `"CHAR_"` + the second token, or + the first when there is none. */
  function LineIdentifier(line: string): string {
    var tokens := Split(line, ' ');
    "CHAR_" + if |tokens| > 1 then tokens[1] else tokens[0]
  }

  /** The loop of `read_charset`: each line in turn sets its character's identifier. */
  function Identifiers(lines: seq<string>): map<string, string> {
    if |lines| == 0 then map[]
    else Identifiers(lines[..|lines| - 1])[LineChar(lines[|lines| - 1]) := LineIdentifier(lines[|lines| - 1])]
  }

  /** No later line defines the same character as line `i`. */
  predicate IsLastFor(lines: seq<string>, i: nat)
    requires i < |lines|
  {
    forall j :: i < j < |lines| ==> LineChar(lines[j]) != LineChar(lines[i])
  }

  /**
   * Every line's character is defined, nothing else is, and each
   * character gets the identifier of the last line that defines it.
   */
  lemma {:induction false} IdentifiersSpec(lines: seq<string>)
    ensures Identifiers(lines).Keys == set l | l in lines :: LineChar(l)
    ensures forall i :: 0 <= i < |lines| && IsLastFor(lines, i) ==>
      Identifiers(lines)[LineChar(lines[i])] == LineIdentifier(lines[i])
  {
    if |lines| > 0 {
      var init := lines[..|lines| - 1];
      var last := lines[|lines| - 1];
      IdentifiersSpec(init);
      assert forall l :: l in lines <==> l in init || l == last;
      forall i | 0 <= i < |lines| && IsLastFor(lines, i)
        ensures Identifiers(lines)[LineChar(lines[i])] == LineIdentifier(lines[i])
      {
        if i < |lines| - 1 {
          assert lines[i] == init[i];
          assert IsLastFor(init, i);
        }
      }
    }
  }

  /** `read_charset` on the decoded file contents. */
  function ReadCharset(text: string): map<string, string> {
    Identifiers(KeptLines(text))
  }

  /**
   * Which lines count: a line is interpreted iff it is non-blank after
   * stripping "\n", "\t" and " ", and its stripped text does not start
   * with "#"; what is interpreted is the stripped text.
   */
  lemma KeptLinesSpec(text: string, x: string)
    ensures x in KeptLines(text) <==>
      exists l :: l in Split(text, '\n') && Strip(l) == x && x != "" && !StartsWith(x, "#")
  {
  }

  /** A line of the file that `read_charset` interprets: non-blank once stripped, and not a comment. */
  predicate IsKeptLine(l: string) {
    Strip(l) != "" && !StartsWith(Strip(l), "#")
  }

  /**
   * Last wins over the file itself: the character defined by line `i` of
   * the file gets that line's identifier when no later interpreted line
   * of the file defines the same character.
   */
  lemma ReadCharsetLastLine(text: string, lines: seq<string>, i: nat)
    requires lines == Split(text, '\n')
    requires i < |lines| && IsKeptLine(lines[i])
    requires forall j :: i < j < |lines| && IsKeptLine(lines[j]) ==> LineChar(Strip(lines[j])) != LineChar(Strip(lines[i]))
    ensures LineChar(Strip(lines[i])) in ReadCharset(text)
    ensures ReadCharset(text)[LineChar(Strip(lines[i]))] == LineIdentifier(Strip(lines[i]))
  {
    LastKeptLineWins(lines, i);
  }

  /** `ReadCharsetLastLine` over the file's lines, whatever the text they came from. */
  lemma LastKeptLineWins(lines: seq<string>, i: nat)
    requires i < |lines| && IsKeptLine(lines[i])
    requires forall j :: i < j < |lines| && IsKeptLine(lines[j]) ==> LineChar(Strip(lines[j])) != LineChar(Strip(lines[i]))
    ensures LineChar(Strip(lines[i])) in Identifiers(UncommentedLines(NonBlankLines(lines)))
    ensures Identifiers(UncommentedLines(NonBlankLines(lines)))[LineChar(Strip(lines[i]))] == LineIdentifier(Strip(lines[i]))
  {
    var x := Strip(lines[i]);
    var pre, post := lines[..i], lines[i + 1..];
    var kPre, kPost := UncommentedLines(NonBlankLines(pre)), UncommentedLines(NonBlankLines(post));
    SplitAround(lines, i);
    KeptAround(pre, lines[i], post);
    KeptLinesDiffer(lines, i, x);
    IdentifiersLastAround(kPre, x, kPost);
  }

  /** A sequence is what comes before index `i`, the element there, and what follows. */
  lemma SplitAround<T>(s: seq<T>, i: nat)
    requires i < |s|
    ensures s == s[..i] + [s[i]] + s[i + 1..]
  {
  }

  /** Interpreted lines after line `i` all differ in character from `x` when the raw lines do. */
  lemma KeptLinesDiffer(lines: seq<string>, i: nat, x: string)
    requires i < |lines|
    requires forall j :: i < j < |lines| && IsKeptLine(lines[j]) ==> LineChar(Strip(lines[j])) != LineChar(x)
    ensures forall y :: y in UncommentedLines(NonBlankLines(lines[i + 1..])) ==> LineChar(y) != LineChar(x)
  {
    var post := lines[i + 1..];
    forall y | y in UncommentedLines(NonBlankLines(post))
      ensures LineChar(y) != LineChar(x)
    {
      var m := KeptLineSource(post, y);
      assert post[m] == lines[i + 1 + m];
    }
  }

  /** The index of a raw line an interpreted line comes from. */
  lemma KeptLineSource(lines: seq<string>, y: string) returns (m: nat)
    requires y in UncommentedLines(NonBlankLines(lines))
    ensures m < |lines| && IsKeptLine(lines[m]) && Strip(lines[m]) == y
  {
    var l :| l in lines && Strip(l) == y && y != "";
    m :| m < |lines| && lines[m] == l;
  }

  /** The interpreted lines around one interpreted line, in order. */
  lemma KeptAround(pre: seq<string>, l: string, post: seq<string>)
    requires IsKeptLine(l)
    ensures UncommentedLines(NonBlankLines(pre + [l] + post))
      == UncommentedLines(NonBlankLines(pre)) + [Strip(l)] + UncommentedLines(NonBlankLines(post))
  {
    NonBlankLinesAppend(pre + [l], post);
    NonBlankLinesAppend(pre, [l]);
    assert NonBlankLines([l]) == [Strip(l)];
    UncommentedLinesAppend(NonBlankLines(pre) + [Strip(l)], NonBlankLines(post));
    UncommentedLinesAppend(NonBlankLines(pre), [Strip(l)]);
    assert UncommentedLines([Strip(l)]) == [Strip(l)];
  }

  /** A line no later line redefines sets its character's identifier. */
  lemma IdentifiersLastAround(pre: seq<string>, x: string, post: seq<string>)
    requires forall y :: y in post ==> LineChar(y) != LineChar(x)
    ensures LineChar(x) in Identifiers(pre + [x] + post)
    ensures Identifiers(pre + [x] + post)[LineChar(x)] == LineIdentifier(x)
  {
    var kept := pre + [x] + post;
    var k := |pre|;
    assert kept[k] == x;
    assert IsLastFor(kept, k) by {
      forall j | k < j < |kept|
        ensures LineChar(kept[j]) != LineChar(x)
      {
        assert kept[j] == post[j - k - 1];
      }
    }
    IdentifiersSpec(kept);
  }

  /** A kept line's character is a non-empty token without spaces that is not "#". */
  lemma KeptLineChar(line: string)
    requires line != "" && !StartsWith(line, "#") && !IsBlank(line[0])
    ensures LineChar(line) != "" && ' ' !in LineChar(line) && LineChar(line) != "#"
  {
    SplitHead(line, ' ');
    if |Split(line, ' ')| == 1 {
      JoinSplit(line, ' ');
    }
  }

  /** Every character read from a charset file is neither "#" nor " ". */
  lemma CharsetKeys(text: string)
    ensures "#" !in ReadCharset(text) && " " !in ReadCharset(text)
  {
    var lines := KeptLines(text);
    IdentifiersSpec(lines);
    forall l | l in lines
      ensures LineChar(l) != "#" && LineChar(l) != " "
    {
      KeptLinesSpec(text, l);
      var src :| src in Split(text, '\n') && Strip(src) == l && l != "" && !StartsWith(l, "#");
      KeptLineChar(l);
    }
  }

  /** The hard-coded identifiers set after reading the file. */
  function WithOverrides(m: map<string, string>): map<string, string> {
    m["#" := "CHAR_HASH"][" " := "CHAR_SPACE"]
  }

  /**
   * The hard-coded identifiers always map "#" and " ", and — since no
   * charset line can define either character — they only add to what
   * the file defines.
   */
  lemma OverridesOnlyAdd(text: string)
    ensures var m := ReadCharset(text);
      var full := WithOverrides(m);
      && full["#"] == "CHAR_HASH" && full[" "] == "CHAR_SPACE"
      && full.Keys == m.Keys + {"#", " "}
      && |full| == |m| + 2
      && forall c :: c in m ==> full[c] == m[c]
  {
    CharsetKeys(text);
    OverridesExtend(ReadCharset(text));
  }

  lemma OverridesExtend(m: map<string, string>)
    requires "#" !in m && " " !in m
    ensures var full := WithOverrides(m);
      && full.Keys == m.Keys + {"#", " "}
      && |full| == |m| + 2
      && forall c :: c in m ==> full[c] == m[c]
  {
    var m1 := m["#" := "CHAR_HASH"];
    assert |m1| == |m| + 1;
    assert " " !in m1;
  }
}
