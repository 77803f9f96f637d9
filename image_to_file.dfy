/**
 * python/image_to_file.py: packs a 1-bit image into the row-major byte
 * layout printBitmap expects (8 pixels per byte, leftmost pixel in the
 * most significant bit, rows padded to whole bytes with white) and formats
 * those bytes as the body of a C array, twelve per line.
 */
module ImageToFile {
  import opened Ints
  import opened Chunking

  /**
   * A converted image: `pixels[y][x]` is the value PIL returns for pixel
   * (x, y) of a mode '1' image, 0 for black and non-zero for white.
   */
  datatype Image = Image(width: nat, height: nat, pixels: seq<seq<int>>)

  predicate WellFormed(img: Image)
  {
    |img.pixels| == img.height && forall y :: 0 <= y < img.height ==> |img.pixels[y]| == img.width
  }

  /** `math.ceil(img.width / 8)`: bytes per row. */
  function Chunks(width: nat): nat
  {
    (width + 7) / 8
  }

  /** The byte layout of the packer is the one printBitmap reads: its row width is rowBytes. */
  lemma ChunksMatchRowBytes(width: nat)
    ensures Chunks(width) == RowBytes(width)
    ensures 8 * Chunks(width) >= width && 8 * (Chunks(width) - 1) < width
  {
  }

  /**
   * The bit set for pixel (x, y): `int(not p)` where p is the pixel inside
   * the image and 1 (white) to the right of it.
   */
  function Ink(img: Image, x: nat, y: nat): bv8
    requires WellFormed(img) && y < img.height
  {
    if x < img.width && img.pixels[y][x] == 0 then 1 else 0
  }

  /** The mask of bit 7 - k, the position of the k-th pixel of a chunk. */
  function Weight(k: nat): bv8
    requires k < 8
  {
    if k == 0 then 0x80 else if k == 1 then 0x40 else if k == 2 then 0x20 else if k == 3 then 0x10
    else if k == 4 then 0x08 else if k == 5 then 0x04 else if k == 6 then 0x02 else 0x01
  }

  /** `p << (7 - shift)` for a pixel bit p: the mask of the shift-th pixel, or nothing. */
  lemma ShiftIsWeight(p: bv8, shift: nat)
    requires p <= 1 && shift < 8
    ensures p << (7 - shift) == if p == 1 then Weight(shift) else 0
  {
  }

  /** The masks of different pixels of a chunk do not overlap. */
  lemma WeightsDisjoint(k: nat, s: nat)
    requires k < 8 && s < 8
    ensures Weight(k) & Weight(s) != 0 <==> k == s
  {
  }

  /** The value of `byte` after the first n passes of the shift loop for the chunk starting at `start`. */
  function PackBits(img: Image, y: nat, start: nat, n: nat): bv8
    requires WellFormed(img) && y < img.height && n <= 8
    decreases n
  {
    if n == 0 then 0
    else PackBits(img, y, start, n - 1) | (if Ink(img, start + n - 1, y) == 1 then Weight(n - 1) else 0)
  }

  /** The byte appended for chunk c of row y. */
  function PackedByte(img: Image, y: nat, c: nat): bv8
    requires WellFormed(img) && y < img.height
  {
    PackBits(img, y, c * 8, 8)
  }

  /**
   * After n passes the mask of pixel s is set exactly when s < n and that
   * pixel is black: the bits of the pixels still to come are clear.
   */
  lemma {:induction false} PackBitsBit(img: Image, y: nat, start: nat, n: nat, s: nat)
    requires WellFormed(img) && y < img.height && n <= 8 && s < 8
    ensures PackBits(img, y, start, n) & Weight(s) != 0 <==> s < n && Ink(img, start + s, y) == 1
    decreases n
  {
    if n > 0 {
      var prev := PackBits(img, y, start, n - 1);
      PackBitsBit(img, y, start, n - 1, s);
      StepBit(prev, Ink(img, start + n - 1, y), n - 1, s);
    }
  }

  /** ORing in the mask of pixel k sets the mask of pixel s exactly when k == s. */
  lemma StepBit(prev: bv8, ink: bv8, k: nat, s: nat)
    requires k < 8 && s < 8
    ensures (prev | (if ink == 1 then Weight(k) else 0)) & Weight(s) != 0
            <==> prev & Weight(s) != 0 || (k == s && ink == 1)
  {
    WeightsDisjoint(k, s);
    var add: bv8 := if ink == 1 then Weight(k) else 0;
    assert (prev | add) & Weight(s) == (prev & Weight(s)) | (add & Weight(s));
  }

  /**
   * The byte for chunk c of row y holds pixel (8c + s, y) in bit 7 - s: the
   * leftmost pixel in the most significant bit, black as 1, and white
   * padding past the right edge.
   */
  lemma PackedByteBits(img: Image, y: nat, c: nat, s: nat)
    requires WellFormed(img) && y < img.height && s < 8
    ensures PackedByte(img, y, c) & Weight(s) != 0 <==> c * 8 + s < img.width && img.pixels[y][c * 8 + s] == 0
  {
    PackBitsBit(img, y, c * 8, 8, s);
    assert Ink(img, c * 8 + s, y) == 1 <==> c * 8 + s < img.width && img.pixels[y][c * 8 + s] == 0;
  }

  /** The bytes for the first n chunks of row y. */
  function RowPack(img: Image, y: nat, n: nat): seq<uint8>
    requires WellFormed(img) && y < img.height
    decreases n
  {
    if n == 0 then [] else RowPack(img, y, n - 1) + [PackedByte(img, y, n - 1) as uint8]
  }

  /** The bytes for the first `rows` rows. */
  function ImageRows(img: Image, rows: nat): seq<uint8>
    requires WellFormed(img) && rows <= img.height
    decreases rows
  {
    if rows == 0 then [] else ImageRows(img, rows - 1) + RowPack(img, rows - 1, Chunks(img.width))
  }

  /** `img_bytes` once the packing loops are done. */
  function ImageBytes(img: Image): seq<uint8>
    requires WellFormed(img)
  {
    ImageRows(img, img.height)
  }

  lemma {:induction false} RowPackAt(img: Image, y: nat, n: nat, c: nat)
    requires WellFormed(img) && y < img.height && c < n
    ensures |RowPack(img, y, n)| == n
    ensures RowPack(img, y, n)[c] as bv8 == PackedByte(img, y, c)
    decreases n
  {
    RowPackLength(img, y, n - 1);
    if c < n - 1 {
      RowPackAt(img, y, n - 1, c);
    } else {
      ByteRoundTrip(PackedByte(img, y, c));
    }
  }

  lemma {:induction false} RowPackLength(img: Image, y: nat, n: nat)
    requires WellFormed(img) && y < img.height
    ensures |RowPack(img, y, n)| == n
    decreases n
  {
    if n > 0 {
      RowPackLength(img, y, n - 1);
    }
  }

  lemma {:induction false} ImageRowsLength(img: Image, rows: nat)
    requires WellFormed(img) && rows <= img.height
    ensures |ImageRows(img, rows)| == rows * Chunks(img.width)
    decreases rows
  {
    if rows > 0 {
      ImageRowsLength(img, rows - 1);
      RowPackLength(img, rows - 1, Chunks(img.width));
      MulStep(rows - 1, Chunks(img.width));
    }
  }

  /**
   * The packed image has height * Chunks(width) bytes, and the byte at
   * y * Chunks(width) + c is byte c of row y: row-major order, exactly the
   * indexing of printBitmap's row loops.
   */
  lemma {:induction false} ImageRowsAt(img: Image, rows: nat, y: nat, c: nat)
    requires WellFormed(img) && y < rows <= img.height && c < Chunks(img.width)
    ensures |ImageRows(img, rows)| == rows * Chunks(img.width)
    ensures y * Chunks(img.width) + c < |ImageRows(img, rows)|
    ensures |RowPack(img, y, Chunks(img.width))| == Chunks(img.width)
    ensures ImageRows(img, rows)[y * Chunks(img.width) + c] == RowPack(img, y, Chunks(img.width))[c]
    decreases rows
  {
    var C := Chunks(img.width);
    ImageRowsLength(img, rows);
    ImageRowsLength(img, rows - 1);
    RowPackLength(img, y, C);
    MulStep(rows - 1, C);
    if y < rows - 1 {
      ImageRowsAt(img, rows - 1, y, c);
      MulMono(y + 1, rows - 1, C);
      MulStep(y, C);
    }
  }

  /** Byte c of row y holds pixel (8c + s, y) in bit 7 - s. */
  lemma RowPackBits(img: Image, y: nat, n: nat, c: nat, s: nat)
    requires WellFormed(img) && y < img.height && c < n && s < 8
    ensures |RowPack(img, y, n)| == n
    ensures (RowPack(img, y, n)[c] as bv8) & Weight(s) != 0
            <==> c * 8 + s < img.width && img.pixels[y][c * 8 + s] == 0
  {
    RowPackAt(img, y, n, c);
    PackedByteBits(img, y, c, s);
  }

  /**
   * What the packer produces for a whole image: height * Chunks(width)
   * bytes (Chunks is printBitmap's rowBytes), and pixel (8c + s, y) is bit
   * 7 - s of byte y * Chunks(width) + c, set exactly when the pixel is black.
   */
  lemma ImageBytesLayout(img: Image, y: nat, c: nat, s: nat)
    requires WellFormed(img) && y < img.height && s < 8 && c * 8 + s < img.width
    ensures |ImageBytes(img)| == img.height * Chunks(img.width)
    ensures y * Chunks(img.width) + c < |ImageBytes(img)|
    ensures (ImageBytes(img)[y * Chunks(img.width) + c] as bv8) & Weight(s) != 0 <==> img.pixels[y][c * 8 + s] == 0
  {
    assert c < Chunks(img.width);
    ImageRowsAt(img, img.height, y, c);
    RowPackBits(img, y, Chunks(img.width), c, s);
  }

  lemma ByteRoundTrip(b: bv8)
    ensures (b as uint8) as bv8 == b
  {
  }

  /** One pass of the shift loop ORs the next pixel's bit into the byte. */
  lemma PackStep(img: Image, y: nat, start: nat, shift: nat, b: bv8, ink: bv8)
    requires WellFormed(img) && y < img.height && shift < 8
    requires b == PackBits(img, y, start, shift)
    requires ink == Ink(img, start + shift, y)
    ensures b | (ink << (7 - shift)) == PackBits(img, y, start, shift + 1)
  {
    ShiftIsWeight(ink, shift);
  }

  /** The shift loop for the chunk starting at pixel `start` of row y. */
  method PackChunk(img: Image, y: nat, start: nat) returns (b: bv8)
    requires WellFormed(img) && y < img.height
    ensures b == PackBits(img, y, start, 8)
  {
    b := 0;
    var shift := 0;
    while shift < 8
      invariant shift <= 8
      invariant b == PackBits(img, y, start, shift)
    {
      var x := start + shift;
      var p := if x < img.width then img.pixels[y][x] else 1;
      var ink: bv8 := if p == 0 then 1 else 0;
      PackStep(img, y, start, shift, b, ink);
      b := b | (ink << (7 - shift));
      shift := shift + 1;
    }
  }

  /**
   * The packing loops: for each row, for each chunk of 8 pixels, OR the
   * inverted pixels in from the most significant bit down, then append.
   */
  method PackImage(img: Image) returns (bytes: seq<uint8>)
    requires WellFormed(img)
    ensures bytes == ImageBytes(img)
  {
    bytes := [];
    var y := 0;
    while y < img.height
      invariant y <= img.height
      invariant bytes == ImageRows(img, y)
    {
      var row := PackRow(img, y);
      bytes := bytes + row;
      y := y + 1;
    }
  }

  /** The chunk loop for row y: one byte per 8 pixels, left to right. */
  method PackRow(img: Image, y: nat) returns (row: seq<uint8>)
    requires WellFormed(img) && y < img.height
    ensures row == RowPack(img, y, Chunks(img.width))
  {
    var chunks := Chunks(img.width);
    row := [];
    var chunk := 0;
    while chunk < chunks
      invariant chunk <= chunks
      invariant row == RowPack(img, y, chunk)
    {
      var b := PackChunk(img, y, chunk * 8);
      row := row + [b as uint8];
      chunk := chunk + 1;
    }
  }

  /** Python's `{:x}` digit: lower case. */
  function HexDigit(d: nat): (c: char)
    requires d < 16
    ensures '0' <= c <= '9' || 'a' <= c <= 'f'
  {
    if d < 10 then ('0' as int + d) as char else ('a' as int + d - 10) as char
  }

  /** `"0x{:02x}, ".format(b)`. */
  function HexEntry(b: uint8): (s: seq<char>)
    ensures |s| == 6
  {
    ['0', 'x', HexDigit(b / 16), HexDigit(b % 16), ',', ' ']
  }

  /**
   * The text the formatting loop writes for `bs` when `rowCount` entries are
   * already on the current line: an entry per byte, and a line break after
   * each twelfth entry of a line.
   */
  function Formatted(bs: seq<uint8>, rowCount: nat): seq<char>
    decreases |bs|
  {
    if bs == [] then []
    else if rowCount + 1 >= 12 then HexEntry(bs[0]) + ['\n'] + Formatted(bs[1..], 0)
    else HexEntry(bs[0]) + Formatted(bs[1..], rowCount + 1)
  }

  /** The formatting loop over `img_bytes`, with its `row_count`. */
  method FormatData(bs: seq<uint8>) returns (text: seq<char>)
    ensures text == Formatted(bs, 0)
  {
    text := [];
    var rowCount := 0;
    var i := 0;
    while i < |bs|
      invariant i <= |bs|
      invariant text + Formatted(bs[i..], rowCount) == Formatted(bs, 0)
    {
      assert bs[i..][1..] == bs[i + 1..];
      text := text + HexEntry(bs[i]);
      rowCount := rowCount + 1;
      if rowCount >= 12 {
        text := text + ['\n'];
        rowCount := 0;
      }
      i := i + 1;
    }
  }

  function HexValue(c: char): nat
  {
    if '0' <= c <= '9' then c as int - '0' as int
    else if 'a' <= c <= 'f' then c as int - 'a' as int + 10
    else 0
  }

  /** Reads the array body back: six characters per entry, line breaks skipped. */
  function Parse(text: seq<char>): seq<int>
    decreases |text|
  {
    if |text| < 6 then []
    else
      var rest := text[6..];
      [HexValue(text[2]) * 16 + HexValue(text[3])] + Parse(if rest != [] && rest[0] == '\n' then rest[1..] else rest)
  }

  lemma HexEntryValue(b: uint8)
    ensures HexValue(HexEntry(b)[2]) * 16 + HexValue(HexEntry(b)[3]) == b
  {
  }

  /** The formatted text holds the bytes, in order, and nothing else. */
  lemma {:induction false} ParseFormatted(bs: seq<uint8>, rowCount: nat)
    ensures Parse(Formatted(bs, rowCount)) == bs
    decreases |bs|
  {
    if bs != [] {
      var next := if rowCount + 1 >= 12 then 0 else rowCount + 1;
      var tail := Formatted(bs[1..], next);
      ParseFormatted(bs[1..], next);
      TextStartsWithDigit(bs[1..], next);
      if rowCount + 1 >= 12 {
        ParseEntry(bs[0], ['\n'] + tail);
        assert HexEntry(bs[0]) + ['\n'] + tail == HexEntry(bs[0]) + (['\n'] + tail);
      } else {
        ParseEntry(bs[0], tail);
      }
      assert bs == [bs[0]] + bs[1..];
    }
  }

  /** One entry, then a line break or the next entry (or nothing). */
  lemma ParseEntry(b: uint8, rest: seq<char>)
    ensures Parse(HexEntry(b) + rest) == [b as int] + Parse(if rest != [] && rest[0] == '\n' then rest[1..] else rest)
  {
    var e := HexEntry(b);
    var t := e + rest;
    assert |t| >= 6 && t[6..] == rest;
    assert t[2] == e[2] && t[3] == e[3];
    HexEntryValue(b);
    var v := HexValue(e[2]) * 16 + HexValue(e[3]);
    assert Parse(t) == [v] + Parse(if rest != [] && rest[0] == '\n' then rest[1..] else rest);
  }

  lemma TextStartsWithDigit(bs: seq<uint8>, rowCount: nat)
    ensures Formatted(bs, rowCount) == [] || Formatted(bs, rowCount)[0] == '0'
  {
  }

  /** Twelve entries per line: the text has 6 characters per byte plus one line break per completed line. */
  lemma {:induction false} FormattedLength(bs: seq<uint8>, rowCount: nat)
    requires rowCount < 12
    ensures |Formatted(bs, rowCount)| == 6 * |bs| + (rowCount + |bs|) / 12
    decreases |bs|
  {
    if bs != [] {
      if rowCount + 1 >= 12 {
        FormattedLength(bs[1..], 0);
        assert (rowCount + |bs|) / 12 == 1 + (|bs| - 1) / 12;
      } else {
        FormattedLength(bs[1..], rowCount + 1);
      }
    }
  }
}
