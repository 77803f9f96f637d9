/**
 * The expression-like helpers of Adafruit_Thermal.cpp: argument clamps of the
 * command encoder, the justify and setSize mappings, the text metrics implied
 * by the print-mode bits, the line-height split and the tab-stop rounding.
 */
module Commands {
  import opened Ints

  /** C `toupper` on ASCII. */
  function ToUpper(c: char): char
  {
    if 'a' <= c <= 'z' then (c as int - 32) as char else c
  }

  /** justify: 'L'/'l' -> 0, 'C'/'c' -> 1, 'R'/'r' -> 2, anything else -> 0. */
  function JustifyPos(value: char): (pos: uint8)
    ensures pos <= 2
    ensures pos == 1 <==> ToUpper(value) == 'C'
    ensures pos == 2 <==> ToUpper(value) == 'R'
  {
    match ToUpper(value)
    case 'L' => 0
    case 'C' => 1
    case 'R' => 2
    case _ => 0
  }

  /** The GS '!' size byte and the text metrics setSize records. */
  datatype SizeSetting = SizeSetting(size: uint8, charHeight: uint8, maxColumn: uint8)

  function SizeFor(value: char): SizeSetting
  {
    match ToUpper(value)
    case 'M' => SizeSetting(0x01, 48, 32)
    case 'L' => SizeSetting(0x11, 48, 16)
    case _ => SizeSetting(0x00, 24, 32)
  }

  /**
   * The metrics setSize records agree with the size byte it sends: the low
   * nibble doubles the height, the high nibble doubles the width.
   */
  lemma SizeMetricsMatchSizeByte(value: char)
    ensures var s := SizeFor(value);
            && (s.charHeight == 48 <==> s.size % 16 == 1)
            && (s.maxColumn == 16 <==> s.size / 16 == 1)
            && (s.charHeight == 48 <==> ToUpper(value) in {'M', 'L'})
            && (s.maxColumn == 16 <==> ToUpper(value) == 'L')
  {
  }

  // Print-mode bits of ESC '!'.
  const UPDOWN_MASK: bv8 := 1 << 2
  const BOLD_MASK: bv8 := 1 << 3
  const DOUBLE_HEIGHT_MASK: bv8 := 1 << 4
  const DOUBLE_WIDTH_MASK: bv8 := 1 << 5
  const STRIKE_MASK: bv8 := 1 << 6

  /** Character height implied by a print-mode byte. */
  function ModeCharHeight(mode: bv8): (h: uint8)
    ensures h == 48 <==> mode & DOUBLE_HEIGHT_MASK != 0
    ensures h == 24 <==> mode & DOUBLE_HEIGHT_MASK == 0
  {
    if mode & DOUBLE_HEIGHT_MASK != 0 then 48 else 24
  }

  /** Page width in columns implied by a print-mode byte. */
  function ModeMaxColumn(mode: bv8): (w: uint8)
    ensures w == 16 <==> mode & DOUBLE_WIDTH_MASK != 0
    ensures w == 32 <==> mode & DOUBLE_WIDTH_MASK == 0
  {
    if mode & DOUBLE_WIDTH_MASK != 0 then 16 else 32
  }

  /**
   * setPrintMode(m) followed by unsetPrintMode(m) leaves the metrics where they
   * were when none of m's bits was set before; and the double-height bit
   * affects only the height, the double-width bit only the width.
   */
  lemma PrintModeRoundTrip(mode: bv8, mask: bv8)
    requires mode & mask == 0
    ensures ModeCharHeight((mode | mask) & !mask) == ModeCharHeight(mode)
    ensures ModeMaxColumn((mode | mask) & !mask) == ModeMaxColumn(mode)
    ensures ModeCharHeight(mode | DOUBLE_WIDTH_MASK) == ModeCharHeight(mode)
    ensures ModeMaxColumn(mode | DOUBLE_HEIGHT_MASK) == ModeMaxColumn(mode)
  {
    assert (mode | mask) & !mask == mode;
  }

  /** Turning the upside-down, bold or strike-through style on or off leaves the text metrics alone. */
  lemma StyleBitsKeepMetrics(mode: bv8, mask: bv8)
    requires mask == UPDOWN_MASK || mask == BOLD_MASK || mask == STRIKE_MASK
    ensures ModeCharHeight(mode | mask) == ModeCharHeight(mode) && ModeMaxColumn(mode | mask) == ModeMaxColumn(mode)
    ensures ModeCharHeight(mode & !mask) == ModeCharHeight(mode) && ModeMaxColumn(mode & !mask) == ModeMaxColumn(mode)
  {
  }

  /** setLineHeight: the inter-line spacing kept for timing (heights below 24 count as 24). */
  function LineSpacingFor(val: int): (r: uint8)
    ensures val <= 24 ==> r == 0
    ensures 24 <= val < 280 ==> r == val - 24
  {
    Wrap8((if val < 24 then 24 else val) - 24)
  }

  /** setLineHeight: the parameter byte of ESC '3' (the clamped height, truncated to 8 bits). */
  function LineHeightParam(val: int): (r: uint8)
    ensures val <= 24 ==> r == 24
    ensures 24 <= val < 256 ==> r == val
  {
    Wrap8(if val < 24 then 24 else val)
  }

  /** For heights the printer can represent the recorded spacing is the sent height minus 24. */
  lemma LineHeightConsistent(val: int)
    requires val < 256
    ensures LineHeightParam(val) == 24 + LineSpacingFor(val)
  {
  }

  /** From 256 upward the two truncate differently: the timing model drifts from the printer. */
  lemma LineHeightDesync()
    ensures LineHeightParam(260) == 4 && LineSpacingFor(260) == 236
  {
  }

  /** tab: `(column + 4) & 0b11111100` keeps bits 2..7 of the advanced column. */
  function TabStop(col: uint8): (r: uint8)
    ensures r % 4 == 0
    ensures col <= 251 ==> col < r <= col + 4
  {
    var x := (col + 4) % 256;
    x - x % 4
  }

  /** setBarcodeHeight: at least 1 dot. */
  function BarcodeHeightClamp(val: uint8): (r: uint8)
    ensures 1 <= r
    ensures val >= 1 ==> r == val
    ensures val < 1 ==> r == 1
  {
    if val < 1 then 1 else val
  }

  /** underlineOn: weights above 2 become 2 (thick). */
  function UnderlineClamp(weight: uint8): (r: uint8)
    ensures r <= 2
    ensures weight <= 2 ==> r == weight
    ensures weight > 2 ==> r == 2
  {
    if weight > 2 then 2 else weight
  }

  /** setCharset: character sets 0..15. */
  function CharsetClamp(val: uint8): (r: uint8)
    ensures r <= 15
    ensures val <= 15 ==> r == val
    ensures val > 15 ==> r == 15
  {
    if val > 15 then 15 else val
  }

  /** setCodePage: code pages 0..47. */
  function CodePageClamp(val: uint8): (r: uint8)
    ensures r <= 47
    ensures val <= 47 ==> r == val
    ensures val > 47 ==> r == 47
  {
    if val > 47 then 47 else val
  }

  /** printBarcode: the length byte covers at most 255 characters. */
  function BarcodeLength(len: nat): (r: uint8)
    ensures r <= len
    ensures len <= 255 ==> r == len
    ensures len > 255 ==> r == 255
  {
    if len > 255 then 255 else len
  }

  /** printQRcode: model 49..51 (Model 1, Model 2, Micro); anything else selects Model 2. */
  function QRModel(model: uint8): (r: uint8)
    ensures 49 <= r <= 51
    ensures 49 <= model <= 51 ==> r == model
    ensures !(49 <= model <= 51) ==> r == 50
  {
    if model < 49 || model > 51 then 50 else model
  }

  /** printQRcode: module size 1..16 dots; anything else selects 3. */
  function QRModuleSize(moduleSize: uint8): (r: uint8)
    ensures 1 <= r <= 16
    ensures 1 <= moduleSize <= 16 ==> r == moduleSize
    ensures !(1 <= moduleSize <= 16) ==> r == 3
  {
    if moduleSize < 1 || moduleSize > 16 then 3 else moduleSize
  }

  /** printQRcode: error-correction level 48..51 (L, M, Q, H); anything else selects L. */
  function QRErrCorrect(errCorrect: uint8): (r: uint8)
    ensures 48 <= r <= 51
    ensures 48 <= errCorrect <= 51 ==> r == errCorrect
    ensures !(48 <= errCorrect <= 51) ==> r == 48
  {
    if errCorrect < 48 || errCorrect > 51 then 48 else errCorrect
  }

  /**
   * The byte sequence printQRcode sends for a text of byte length `len`
   * (followed by the text itself and reprintQRcode's print command).
   */
  function QRPrefix(len: nat, errCorrect: uint8, moduleSize: uint8, model: uint8): seq<uint8>
    requires len < 0x1_0000
  {
    [GS, '(' as int, 'k' as int, 4, 0, 49, 65, QRModel(model), 0]
    + [GS, '(' as int, 'k' as int, 3, 0, 49, 67, QRModuleSize(moduleSize)]
    + [GS, '(' as int, 'k' as int, 3, 0, 49, 69, QRErrCorrect(errCorrect)]
    + [GS, '(' as int, 'k' as int, Wrap8((len + 3) % 256), Wrap8((len + 3) / 256), 49, 80, 48]
  }

  /** reprintQRcode: print the stored symbol. */
  const QRPrint: seq<uint8> := [GS, '(' as int, 'k' as int, 3, 0, 49, 81, 48]

  /**
   * The parameter count of the store command (pL + 256 pH) is the text length
   * plus the three bytes 49 80 48 that precede the text.
   */
  lemma QRStoreLength(len: nat, errCorrect: uint8, moduleSize: uint8, model: uint8)
    requires len + 3 < 0x1_0000
    ensures var p := QRPrefix(len, errCorrect, moduleSize, model);
            |p| == 33 && p[28] as int + 256 * (p[29] as int) == len + 3
  {
  }
}
