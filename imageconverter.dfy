/**
 * The desktop converter that turns a picture into what the 960 x 540 e-paper
 * panel shows: the picture is shrunk to fit (the imaging library's part, here an
 * input), centred on a canvas of the panel's size, and either quantised to 16
 * grey levels and packed two pixels per byte into a raw frame, or kept as an
 * 8-bit image for a bitmap file. A folder is converted file by file.
 *
 * Images are rows of pixel values; `IsGrid` fixes their shape. The packing loop
 * keeps the source's form, a nested loop writing a two-dimensional array in
 * place, and is proved against the row functions `PackRow`/`UnpackRow`.
 */
module ImageConverter {
  import opened Wrappers

  /** Panel width in pixels. */
  const EpdWidth: nat := 960
  /** Panel height in pixels. */
  const EpdHeight: nat := 540

  type Byte = x: int | 0 <= x < 256
  type Nibble = x: int | 0 <= x < 16

  /** Background of the raw frame's canvas: black. */
  const RawBackground: Byte := 0
  /** Background of the bitmap's canvas: white. */
  const BitmapBackground: Byte := 255

  /** `img` has `height` rows of `width` pixels each. */
  predicate IsGrid<T>(img: seq<seq<T>>, height: int, width: int)
  {
    |img| == height && forall y | 0 <= y < |img| :: |img[y]| == width
  }

  // ---------------------------------------------------------------- one pixel, one byte

  /** `v >> 4` on an 8-bit value: the grey level's 16-step band. */
  function Quantize(v: Byte): (n: Nibble)
    ensures 16 * n <= v < 16 * n + 16
  {
    v / 16
  }

  /** `b >> 4`: the left pixel of a packed byte. */
  function High(b: Byte): Nibble
  {
    b / 16
  }

  /** `b & 15`: the right pixel of a packed byte. */
  function Low(b: Byte): Nibble
  {
    b % 16
  }

  /** `(hi << 4) | lo`: both nibbles fit in one byte and can be read back. */
  function PackByte(hi: Nibble, lo: Nibble): (b: Byte)
    ensures High(b) == hi && Low(b) == lo
  {
    hi * 16 + lo
  }

  /** Every byte is the packing of its two nibbles, so packing is a bijection. */
  lemma PackByteOfParts(b: Byte)
    ensures PackByte(High(b), Low(b)) == b
  {
  }

  /** Black stays black and white becomes the lightest level. */
  lemma QuantizeExtremes()
    ensures Quantize(RawBackground) == 0 && Quantize(BitmapBackground) == 15
    ensures PackByte(Quantize(RawBackground), Quantize(RawBackground)) == 0
  {
  }

  // ---------------------------------------------------------------- rows and frames

  /** Packs a row of even length: byte `c` holds pixel `2c` high and pixel `2c + 1` low. */
  function PackRow(row: seq<Nibble>): (packed: seq<Byte>)
    requires |row| % 2 == 0
    ensures |packed| == |row| / 2
    ensures forall c | 0 <= c < |packed| :: packed[c] == PackByte(row[2 * c], row[2 * c + 1])
    decreases |row|
  {
    if |row| == 0 then [] else [PackByte(row[0], row[1])] + PackRow(row[2..])
  }

  /** Splits every byte into its high and then its low nibble. */
  function UnpackRow(packed: seq<Byte>): (row: seq<Nibble>)
    ensures |row| == 2 * |packed|
    ensures forall c | 0 <= c < |packed| :: row[2 * c] == High(packed[c]) && row[2 * c + 1] == Low(packed[c])
    decreases |packed|
  {
    if |packed| == 0 then [] else [High(packed[0]), Low(packed[0])] + UnpackRow(packed[1..])
  }

  /** Unpacking a packed row gives the row back. */
  lemma {:induction false} UnpackPackRow(row: seq<Nibble>)
    requires |row| % 2 == 0
    ensures UnpackRow(PackRow(row)) == row
    decreases |row|
  {
    if |row| > 0 {
      var packed := PackRow(row);
      assert packed[1..] == PackRow(row[2..]);
      UnpackPackRow(row[2..]);
      assert row == [row[0], row[1]] + row[2..];
    }
  }

  /** Packing an unpacked row gives the bytes back. */
  lemma PackUnpackRow(packed: seq<Byte>)
    ensures PackRow(UnpackRow(packed)) == packed
  {
    var back := PackRow(UnpackRow(packed));
    forall c | 0 <= c < |packed| ensures back[c] == packed[c] {
      PackByteOfParts(packed[c]);
    }
  }

  predicate EvenRows(img: seq<seq<Nibble>>)
  {
    forall y | 0 <= y < |img| :: |img[y]| % 2 == 0
  }

  /** The packed frame, row by row. */
  function PackImage(img: seq<seq<Nibble>>): (packed: seq<seq<Byte>>)
    requires EvenRows(img)
    ensures |packed| == |img|
  {
    seq(|img|, y requires 0 <= y < |img| => PackRow(img[y]))
  }

  function UnpackImage(packed: seq<seq<Byte>>): (img: seq<seq<Nibble>>)
    ensures |img| == |packed|
  {
    seq(|packed|, y requires 0 <= y < |packed| => UnpackRow(packed[y]))
  }

  /** Unpacking a packed frame recovers the quantised image exactly. */
  lemma UnpackPackImage(img: seq<seq<Nibble>>)
    requires EvenRows(img)
    ensures UnpackImage(PackImage(img)) == img
  {
    forall y | 0 <= y < |img| ensures UnpackImage(PackImage(img))[y] == img[y] {
      UnpackPackRow(img[y]);
    }
  }

  /** A packed frame of `height` rows of a `width`-pixel image has `height` rows of `width / 2` bytes. */
  lemma PackImageShape(img: seq<seq<Nibble>>, height: nat, width: nat)
    requires IsGrid(img, height, width) && width % 2 == 0
    ensures EvenRows(img) && IsGrid(PackImage(img), height, width / 2)
  {
  }

  /** `tobytes()`: the rows one after the other. */
  function RawBytes(rows: seq<seq<Byte>>): seq<Byte>
  {
    if |rows| == 0 then [] else rows[0] + RawBytes(rows[1..])
  }

  /** The byte stream of `height` rows of `width` bytes is `height * width` long. */
  lemma {:induction false} RawBytesLength(rows: seq<seq<Byte>>, height: nat, width: nat)
    requires IsGrid(rows, height, width)
    ensures |RawBytes(rows)| == height * width
    decreases height
  {
    if height > 0 {
      RawBytesLength(rows[1..], height - 1, width);
    }
  }

  /** The byte stream is in row-major order: byte `c` of row `y` is at `y * width + c`. */
  lemma {:induction false} RawBytesAt(rows: seq<seq<Byte>>, height: nat, width: nat, y: nat, c: nat)
    requires IsGrid(rows, height, width)
    requires y < height && c < width
    ensures y * width + c < |RawBytes(rows)| && RawBytes(rows)[y * width + c] == rows[y][c]
    decreases height
  {
    RawBytesLength(rows, height, width);
    if y > 0 {
      RawBytesAt(rows[1..], height - 1, width, y - 1, c);
      assert y * width + c == width + ((y - 1) * width + c);
      assert rows[1..][y - 1] == rows[y];
    }
  }

  /** The byte stream starts with the first row. */
  lemma RawBytesHead(rows: seq<seq<Byte>>, c: nat)
    requires |rows| >= 1 && c < |rows[0]|
    ensures c < |RawBytes(rows)| && RawBytes(rows)[c] == rows[0][c]
  {
  }

  /** A full panel frame is 540 rows of 480 bytes: 259200 bytes. */
  lemma DisplayFrameSize(img: seq<seq<Nibble>>)
    requires IsGrid(img, EpdHeight, EpdWidth)
    ensures EvenRows(img)
    ensures |RawBytes(PackImage(img))| == 259200
  {
    PackImageShape(img, EpdHeight, EpdWidth);
    RawBytesLength(PackImage(img), EpdHeight, EpdWidth / 2);
  }

  // ---------------------------------------------------------------- the packing loop

  /** The rows of a two-dimensional array. */
  function Rows<T>(a: array2<T>): (rows: seq<seq<T>>)
    reads a
    ensures IsGrid(rows, a.Length0, a.Length1)
  {
    seq(a.Length0, y requires 0 <= y < a.Length0 reads a => seq(a.Length1, x requires 0 <= x < a.Length1 reads a => a[y, x]))
  }

  /**
   * The nested loop of the raw conversion: a zero-filled array of
   * `width / 2` columns, and for each row and each even `x` the byte of
   * pixels `x` and `x + 1` (0 past the last column) written at column `x / 2`.
   * For an odd width the last column's write falls outside the array; the
   * array library raises an error there, which the conversion turns into a
   * failure, so `ok` is false exactly for an odd width with at least one row.
   */
  method PackNibbles(img: array2<Nibble>) returns (ok: bool, packed: array2<Byte>)
    ensures fresh(packed)
    ensures packed.Length0 == img.Length0 && packed.Length1 == img.Length1 / 2
    ensures ok <==> img.Length1 % 2 == 0 || img.Length0 == 0
    ensures ok ==> EvenRows(Rows(img)) && Rows(packed) == PackImage(Rows(img))
  {
    var height, width := img.Length0, img.Length1;
    packed := new Byte[height, width / 2]((_, _) => 0);
    for y := 0 to height
      invariant y > 0 ==> width % 2 == 0
      invariant forall yy, c | 0 <= yy < y && 0 <= c < width / 2 :: packed[yy, c] == PackByte(img[yy, 2 * c], img[yy, 2 * c + 1])
    {
      var rowOk := PackRowAt(img, packed, y);
      if !rowOk {
        return false, packed;
      }
    }
    ok := true;
    RowsPacked(img, packed);
  }

  /** The inner loop for row `y`; `ok` is false where the out-of-range write stops it. */
  method PackRowAt(img: array2<Nibble>, packed: array2<Byte>, y: nat) returns (ok: bool)
    requires packed.Length0 == img.Length0 && packed.Length1 == img.Length1 / 2 && y < img.Length0
    modifies packed
    ensures ok <==> img.Length1 % 2 == 0
    ensures ok ==> forall c | 0 <= c < packed.Length1 :: packed[y, c] == PackByte(img[y, 2 * c], img[y, 2 * c + 1])
    ensures forall yy, c | 0 <= yy < packed.Length0 && yy != y && 0 <= c < packed.Length1 :: packed[yy, c] == old(packed[yy, c])
  {
    var width := img.Length1;
    var x := 0;
    while x < width
      invariant 0 <= x <= width && x % 2 == 0
      invariant forall c | 0 <= c < x / 2 :: packed[y, c] == PackByte(img[y, 2 * c], img[y, 2 * c + 1])
      invariant forall yy, c | 0 <= yy < packed.Length0 && yy != y && 0 <= c < packed.Length1 :: packed[yy, c] == old(packed[yy, c])
    {
      var pixel1 := img[y, x];
      var pixel2 := if x + 1 < width then img[y, x + 1] else 0;
      if x / 2 >= width / 2 {
        // the write at column `x / 2` is out of range
        return false;
      }
      packed[y, x / 2] := PackByte(pixel1, pixel2);
      x := x + 2;
    }
    ok := true;
  }

  /** An array whose every byte packs the matching pixel pair holds the packed frame. */
  lemma RowsPacked(img: array2<Nibble>, packed: array2<Byte>)
    requires img.Length1 % 2 == 0 || img.Length0 == 0
    requires packed.Length0 == img.Length0 && packed.Length1 == img.Length1 / 2
    requires forall y, c | 0 <= y < packed.Length0 && 0 <= c < packed.Length1 :: packed[y, c] == PackByte(img[y, 2 * c], img[y, 2 * c + 1])
    ensures EvenRows(Rows(img)) && Rows(packed) == PackImage(Rows(img))
  {
    var rows, expected := Rows(packed), PackImage(Rows(img));
    forall y | 0 <= y < img.Length0 ensures rows[y] == expected[y] {
      assert |expected[y]| == packed.Length1;
    }
  }

  // ---------------------------------------------------------------- centring on the canvas

  /**
   * `(canvas - size) // 2`. For a positive divisor Dafny's division rounds
   * down like the floor division it models, negative numerators included.
   * The two margins differ by at most one pixel, the larger one after the
   * picture, and a picture that fits is not cut.
   */
  function CenterOffset(canvas: int, size: int): (offset: int)
    ensures offset <= canvas - size - offset <= offset + 1
    ensures 0 <= size <= canvas ==> 0 <= offset && offset + size <= canvas
  {
    (canvas - size) / 2
  }

  /** Canvas pixel `(y, x)` after pasting the picture at the centring offsets onto `background`. */
  function CanvasPixel(thumb: seq<seq<Byte>>, width: nat, height: nat, background: Byte, y: int, x: int): Byte
    requires IsGrid(thumb, height, width)
  {
    var xOffset, yOffset := CenterOffset(EpdWidth, width), CenterOffset(EpdHeight, height);
    if yOffset <= y < yOffset + height && xOffset <= x < xOffset + width then thumb[y - yOffset][x - xOffset]
    else background
  }

  /** `Image.new('L', (EpdWidth, EpdHeight), background)` with the picture pasted at the centre. */
  function Paste(thumb: seq<seq<Byte>>, width: nat, height: nat, background: Byte): (canvas: seq<seq<Byte>>)
    requires IsGrid(thumb, height, width)
    ensures IsGrid(canvas, EpdHeight, EpdWidth)
  {
    seq(EpdHeight, y => seq(EpdWidth, x => CanvasPixel(thumb, width, height, background, y, x)))
  }

  /** A picture that fits the panel appears whole, each pixel displaced by the centring offsets. */
  lemma PasteKeepsPicture(thumb: seq<seq<Byte>>, width: nat, height: nat, background: Byte, y: nat, x: nat)
    requires IsGrid(thumb, height, width) && width <= EpdWidth && height <= EpdHeight
    requires y < height && x < width
    ensures CenterOffset(EpdHeight, height) + y < EpdHeight && CenterOffset(EpdWidth, width) + x < EpdWidth
    ensures Paste(thumb, width, height, background)[CenterOffset(EpdHeight, height) + y][CenterOffset(EpdWidth, width) + x] == thumb[y][x]
  {
  }

  /** Every canvas pixel outside the pasted rectangle keeps the background value. */
  lemma PasteKeepsBackground(thumb: seq<seq<Byte>>, width: nat, height: nat, background: Byte, y: nat, x: nat)
    requires IsGrid(thumb, height, width)
    requires y < EpdHeight && x < EpdWidth
    requires y < CenterOffset(EpdHeight, height) || CenterOffset(EpdHeight, height) + height <= y
      || x < CenterOffset(EpdWidth, width) || CenterOffset(EpdWidth, width) + width <= x
    ensures Paste(thumb, width, height, background)[y][x] == background
  {
  }

  // ---------------------------------------------------------------- the two conversions

  /** `img_array >> 4`, pixel by pixel. */
  function QuantizeImage(img: seq<seq<Byte>>): (q: seq<seq<Nibble>>)
    ensures |q| == |img|
    ensures forall y | 0 <= y < |img| :: |q[y]| == |img[y]|
  {
    seq(|img|, y requires 0 <= y < |img| => seq(|img[y]|, x requires 0 <= x < |img[y]| => Quantize(img[y][x])))
  }

  /** The panel's canvas for the raw frame: the picture centred on black, quantised. */
  function RawCanvas(thumb: seq<seq<Byte>>, width: nat, height: nat): (q: seq<seq<Nibble>>)
    requires IsGrid(thumb, height, width)
    ensures IsGrid(q, EpdHeight, EpdWidth)
  {
    QuantizeImage(Paste(thumb, width, height, RawBackground))
  }

  /** The bytes of the raw file for an already shrunk picture. */
  function RawFrame(thumb: seq<seq<Byte>>, width: nat, height: nat): (frame: seq<Byte>)
    requires IsGrid(thumb, height, width)
    ensures |frame| == EpdHeight * (EpdWidth / 2)
  {
    PackImageShape(RawCanvas(thumb, width, height), EpdHeight, EpdWidth);
    RawBytesLength(PackImage(RawCanvas(thumb, width, height)), EpdHeight, EpdWidth / 2);
    RawBytes(PackImage(RawCanvas(thumb, width, height)))
  }

  /**
   * The image part of the raw conversion: paste, quantise into a
   * two-dimensional array, pack. The canvas always has the panel's even width,
   * so the packing loop never fails here and the frame has the panel's size.
   */
  method ConvertToRaw(thumb: seq<seq<Byte>>, width: nat, height: nat) returns (ok: bool, data: seq<Byte>)
    requires IsGrid(thumb, height, width)
    ensures ok && data == RawFrame(thumb, width, height)
    ensures |data| == 259200
  {
    var canvas := RawCanvas(thumb, width, height);
    var img := new Nibble[EpdHeight, EpdWidth]((y, x) requires 0 <= y < EpdHeight && 0 <= x < EpdWidth => canvas[y][x]);
    assert Rows(img) == canvas by {
      forall y | 0 <= y < EpdHeight ensures Rows(img)[y] == canvas[y] {
      }
    }
    var packed;
    ok, packed := PackNibbles(img);
    data := RawBytes(Rows(packed));
    DisplayFrameSize(canvas);
  }

  /**
   * With at least two rows of the panel left over, the picture starts below
   * row 0, so the first 480 bytes of the raw frame (the top row) are black.
   */
  lemma RawFrameTopRowBlack(thumb: seq<seq<Byte>>, width: nat, height: nat, c: nat)
    requires IsGrid(thumb, height, width) && height + 2 <= EpdHeight
    requires c < EpdWidth / 2
    ensures RawFrame(thumb, width, height)[c] == 0
  {
    var canvas := RawCanvas(thumb, width, height);
    RawTopRowBlack(thumb, width, height, c);
    StreamStartsBlack(canvas, c);
  }

  /** Row 0 of the raw canvas is black at columns `2c` and `2c + 1` when the picture leaves it free. */
  lemma RawTopRowBlack(thumb: seq<seq<Byte>>, width: nat, height: nat, c: nat)
    requires IsGrid(thumb, height, width) && height + 2 <= EpdHeight
    requires c < EpdWidth / 2
    ensures RawCanvas(thumb, width, height)[0][2 * c] == 0 && RawCanvas(thumb, width, height)[0][2 * c + 1] == 0
  {
    PasteKeepsBackground(thumb, width, height, RawBackground, 0, 2 * c);
    PasteKeepsBackground(thumb, width, height, RawBackground, 0, 2 * c + 1);
  }

  /** A panel canvas whose first row is black at columns `2c` and `2c + 1` has a 0 at byte `c` of its stream. */
  lemma StreamStartsBlack(canvas: seq<seq<Nibble>>, c: nat)
    requires IsGrid(canvas, EpdHeight, EpdWidth) && c < EpdWidth / 2
    requires canvas[0][2 * c] == 0 && canvas[0][2 * c + 1] == 0
    ensures EvenRows(canvas)
    ensures c < |RawBytes(PackImage(canvas))| && RawBytes(PackImage(canvas))[c] == 0
  {
    PackImageShape(canvas, EpdHeight, EpdWidth);
    var rows := PackImage(canvas);
    assert rows[0] == PackRow(canvas[0]);
    RawBytesHead(rows, c);
  }

  /** The canvas saved as the bitmap: the picture centred on white, 8 bits per pixel. */
  function BitmapFrame(thumb: seq<seq<Byte>>, width: nat, height: nat): (canvas: seq<seq<Byte>>)
    requires IsGrid(thumb, height, width)
    ensures IsGrid(canvas, EpdHeight, EpdWidth)
  {
    Paste(thumb, width, height, BitmapBackground)
  }

  /** Outside the picture the bitmap is white, and inside it keeps the picture's grey values unquantised. */
  lemma BitmapFrameContents(thumb: seq<seq<Byte>>, width: nat, height: nat, y: nat, x: nat)
    requires IsGrid(thumb, height, width) && width <= EpdWidth && height <= EpdHeight
    requires y < EpdHeight && x < EpdWidth
    ensures var yOffset, xOffset := CenterOffset(EpdHeight, height), CenterOffset(EpdWidth, width);
      BitmapFrame(thumb, width, height)[y][x] ==
        if yOffset <= y < yOffset + height && xOffset <= x < xOffset + width then thumb[y - yOffset][x - xOffset] else 255
  {
  }

  // ---------------------------------------------------------------- folder conversion

  /** The extensions a folder conversion picks up, compared after lower-casing. */
  const SupportedFormats: seq<string> := [".jpg", ".jpeg", ".png", ".bmp", ".tiff", ".gif"]

  /** `str.lower()` on ASCII letters; other characters are kept. */
  function Lower(s: string): (r: string)
    ensures |r| == |s|
    ensures forall n | 0 <= n < |s| :: r[n] == (if 'A' <= s[n] <= 'Z' then (s[n] as int + 32) as char else s[n])
  {
    seq(|s|, n requires 0 <= n < |s| => if 'A' <= s[n] <= 'Z' then (s[n] as int + 32) as char else s[n])
  }

  /** Lower-casing leaves no ASCII capital, so doing it twice is doing it once. */
  lemma LowerNormalises(s: string)
    ensures forall n | 0 <= n < |s| :: !('A' <= Lower(s)[n] <= 'Z')
    ensures Lower(Lower(s)) == Lower(s)
  {
  }

  predicate EndsWith(s: string, suffix: string)
  {
    |suffix| <= |s| && s[|s| - |suffix|..] == suffix
  }

  /** `any(filename.lower().endswith(ext) for ext in supported_formats)`. */
  predicate IsSupported(filename: string): (supported: bool)
    ensures supported ==> |filename| >= 4
  {
    exists ext | ext in SupportedFormats :: EndsWith(Lower(filename), ext)
  }

  /** A picked-up name has a dot: every supported extension starts with one, and lower-casing keeps it. */
  lemma SupportedNameHasDot(filename: string)
    ensures IsSupported(filename) ==> '.' in filename
  {
    if IsSupported(filename) {
      var ext :| ext in SupportedFormats && EndsWith(Lower(filename), ext);
      assert ext[0] == '.';
      var n := |filename| - |ext|;
      assert Lower(filename)[n] == ext[0];
      assert filename[n] == '.';
    }
  }

  /** The extension test ignores case: a name is picked up exactly when its lower-cased form is. */
  lemma SupportIgnoresCase(filename: string)
    ensures IsSupported(filename) <==> IsSupported(Lower(filename))
  {
    LowerNormalises(filename);
  }

  /** Names that differ only in the case of ASCII letters are picked up alike. */
  lemma SameLowerSameSupport(f: string, g: string)
    requires Lower(f) == Lower(g)
    ensures IsSupported(f) <==> IsSupported(g)
  {
  }

  predicate AllDots(s: string)
  {
    forall n | 0 <= n < |s| :: s[n] == '.'
  }

  /** The position of the last `.` in `s`. */
  function LastDot(s: string): (i: Option<nat>)
    ensures i.None? <==> '.' !in s
    ensures i.Some? ==> i.value < |s| && s[i.value] == '.' && '.' !in s[i.value + 1..]
    decreases |s|
  {
    if |s| == 0 then None
    else if s[|s| - 1] == '.' then Some(|s| - 1)
    else
      var i := LastDot(s[..|s| - 1]);
      assert s == s[..|s| - 1] + [s[|s| - 1]];
      i
  }

  /**
   * `os.path.splitext` on a name with no directory part: the extension runs
   * from the last `.` to the end, unless everything before that dot is dots
   * (a name such as `.png` or `..gif` has no extension).
   */
  function SplitExt(name: string): (parts: (string, string))
    ensures parts.0 + parts.1 == name
    ensures parts.1 == "" || (parts.1[0] == '.' && '.' !in parts.1[1..] && !AllDots(parts.0))
    ensures parts.1 == "" ==> '.' !in name || AllDots(name[..LastDot(name).value])
  {
    match LastDot(name)
    case None => (name, "")
    case Some(i) =>
      if AllDots(name[..i]) then (name, "")
      else
        assert name[..i] + name[i..] == name;
        assert name[i..][1..] == name[i + 1..];
        (name[..i], name[i..])
  }

  /** A name with a real stem splits at the dot of its extension. */
  lemma SplitExtOf(root: string, ext: string)
    requires !AllDots(root) && '.' !in ext
    ensures SplitExt(root + "." + ext) == (root, "." + ext)
  {
    var name := root + "." + ext;
    var i := LastDot(name);
    assert name[|root|] == '.' && name[|root| + 1..] == ext;
    assert i.Some?;
    assert name[..|root|] == root;
    assert name[|root|..] == "." + ext;
  }

  /** `f"{base_name}.raw"` for the raw format, `f"{base_name}.bmp"` for any other format value. */
  function OutputName(filename: string, formatType: string): (name: string)
    ensures EndsWith(name, if formatType == "raw" then ".raw" else ".bmp")
    ensures |name| <= |filename| + 4 && name[..|name| - 4] == filename[..|name| - 4]
  {
    SplitExt(filename).0 + (if formatType == "raw" then ".raw" else ".bmp")
  }

  /** The extension is replaced; a name that is dots before its only dot-suffix keeps it and gains a second one. */
  lemma OutputNames(root: string, ext: string, formatType: string)
    requires !AllDots(root) && '.' !in ext
    ensures OutputName(root + "." + ext, formatType) == root + (if formatType == "raw" then ".raw" else ".bmp")
    ensures OutputName(".png", formatType) == ".png" + (if formatType == "raw" then ".raw" else ".bmp")
  {
    SplitExtOf(root, ext);
    LeadingDotOnly();
  }

  /** `.png` is all dots before its only dot, so it has no extension. */
  lemma LeadingDotOnly()
    ensures SplitExt(".png") == (".png", "")
  {
    var name := ".png";
    assert name[1] != '.' && name[2] != '.' && name[3] != '.';
    assert LastDot(name) == Some(0);
    assert AllDots(name[..0]);
  }

  /** `os.path.join(folder, name)` for a relative `name`. */
  function PathJoin(folder: string, name: string): (path: string)
    ensures |folder| <= |path| && path[..|folder|] == folder && EndsWith(path, name)
    ensures |path| - |folder| - |name| == (if folder == "" || folder[|folder| - 1] == '/' then 0 else 1)
    ensures !(folder == "" || folder[|folder| - 1] == '/') ==> path[|folder|] == '/'
  {
    if folder == "" || folder[|folder| - 1] == '/' then folder + name else folder + "/" + name
  }

  /** The listed names the conversion picks up, in listing order. */
  function Selected(filenames: seq<string>): (picked: seq<string>)
    ensures |picked| <= |filenames|
    decreases |filenames|
  {
    if |filenames| == 0 then []
    else
      var init := filenames[..|filenames| - 1];
      var last := filenames[|filenames| - 1];
      Selected(init) + (if IsSupported(last) then [last] else [])
  }

  /** A name is picked up exactly when it is listed and has a supported extension. */
  lemma {:induction false} SelectedExactly(filenames: seq<string>, f: string)
    ensures f in Selected(filenames) <==> f in filenames && IsSupported(f)
    decreases |filenames|
  {
    if |filenames| > 0 {
      var init := filenames[..|filenames| - 1];
      SelectedExactly(init, f);
      assert filenames == init + [filenames[|filenames| - 1]];
    }
  }

  /** The conversion the format selects, applied to a listed name. */
  predicate Converts(inputFolder: string, outputFolder: string, formatType: string,
                     toRaw: (string, string) -> bool, toBitmap: (string, string) -> bool, filename: string)
  {
    var input, output := PathJoin(inputFolder, filename), PathJoin(outputFolder, OutputName(filename, formatType));
    if formatType == "raw" then toRaw(input, output) else toBitmap(input, output)
  }

  /** How many of the picked-up names were converted successfully. */
  function ConvertedCount(filenames: seq<string>, inputFolder: string, outputFolder: string, formatType: string,
                          toRaw: (string, string) -> bool, toBitmap: (string, string) -> bool): (count: nat)
    ensures count <= |Selected(filenames)|
    decreases |filenames|
  {
    if |filenames| == 0 then 0
    else
      var init := filenames[..|filenames| - 1];
      var last := filenames[|filenames| - 1];
      ConvertedCount(init, inputFolder, outputFolder, formatType, toRaw, toBitmap)
        + (if IsSupported(last) && Converts(inputFolder, outputFolder, formatType, toRaw, toBitmap, last) then 1 else 0)
  }

  /** When every conversion succeeds, the count is the number of picked-up names. */
  lemma {:induction false} AllConverted(filenames: seq<string>, inputFolder: string, outputFolder: string, formatType: string,
                                        toRaw: (string, string) -> bool, toBitmap: (string, string) -> bool)
    requires forall f | f in filenames && IsSupported(f) :: Converts(inputFolder, outputFolder, formatType, toRaw, toBitmap, f)
    ensures ConvertedCount(filenames, inputFolder, outputFolder, formatType, toRaw, toBitmap) == |Selected(filenames)|
    decreases |filenames|
  {
    if |filenames| > 0 {
      var init := filenames[..|filenames| - 1];
      assert forall f | f in init && IsSupported(f) :: f in filenames;
      AllConverted(init, inputFolder, outputFolder, formatType, toRaw, toBitmap);
    }
  }

  /** The output path of each name, in order. */
  function OutputPaths(names: seq<string>, outputFolder: string, formatType: string): (paths: seq<string>)
    ensures |paths| == |names|
    ensures forall n | 0 <= n < |names| :: paths[n] == PathJoin(outputFolder, OutputName(names[n], formatType))
  {
    seq(|names|, n requires 0 <= n < |names| => PathJoin(outputFolder, OutputName(names[n], formatType)))
  }

  lemma OutputPathsSnoc(names: seq<string>, name: string, outputFolder: string, formatType: string)
    ensures OutputPaths(names + [name], outputFolder, formatType)
      == OutputPaths(names, outputFolder, formatType) + [PathJoin(outputFolder, OutputName(name, formatType))]
  {
  }

  /** One more listed name extends the picked-up names and the count by that name alone. */
  lemma BatchStep(filenames: seq<string>, i: nat, inputFolder: string, outputFolder: string, formatType: string,
                  toRaw: (string, string) -> bool, toBitmap: (string, string) -> bool)
    requires i < |filenames|
    ensures Selected(filenames[..i + 1]) == Selected(filenames[..i]) + (if IsSupported(filenames[i]) then [filenames[i]] else [])
    ensures ConvertedCount(filenames[..i + 1], inputFolder, outputFolder, formatType, toRaw, toBitmap)
      == ConvertedCount(filenames[..i], inputFolder, outputFolder, formatType, toRaw, toBitmap)
        + (if IsSupported(filenames[i]) && Converts(inputFolder, outputFolder, formatType, toRaw, toBitmap, filenames[i]) then 1 else 0)
  {
    var prefix := filenames[..i + 1];
    assert prefix[..i] == filenames[..i] && prefix[i] == filenames[i];
  }

  /** The body of the loop for one picked-up name: derive both paths and run the conversion of the format. */
  method ConvertOne(filename: string, inputFolder: string, outputFolder: string, formatType: string,
                    toRaw: (string, string) -> bool, toBitmap: (string, string) -> bool)
    returns (outputPath: string, success: bool)
    ensures outputPath == PathJoin(outputFolder, OutputName(filename, formatType))
    ensures success == Converts(inputFolder, outputFolder, formatType, toRaw, toBitmap, filename)
  {
    var inputPath := PathJoin(inputFolder, filename);
    var baseName := SplitExt(filename).0;
    if formatType == "raw" {
      outputPath := PathJoin(outputFolder, baseName + ".raw");
      success := toRaw(inputPath, outputPath);
    } else {
      outputPath := PathJoin(outputFolder, baseName + ".bmp");
      success := toBitmap(inputPath, outputPath);
    }
  }

  /**
   * `batch_convert`: for each listed name that has a supported extension,
   * the output name is derived and the conversion of the format runs;
   * `outputs` are the output paths in order and `convertedCount` counts the
   * conversions that reported success. `toRaw` and `toBitmap` stand for the
   * two file conversions.
   */
  method BatchConvert(filenames: seq<string>, inputFolder: string, outputFolder: string, formatType: string,
                      toRaw: (string, string) -> bool, toBitmap: (string, string) -> bool)
    returns (convertedCount: nat, outputs: seq<string>)
    ensures convertedCount == ConvertedCount(filenames, inputFolder, outputFolder, formatType, toRaw, toBitmap)
    ensures outputs == OutputPaths(Selected(filenames), outputFolder, formatType)
    ensures convertedCount <= |outputs| == |Selected(filenames)|
  {
    convertedCount := 0;
    outputs := [];
    for i := 0 to |filenames|
      invariant convertedCount == ConvertedCount(filenames[..i], inputFolder, outputFolder, formatType, toRaw, toBitmap)
      invariant outputs == OutputPaths(Selected(filenames[..i]), outputFolder, formatType)
    {
      var filename := filenames[i];
      BatchStep(filenames, i, inputFolder, outputFolder, formatType, toRaw, toBitmap);
      if IsSupported(filename) {
        var outputPath, success := ConvertOne(filename, inputFolder, outputFolder, formatType, toRaw, toBitmap);
        OutputPathsSnoc(Selected(filenames[..i]), filename, outputFolder, formatType);
        outputs := outputs + [outputPath];
        if success {
          convertedCount := convertedCount + 1;
        }
      }
    }
    assert filenames[..|filenames|] == filenames;
  }

  /** Case is ignored in the extension. */
  lemma UpperCaseExtensionSupported()
    ensures IsSupported("Photo.JPG")
  {
    var lowered := Lower("Photo.JPG");
    assert lowered == "photo.jpg";
    assert lowered[5..] == ".jpg";
    assert ".jpg" in SupportedFormats;
  }

  /** A name whose extension is not in the list is skipped. */
  lemma UnlistedExtensionSkipped()
    ensures !IsSupported("notes.txt")
  {
    var lowered := Lower("notes.txt");
    assert lowered == "notes.txt";
    assert lowered[5..] == ".txt" && lowered[4..] == "s.txt";
  }

  /** A name that merely ends in an extension's letters, without its dot, is skipped. */
  lemma BareExtensionSkipped()
    ensures !IsSupported("jpg")
  {
    assert Lower("jpg") == "jpg";
  }
}
