/** The image plane transcoder and the EXIF orientation table.

    The printer takes a 600 x 800 picture as 1 440 000 bytes laid out
    column-planar: for column w of the 800-wide landscape raster, the red
    values of its 600 rows, then the green ones, then the blue ones. The
    byte for row h, column w and colour c sits at w * 1800 + c * 600 + h.

    Images are grids of RGB pixels, row by row. Rotations follow the imaging
    library's convention: a positive angle turns counter-clockwise, and the
    canvas is resized to fit (a quarter turn swaps width and height). */
module Image {

  import opened Wrappers
  import opened Wire

  const PrintHeight: nat := 600
  const PrintWidth: nat := 800
  const PlaneBytes: nat := 1_440_000   // 600 * 800 * 3
  const PixelCount: nat := 480_000     // 600 * 800

  datatype Pixel = Pixel(r: Byte, g: Byte, b: Byte)

  /** An image `width` pixels wide and `height` high, as its rows. */
  datatype Picture = Picture(width: nat, height: nat, rows: seq<seq<Pixel>>)

  predicate WellFormed(p: Picture) {
    |p.rows| == p.height && forall y :: 0 <= y < p.height ==> |p.rows[y]| == p.width
  }

  function Component(p: Pixel, c: nat): Byte
    requires c < 3
  {
    if c == 0 then p.r else if c == 1 then p.g else p.b
  }

  // ---------------------------------------------------------------------------
  // The planar offset and its inverse
  // ---------------------------------------------------------------------------

  /** Where the colour `c` of the pixel in row `h`, column `w` is stored. */
  function Offset(w: nat, c: nat, h: nat): nat {
    w * PrintHeight * 3 + PrintHeight * c + h
  }

  function ColumnOf(k: nat): nat { k / 1800 }
  function ColourOf(k: nat): nat { k % 1800 / 600 }
  function RowOf(k: nat): nat { k % 600 }

  /** The offset is determined by, and determines, its three coordinates. */
  lemma OffsetSplit(w: nat, c: nat, h: nat)
    requires w < PrintWidth && c < 3 && h < PrintHeight
    ensures Offset(w, c, h) < PlaneBytes
    ensures ColumnOf(Offset(w, c, h)) == w && ColourOf(Offset(w, c, h)) == c && RowOf(Offset(w, c, h)) == h
  {
    var k := Offset(w, c, h);
    var low := c * 600 + h;
    assert k == w * 1800 + low && 0 <= low < 1800;
    assert k / 1800 == w && k % 1800 == low;
    assert low / 600 == c && low % 600 == h;
    assert k == (w * 3 + c) * 600 + h;
    assert k % 600 == h;
  }

  lemma OffsetCovers(k: nat)
    requires k < PlaneBytes
    ensures ColumnOf(k) < PrintWidth && ColourOf(k) < 3 && RowOf(k) < PrintHeight
    ensures Offset(ColumnOf(k), ColourOf(k), RowOf(k)) == k
  {
    var w := k / 1800;
    var low := k % 1800;
    assert k == w * 1800 + low;
    assert low == (low / 600) * 600 + low % 600;
    assert low % 600 == k % 600 by {
      assert k == (w * 3 + low / 600) * 600 + low % 600;
    }
  }

  /** The offset map is a bijection between coordinates and [0, 1 440 000). */
  lemma OffsetBijective(w: nat, c: nat, h: nat, w': nat, c': nat, h': nat)
    requires w < PrintWidth && c < 3 && h < PrintHeight
    requires w' < PrintWidth && c' < 3 && h' < PrintHeight
    ensures Offset(w, c, h) == Offset(w', c', h') <==> (w, c, h) == (w', c', h')
  {
    OffsetSplit(w, c, h);
    OffsetSplit(w', c', h');
  }

  // ---------------------------------------------------------------------------
  // Pixel data, row by row, and the rotations
  // ---------------------------------------------------------------------------

  /** The pixels of the rows in order, one row after another. */
  function Flatten(rows: seq<seq<Pixel>>): (r: seq<Pixel>) {
    if |rows| == 0 then [] else rows[0] + Flatten(rows[1..])
  }

  lemma {:induction false} FlattenLength(rows: seq<seq<Pixel>>, width: nat)
    requires forall y :: 0 <= y < |rows| ==> |rows[y]| == width
    ensures |Flatten(rows)| == |rows| * width
  {
    if |rows| > 0 {
      FlattenLength(rows[1..], width);
    }
  }

  lemma {:induction false} FlattenIndex(rows: seq<seq<Pixel>>, width: nat, y: nat, x: nat)
    requires forall j :: 0 <= j < |rows| ==> |rows[j]| == width
    requires y < |rows| && x < width
    ensures y * width + x < |Flatten(rows)|
    ensures Flatten(rows)[y * width + x] == rows[y][x]
  {
    FlattenLength(rows, width);
    if y > 0 {
      FlattenIndex(rows[1..], width, y - 1, x);
      assert y * width + x == width + ((y - 1) * width + x);
    }
  }

  /** A quarter turn counter-clockwise. */
  function RotateLeft(p: Picture): (q: Picture)
    requires WellFormed(p)
    ensures WellFormed(q) && q.width == p.height && q.height == p.width
    ensures forall y, x :: 0 <= y < q.height && 0 <= x < q.width ==> q.rows[y][x] == p.rows[x][p.width - 1 - y]
  {
    Picture(p.height, p.width, seq(p.width, y requires 0 <= y < p.width =>
      seq(p.height, x requires 0 <= x < p.height => p.rows[x][p.width - 1 - y])))
  }

  /** A quarter turn clockwise. */
  function RotateRight(p: Picture): (q: Picture)
    requires WellFormed(p)
    ensures WellFormed(q) && q.width == p.height && q.height == p.width
    ensures forall y, x :: 0 <= y < q.height && 0 <= x < q.width ==> q.rows[y][x] == p.rows[p.height - 1 - x][y]
  {
    Picture(p.height, p.width, seq(p.width, y requires 0 <= y < p.width =>
      seq(p.height, x requires 0 <= x < p.height => p.rows[p.height - 1 - x][y])))
  }

  /** A half turn. */
  function RotateHalf(p: Picture): (q: Picture)
    requires WellFormed(p)
    ensures WellFormed(q) && q.width == p.width && q.height == p.height
    ensures forall y, x :: 0 <= y < q.height && 0 <= x < q.width ==>
      q.rows[y][x] == p.rows[p.height - 1 - y][p.width - 1 - x]
  {
    Picture(p.width, p.height, seq(p.height, y requires 0 <= y < p.height =>
      seq(p.width, x requires 0 <= x < p.width => p.rows[p.height - 1 - y][p.width - 1 - x])))
  }

  /** Left-right mirror. */
  function Mirror(p: Picture): (q: Picture)
    requires WellFormed(p)
    ensures WellFormed(q) && q.width == p.width && q.height == p.height
    ensures forall y, x :: 0 <= y < q.height && 0 <= x < q.width ==> q.rows[y][x] == p.rows[y][p.width - 1 - x]
  {
    Picture(p.width, p.height, seq(p.height, y requires 0 <= y < p.height =>
      seq(p.width, x requires 0 <= x < p.width => p.rows[y][p.width - 1 - x])))
  }

  /** Top-bottom flip. */
  function Flip(p: Picture): (q: Picture)
    requires WellFormed(p)
    ensures WellFormed(q) && q.width == p.width && q.height == p.height
    ensures forall y, x :: 0 <= y < q.height && 0 <= x < q.width ==> q.rows[y][x] == p.rows[p.height - 1 - y][x]
  {
    Picture(p.width, p.height, seq(p.height, y requires 0 <= y < p.height =>
      seq(p.width, x requires 0 <= x < p.width => p.rows[p.height - 1 - y][x])))
  }

  lemma PictureExtensional(p: Picture, q: Picture)
    requires WellFormed(p) && WellFormed(q) && p.width == q.width && p.height == q.height
    requires forall y, x :: 0 <= y < p.height && 0 <= x < p.width ==> p.rows[y][x] == q.rows[y][x]
    ensures p == q
  {
    forall y | 0 <= y < p.height
      ensures p.rows[y] == q.rows[y]
    {
    }
  }

  /** The two quarter turns undo each other. */
  lemma RotationsInverse(p: Picture)
    requires WellFormed(p)
    ensures RotateRight(RotateLeft(p)) == p
    ensures RotateLeft(RotateRight(p)) == p
  {
    PictureExtensional(RotateRight(RotateLeft(p)), p);
    PictureExtensional(RotateLeft(RotateRight(p)), p);
  }

  // ---------------------------------------------------------------------------
  // Encoding: landscape raster to column-planar bytes
  // ---------------------------------------------------------------------------

  /** The raster the encoder reads: the picture, turned a quarter clockwise
      when it is not 800 wide. */
  function Upright(p: Picture): (q: Picture)
    requires WellFormed(p)
    ensures WellFormed(q)
  {
    if p.width != PrintWidth then RotateRight(p) else p
  }

  /** The value the encoder stores in slot k of the output: slots of the
      first 1 440 000 hold one colour of one pixel, read from the pixel data
      at row * 800 + column; any further slots are never written. */
  function PlaneSlot(pixels: seq<Pixel>, k: nat): Option<Byte>
    requires |pixels| >= PixelCount
  {
    if k < PlaneBytes then
      OffsetCovers(k);
      Some(Component(pixels[RowOf(k) * PrintWidth + ColumnOf(k)], ColourOf(k)))
    else None
  }

  /** The encoder's result for a picture: the sizes must add to 1400, the
      output has three slots per pixel, and fewer than 480 000 pixels run
      the reads off the end of the pixel data. */
  function EncodeSpec(p: Picture): (r: Result<seq<Option<Byte>>, Fault>)
    requires WellFormed(p)
    ensures p.width + p.height != 1400 ==> r == Failure(BadDimensions)
    ensures p.width + p.height == 1400 ==>
      (r.Success? <==> p.width * p.height >= PixelCount) && (r.Failure? ==> r.error == IndexOutOfRange)
    ensures r.Success? ==>
      && |r.value| == 3 * (p.width * p.height)
      && forall k :: 0 <= k < PlaneBytes ==> r.value[k].Some?
  {
    if p.width + p.height != 1400 then Failure(BadDimensions)
    else
      var q := Upright(p);
      FlattenLength(q.rows, q.width);
      assert q.width * q.height == p.width * p.height;
      var pixels := Flatten(q.rows);
      if |pixels| < PixelCount then Failure(IndexOutOfRange)
      else Success(seq(3 * |pixels|, k requires 0 <= k < 3 * |pixels| => PlaneSlot(pixels, k)))
  }

  /** Which output slots the encoder has written once it has visited every
      row before `row` and, in `row`, every column before `column`. */
  predicate WrittenBefore(k: nat, row: nat, column: nat) {
    k < PlaneBytes && (RowOf(k) < row || (RowOf(k) == row && ColumnOf(k) < column))
  }

  /** The encoder's loops: every pixel of the 600 x 800 raster is visited
      row by row and its three colours are stored at their planar offsets. */
  method EncodeImage(p: Picture) returns (r: Result<seq<Option<Byte>>, Fault>)
    requires WellFormed(p)
    ensures r == EncodeSpec(p)
    ensures r.Success? ==> |r.value| >= PlaneBytes && forall k :: 0 <= k < PlaneBytes ==> r.value[k].Some?
  {
    if p.width + p.height != 1400 {
      return Failure(BadDimensions);
    }
    var up := Upright(p);
    var pixels := Flatten(up.rows);
    if |pixels| < PixelCount {
      return Failure(IndexOutOfRange);
    }
    var a := new Option<Byte>[3 * |pixels|](_ => None);
    var h := 0;
    while h < PrintHeight
      invariant 0 <= h <= PrintHeight
      invariant forall k :: 0 <= k < a.Length ==>
        a[k] == (if WrittenBefore(k, h, 0) then PlaneSlot(pixels, k) else None)
    {
      var w := 0;
      while w < PrintWidth
        invariant 0 <= w <= PrintWidth
        invariant forall k :: 0 <= k < a.Length ==>
          a[k] == (if WrittenBefore(k, h, w) then PlaneSlot(pixels, k) else None)
      {
        StoreColumn(a, pixels, h, w);
        w := w + 1;
      }
      forall k | 0 <= k < a.Length
        ensures WrittenBefore(k, h, PrintWidth) == WrittenBefore(k, h + 1, 0)
      {
        if k < PlaneBytes {
          OffsetCovers(k);
        }
      }
      h := h + 1;
    }
    forall k | 0 <= k < a.Length
      ensures WrittenBefore(k, PrintHeight, 0) == (k < PlaneBytes)
    {
      if k < PlaneBytes {
        OffsetCovers(k);
      }
    }
    assert forall k :: 0 <= k < a.Length ==> a[..][k] == PlaneSlot(pixels, k);
    assert a[..] == seq(3 * |pixels|, k requires 0 <= k < 3 * |pixels| => PlaneSlot(pixels, k));
    r := Success(a[..]);
    assert forall k :: 0 <= k < PlaneBytes ==> PlaneSlot(pixels, k).Some?;
  }

  /** One step of the inner loop: the three colours of pixel (h, w). */
  method StoreColumn(a: array<Option<Byte>>, pixels: seq<Pixel>, h: nat, w: nat)
    requires |pixels| >= PixelCount && a.Length == 3 * |pixels|
    requires h < PrintHeight && w < PrintWidth
    requires forall k :: 0 <= k < a.Length ==>
      a[k] == (if WrittenBefore(k, h, w) then PlaneSlot(pixels, k) else None)
    modifies a
    ensures forall k :: 0 <= k < a.Length ==>
      a[k] == (if WrittenBefore(k, h, w + 1) then PlaneSlot(pixels, k) else None)
  {
    var px := pixels[h * PrintWidth + w];
    OffsetSplit(w, 0, h);
    OffsetSplit(w, 1, h);
    OffsetSplit(w, 2, h);
    a[Offset(w, 0, h)] := Some(px.r);
    a[Offset(w, 1, h)] := Some(px.g);
    a[Offset(w, 2, h)] := Some(px.b);
    forall k | 0 <= k < a.Length
      ensures a[k] == (if WrittenBefore(k, h, w + 1) then PlaneSlot(pixels, k) else None)
    {
      if k < PlaneBytes {
        OffsetCovers(k);
        if RowOf(k) == h && ColumnOf(k) == w {
          assert k == Offset(w, ColourOf(k), h);
        }
      }
    }
  }

  // ---------------------------------------------------------------------------
  // Decoding: column-planar bytes to a portrait picture
  // ---------------------------------------------------------------------------

  /** The 800 x 600 landscape raster stored in planar bytes. */
  function Landscape(bytes: seq<Byte>): (q: Picture)
    requires |bytes| >= PlaneBytes
    ensures WellFormed(q) && q.width == PrintWidth && q.height == PrintHeight
    ensures forall h, w, c :: 0 <= h < PrintHeight && 0 <= w < PrintWidth && 0 <= c < 3 ==>
      Component(q.rows[h][w], c) == bytes[Offset(w, c, h)]
  {
    Picture(PrintWidth, PrintHeight, seq(PrintHeight, h requires 0 <= h < PrintHeight =>
      seq(PrintWidth, w requires 0 <= w < PrintWidth =>
        OffsetSplit(w, 2, h);
        Pixel(bytes[Offset(w, 0, h)], bytes[Offset(w, 1, h)], bytes[Offset(w, 2, h)]))))
  }

  /** The decoder: gather the colours of each pixel from the planes, build
      the 800 x 600 raster and turn it a quarter counter-clockwise into the
      600 x 800 portrait the user sees. Fewer than 1 440 000 bytes run the
      reads off the end. */
  function DecodeImage(bytes: seq<Byte>): (r: Result<Picture, Fault>)
    ensures r.Success? <==> |bytes| >= PlaneBytes
    ensures r.Success? ==> WellFormed(r.value) && r.value.width == PrintHeight && r.value.height == PrintWidth
  {
    if |bytes| < PlaneBytes then Failure(IndexOutOfRange)
    else Success(RotateLeft(Landscape(bytes)))
  }
  // ---------------------------------------------------------------------------
  // Round trips
  // ---------------------------------------------------------------------------

  /** The values of a fully written output. */
  function Values(s: seq<Option<Byte>>): (r: seq<Byte>)
    requires forall k :: 0 <= k < |s| ==> s[k].Some?
    ensures |r| == |s| && forall k :: 0 <= k < |s| ==> s[k] == Some(r[k])
  {
    seq(|s|, k requires 0 <= k < |s| => s[k].value)
  }

  /** Decoding a planar image and encoding the result reproduces the input
      byte for byte. */
  lemma DecodeThenEncode(bytes: seq<Byte>)
    requires |bytes| == PlaneBytes
    ensures DecodeImage(bytes).Success?
    ensures var e := EncodeSpec(DecodeImage(bytes).value);
      e.Success? && |e.value| == PlaneBytes && forall k :: 0 <= k < PlaneBytes ==> e.value[k] == Some(bytes[k])
  {
    var land := Landscape(bytes);
    var q := DecodeImage(bytes).value;
    RotationsInverse(land);
    assert Upright(q) == land;
    var pixels := Flatten(land.rows);
    FlattenLength(land.rows, PrintWidth);
    assert |pixels| == PixelCount;
    forall k | 0 <= k < PlaneBytes
      ensures PlaneSlot(pixels, k) == Some(bytes[k])
    {
      OffsetCovers(k);
      FlattenIndex(land.rows, PrintWidth, RowOf(k), ColumnOf(k));
    }
  }

  /** Encoding an 800 x 600 raster writes every slot, and decoding the bytes
      gives the raster turned a quarter counter-clockwise. */
  lemma EncodeThenDecode(p: Picture)
    requires WellFormed(p) && p.width == PrintWidth && p.height == PrintHeight
    ensures EncodeSpec(p).Success? && |EncodeSpec(p).value| == PlaneBytes
    ensures forall k :: 0 <= k < PlaneBytes ==> EncodeSpec(p).value[k].Some?
    ensures DecodeImage(Values(EncodeSpec(p).value)) == Success(RotateLeft(p))
  {
    var pixels := Flatten(p.rows);
    FlattenLength(p.rows, PrintWidth);
    var e := EncodeSpec(p).value;
    assert forall k :: 0 <= k < PlaneBytes ==> e[k] == PlaneSlot(pixels, k);
    var bytes := Values(e);
    assert forall k :: 0 <= k < PlaneBytes ==> Some(bytes[k]) == PlaneSlot(pixels, k);
    var land := Landscape(bytes);
    forall h, w | 0 <= h < PrintHeight && 0 <= w < PrintWidth
      ensures land.rows[h][w] == p.rows[h][w]
    {
      PixelRecovered(p, bytes, h, w);
    }
    PictureExtensional(land, p);
  }

  /** One pixel of an encoded 800 x 600 raster is read back from its three
      planar offsets. */
  lemma PixelRecovered(p: Picture, bytes: seq<Byte>, h: nat, w: nat)
    requires WellFormed(p) && p.width == PrintWidth && p.height == PrintHeight
    requires |Flatten(p.rows)| >= PixelCount && |bytes| >= PlaneBytes
    requires forall k :: 0 <= k < PlaneBytes ==> Some(bytes[k]) == PlaneSlot(Flatten(p.rows), k)
    requires h < PrintHeight && w < PrintWidth
    ensures Landscape(bytes).rows[h][w] == p.rows[h][w]
  {
    var land := Landscape(bytes);
    FlattenIndex(p.rows, PrintWidth, h, w);
    OffsetSplit(w, 0, h);
    OffsetSplit(w, 1, h);
    OffsetSplit(w, 2, h);
    assert Component(land.rows[h][w], 0) == Component(p.rows[h][w], 0);
    assert Component(land.rows[h][w], 1) == Component(p.rows[h][w], 1);
    assert Component(land.rows[h][w], 2) == Component(p.rows[h][w], 2);
  }

  // ---------------------------------------------------------------------------
  // Orientation from the EXIF tag
  // ---------------------------------------------------------------------------

  const OrientationTag: int := 274

  datatype Reflection = NoReflection | MirrorFirst | FlipFirst

  /** A reflection followed by a counter-clockwise turn of 0, 90, 180 or 270
      degrees. */
  datatype Orientation = Orientation(reflect: Reflection, turn: int)

  const Unchanged := Orientation(NoReflection, 0)

  /** The table for a landscape picture: always a quarter turn, 270 by
      default, 90 for tags 3, 4, 7 and 8. */
  function LandscapeChoice(tag: Option<int>): (o: Orientation)
    ensures o.turn == 90 || o.turn == 270
  {
    match tag
    case Some(1) => Orientation(NoReflection, 270)
    case Some(2) => Orientation(MirrorFirst, 270)
    case Some(3) => Orientation(NoReflection, 90)
    case Some(4) => Orientation(MirrorFirst, 90)
    case Some(5) => Orientation(FlipFirst, 270)
    case Some(6) => Orientation(NoReflection, 270)
    case Some(7) => Orientation(FlipFirst, 90)
    case Some(8) => Orientation(NoReflection, 90)
    case _ => Orientation(NoReflection, 270)
  }

  /** The table for a portrait or square picture: never a quarter turn. */
  function PortraitChoice(tag: Option<int>): (o: Orientation)
    ensures o.turn == 0 || o.turn == 180
  {
    match tag
    case Some(2) => Orientation(MirrorFirst, 0)
    case Some(3) => Orientation(NoReflection, 180)
    case Some(4) => Orientation(MirrorFirst, 180)
    case Some(5) => Orientation(FlipFirst, 180)
    case Some(6) => Orientation(NoReflection, 180)
    case Some(7) => Orientation(FlipFirst, 0)
    case _ => Unchanged
  }

  /** The orientation chosen for a picture of the given size and EXIF data
      (`None` when the picture has none). The aspect ratio is computed first,
      so a zero height fails even without EXIF data. */
  function ChooseOrientation(width: nat, height: nat, exif: Option<map<int, int>>): (r: Result<Orientation, Fault>)
    ensures r.Failure? <==> height == 0
    ensures r.Success? && exif.None? ==> r.value == Unchanged
    ensures r.Success? && exif.Some? && width > height ==> r.value.turn == 90 || r.value.turn == 270
    ensures r.Success? && width <= height ==> r.value.turn == 0 || r.value.turn == 180
  {
    if height == 0 then Failure(DivisionByZero)
    else if exif.None? then Success(Unchanged)
    else
      var tag := if OrientationTag in exif.value then Some(exif.value[OrientationTag]) else None;
      if width > height then Success(LandscapeChoice(tag)) else Success(PortraitChoice(tag))
  }

  function Reflect(p: Picture, r: Reflection): (q: Picture)
    requires WellFormed(p)
    ensures WellFormed(q) && q.width == p.width && q.height == p.height
  {
    match r
    case NoReflection => p
    case MirrorFirst => Mirror(p)
    case FlipFirst => Flip(p)
  }

  function Turn(p: Picture, degrees: int): (q: Picture)
    requires WellFormed(p)
    ensures WellFormed(q)
    ensures degrees == 90 || degrees == 270 ==> q.width == p.height && q.height == p.width
    ensures degrees != 90 && degrees != 270 ==> q.width == p.width && q.height == p.height
  {
    if degrees == 90 then RotateLeft(p)
    else if degrees == 180 then RotateHalf(p)
    else if degrees == 270 then RotateRight(p)
    else p
  }

  function Orient(p: Picture, o: Orientation): (q: Picture)
    requires WellFormed(p)
    ensures WellFormed(q)
    ensures o.turn == 90 || o.turn == 270 ==> q.width == p.height && q.height == p.width
    ensures o.turn != 90 && o.turn != 270 ==> q.width == p.width && q.height == p.height
  {
    Turn(Reflect(p, o.reflect), o.turn)
  }

  /** With EXIF data the oriented picture is never wider than it is high:
      landscape pictures always get a quarter turn and portrait ones never
      do. */
  lemma OrientedIsPortrait(p: Picture, exif: map<int, int>)
    requires WellFormed(p) && p.height > 0
    ensures var q := Orient(p, ChooseOrientation(p.width, p.height, Some(exif)).value);
      q.width <= q.height
    ensures p.width <= p.height ==>
      var q := Orient(p, ChooseOrientation(p.width, p.height, Some(exif)).value);
      q.width == p.width && q.height == p.height
  {
  }

  /** A portrait picture with tag 1, tag 8, an unknown tag or no tag is left
      exactly as it is. */
  lemma PortraitDefaultsUnchanged(p: Picture, exif: map<int, int>)
    requires WellFormed(p) && 0 < p.height && p.width <= p.height
    requires OrientationTag in exif ==> exif[OrientationTag] !in {2, 3, 4, 5, 6, 7}
    ensures Orient(p, ChooseOrientation(p.width, p.height, Some(exif)).value) == p
  {
  }

  /** A landscape picture with tag 1, tag 6, an unknown tag or no tag is
      turned a quarter clockwise. */
  lemma LandscapeDefaultsTurnRight(p: Picture, exif: map<int, int>)
    requires WellFormed(p) && 0 < p.height < p.width
    requires OrientationTag in exif ==> exif[OrientationTag] !in {2, 3, 4, 5, 7, 8}
    ensures Orient(p, ChooseOrientation(p.width, p.height, Some(exif)).value) == RotateRight(p)
  {
  }
}
