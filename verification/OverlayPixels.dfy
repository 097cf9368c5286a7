/** What the overlay looks like, pixel by pixel: on a screen whose rows do not overlap, every visible
    pixel is the scene's pixel with the sprite pixels lying over it blended in, in cursor order. */
module OverlayPixels {
  import opened Bytes
  import opened Framebuffer
  import opened CursorSprite
  import opened CursorEngine

  /** A screen whose rows do not overlap, on a buffer that holds it. */
  predicate Separate(info: Info, n: nat) {
    Usable(info, n) && info.stride >= info.width
  }

  predicate Visible(info: Info, x: nat, y: nat) {
    x < info.width && y < info.height
  }

  lemma {:induction false} PixelFits(info: Info, n: nat, x: nat, y: nat)
    requires Usable(info, n) && Visible(info, x, y)
    ensures info.Offset(x, y) + info.bpp <= n
  {
    RowFits(info, Rect(x, y, 1, 1), 0, n);
  }

  /** A pixel to the left on the same row, or on an earlier row, ends before this one starts. */
  lemma {:induction false} PixelsInOrder(info: Info, n: nat, x: nat, y: nat, x': nat, y': nat)
    requires Separate(info, n) && Visible(info, x, y) && Visible(info, x', y') && (y < y' || (y == y' && x < x'))
    ensures info.Offset(x, y) + info.bpp <= info.Offset(x', y')
  {
    OffsetInRow(info, x, 1, y);
    if y == y' {
      OffsetMono(info, x + 1, y, x', y);
    } else {
      OffsetMono(info, x + 1, y, info.stride, y);
      assert info.Offset(info.stride, y) == info.Offset(0, y + 1);
      OffsetMono(info, 0, y + 1, x', y');
    }
  }

  /** Drawing one sprite pixel changes exactly the pixel under it. */
  lemma {:induction false} TexelPixel(s: bytes, info: Info, sx: int, sy: int, c: Rgba, x: nat, y: nat)
    requires Separate(info, |s|) && Visible(info, x, y)
    ensures info.Offset(x, y) + info.bpp <= |s|
    ensures PixelAt(DrawTexel(s, info, sx, sy, c), info, x, y)
         == if sx == x && sy == y then BlendPixel(info, PixelAt(s, info, x, y), c) else PixelAt(s, info, x, y)
  {
    hide BlendPixel;
    PixelFits(info, |s|, x, y);
    if sx >= 0 && sy >= 0 && Visible(info, sx, sy) {
      PixelFits(info, |s|, sx, sy);
      if sy < y || (sy == y && sx < x) {
        PixelsInOrder(info, |s|, sx, sy, x, y);
      } else if y < sy || x < sx {
        PixelsInOrder(info, |s|, x, y, sx, sy);
      }
    }
  }

  lemma {:induction false} RowPixel(s: bytes, info: Info, cx: int, cy: int, data: bytes, py: nat, n: nat, x: nat, y: nat)
    requires Separate(info, |s|) && Visible(info, x, y) && |data| == BYTES_PER_CELL && py < 16 && n <= 16
    ensures info.Offset(x, y) + info.bpp <= |s|
    ensures PixelAt(DrawRow(s, info, cx, cy, data, py, n), info, x, y)
         == if y == cy - 8 + py && cx - 8 <= x < cx - 8 + n
            then BlendPixel(info, PixelAt(s, info, x, y), Texel(data, py, x - cx + 8)) else PixelAt(s, info, x, y)
  {
    hide BlendPixel, DrawTexel, PixelAt, Texel;
    PixelFits(info, |s|, x, y);
    if n > 0 {
      RowPixel(s, info, cx, cy, data, py, n - 1, x, y);
      TexelPixel(DrawRow(s, info, cx, cy, data, py, n - 1), info, cx - 8 + n - 1, cy - 8 + py, Texel(data, py, n - 1), x, y);
    }
  }

  lemma {:induction false} RowsPixel(s: bytes, info: Info, cx: int, cy: int, data: bytes, n: nat, x: nat, y: nat)
    requires Separate(info, |s|) && Visible(info, x, y) && |data| == BYTES_PER_CELL && n <= 16
    ensures info.Offset(x, y) + info.bpp <= |s|
    ensures PixelAt(DrawRows(s, info, cx, cy, data, n), info, x, y)
         == if cy - 8 <= y < cy - 8 + n && cx - 8 <= x < cx + 8
            then BlendPixel(info, PixelAt(s, info, x, y), Texel(data, y - cy + 8, x - cx + 8)) else PixelAt(s, info, x, y)
  {
    hide BlendPixel, DrawRow, PixelAt, Texel;
    PixelFits(info, |s|, x, y);
    if n > 0 {
      RowsPixel(s, info, cx, cy, data, n - 1, x, y);
      RowPixel(DrawRows(s, info, cx, cy, data, n - 1), info, cx, cy, data, n - 1, 16, x, y);
    }
  }

  /** The sprite pixel of a cursor at (cx, cy) that lies over the screen pixel (x, y). A cursor whose
      hot spot is off the screen shows nothing. */
  function TexelOver(info: Info, cx: int, cy: int, data: bytes, x: nat, y: nat): Option<Rgba>
    requires |data| == BYTES_PER_CELL
  {
    if OnScreen(info, cx, cy) && cx - 8 <= x < cx + 8 && cy - 8 <= y < cy + 8
    then Some(Texel(data, y - cy + 8, x - cx + 8)) else None
  }

  /** Pixel (x, y) after the first n cursors, computed from the scene's pixel alone. */
  function ShownPixel(px: bytes, info: Info, c: Cursors, presets: seq<bytes>, preset: nat, n: nat, x: nat, y: nat): (q: bytes)
    requires info.Sane() && c.Valid() && SpritesOk(presets) && n <= MAX_CURSORS && |px| == info.bpp
    ensures |q| == |px|
    decreases n, |px|
  {
    if n == 0 then px else
    var below := ShownPixel(px, info, c, presets, preset, n - 1, x, y);
    if !c.active[n - 1] then below else
    match TexelOver(info, c.x[n - 1], c.y[n - 1], SpriteOf(presets, preset, n - 1), x, y)
    case None => below
    case Some(t) => BlendPixel(info, below, t)
  }

  /** One more cursor, read one pixel at a time. */
  lemma {:induction false} SpritePixel(s: bytes, info: Info, cx: int, cy: int, data: bytes, x: nat, y: nat)
    requires Separate(info, |s|) && Visible(info, x, y) && |data| == BYTES_PER_CELL
    ensures info.Offset(x, y) + info.bpp <= |s|
    ensures PixelAt(DrawSprite(s, info, cx, cy, data), info, x, y)
         == match TexelOver(info, cx, cy, data, x, y)
            case None => PixelAt(s, info, x, y)
            case Some(t) => BlendPixel(info, PixelAt(s, info, x, y), t)
  {
    hide BlendPixel, DrawRows, PixelAt, Texel;
    PixelFits(info, |s|, x, y);
    if OnScreen(info, cx, cy) {
      RowsPixel(s, info, cx, cy, data, 16, x, y);
    }
  }

  /** The overlay, read one pixel at a time. */
  lemma {:induction false} OverlayPixel(scene: bytes, info: Info, c: Cursors, presets: seq<bytes>, preset: nat, n: nat, x: nat, y: nat)
    requires Separate(info, |scene|) && Visible(info, x, y) && c.Valid() && SpritesOk(presets) && n <= MAX_CURSORS
    ensures info.Offset(x, y) + info.bpp <= |scene|
    ensures PixelAt(Overlay(scene, info, c, presets, preset, n), info, x, y)
         == ShownPixel(PixelAt(scene, info, x, y), info, c, presets, preset, n, x, y)
  {
    hide BlendPixel, DrawSprite, PixelAt, TexelOver;
    PixelFits(info, |scene|, x, y);
    if n > 0 {
      OverlayPixel(scene, info, c, presets, preset, n - 1, x, y);
      var prev := Overlay(scene, info, c, presets, preset, n - 1);
      SpritePixel(prev, info, c.x[n - 1], c.y[n - 1], SpriteOf(presets, preset, n - 1), x, y);
    }
  }

  // ----- colours

  /** v is the grey value of a colour: the mean of its channels, rounded down. */
  predicate IsGrey(v: int, r: int, g: int, b: int) {
    3 * v <= r + g + b < 3 * v + 3
  }

  /** The bytes of a pixel after a sprite pixel of red r, green g, blue b and alpha a, byte by byte: the means of each
      colour and the one below; on a grey screen, the grey value of the three means. */
  predicate Blended(info: Info, below: bytes, shown: bytes, r: byte, g: byte, b: byte, a: byte)
    requires |below| == |shown| == info.bpp && info.Sane()
  {
    match info.format
    case Rgb => IsMean(shown[0], r, below[0], a) && IsMean(shown[1], g, below[1], a) && IsMean(shown[2], b, below[2], a)
    case Bgr => IsMean(shown[2], r, below[2], a) && IsMean(shown[1], g, below[1], a) && IsMean(shown[0], b, below[0], a)
    case U8 => exists r': byte, g': byte, b': byte ::
      && IsMean(r', r, below[0], a) && IsMean(g', g, below[0], a) && IsMean(b', b, below[0], a)
      && IsGrey(shown[0], r', g', b')
    case Unknown => shown == below
  }

  /** The bytes that hold no colour: a fourth one becomes opaque, unless the sprite pixel is transparent. */
  predicate RestKept(info: Info, below: bytes, shown: bytes, a: byte)
    requires |below| == |shown| == info.bpp && info.Sane()
  {
    var colours := if info.format == Rgb || info.format == Bgr then 3 else if info.format == U8 then 1 else 0;
    forall k :: colours <= k < info.bpp ==> shown[k] == if colours == 3 && k == 3 && a > 0 then 255 else below[k]
  }

  /** What a blended pixel stores, the transparent sprite pixel included. */
  lemma {:induction false} BlendStores(info: Info, px: bytes, c: Rgba)
    requires info.Sane() && |px| == info.bpp && info.format != Unknown
    ensures ReadRgb(info, px).Some?
    ensures var (dr, dg, db) := ReadRgb(info, px).value;
            var r, g, b := BlendChannel(c.r, dr, c.a), BlendChannel(c.g, dg, c.a), BlendChannel(c.b, db, c.a);
            if c.a == 0 then BlendPixel(info, px, c) == px && r == dr && g == dg && b == db
            else BlendPixel(info, px, c) == WriteRgb(info, px, r, g, b)
  {
    hide WriteRgb, IsMean;
  }

  /** Storing a colour, byte by byte. */
  lemma {:induction false} StoresColour(info: Info, px: bytes, r: byte, g: byte, b: byte)
    requires info.Sane() && |px| == info.bpp
    ensures var q := WriteRgb(info, px, r, g, b);
            && (info.format == Rgb ==> q[0] == r && q[1] == g && q[2] == b)
            && (info.format == Bgr ==> q[2] == r && q[1] == g && q[0] == b)
            && (info.format == U8 ==> IsGrey(q[0], r, g, b))
            && RestKept(info, px, q, 1)
  {
  }

  lemma {:induction false} GreyOfGrey(v: byte)
    ensures IsGrey(v, v, v, v)
  {
  }

  lemma {:induction false} PixelBlended(info: Info, px: bytes, c: Rgba)
    requires info.Sane() && |px| == info.bpp
    ensures Blended(info, px, BlendPixel(info, px, c), c.r, c.g, c.b, c.a)
    ensures RestKept(info, px, BlendPixel(info, px, c), c.a)
  {
    hide BlendPixel, WriteRgb, StoredBytes, IsMean, IsGrey;
    if info.format == Unknown {
      NothingStored(info, px, c);
    } else {
      BlendStores(info, px, c);
      var (dr, dg, db) := ReadRgb(info, px).value;
      var r, g, b := BlendChannel(c.r, dr, c.a), BlendChannel(c.g, dg, c.a), BlendChannel(c.b, db, c.a);
      StoresColour(info, px, r, g, b);
      GreyOfGrey(dr);
      assert IsMean(r, c.r, dr, c.a) && IsMean(g, c.g, dg, c.a) && IsMean(b, c.b, db, c.a);
    }
  }

  lemma {:induction false} NothingStored(info: Info, px: bytes, c: Rgba)
    requires info.Sane() && |px| == info.bpp && info.format == Unknown
    ensures BlendPixel(info, px, c) == px
  {
  }

  /** A pixel under the n-th cursor, from the four bytes of its place in the sprite's cell: row by row, red, green,
      blue and alpha. */
  lemma {:induction false} ShownColour(px: bytes, info: Info, c: Cursors, presets: seq<bytes>, preset: nat, n: nat, x: nat, y: nat)
    requires info.Sane() && c.Valid() && SpritesOk(presets) && 0 < n <= MAX_CURSORS && |px| == info.bpp
    requires c.active[n - 1] && OnScreen(info, c.x[n - 1], c.y[n - 1])
    requires c.x[n - 1] - 8 <= x < c.x[n - 1] + 8 && c.y[n - 1] - 8 <= y < c.y[n - 1] + 8
    ensures var below := ShownPixel(px, info, c, presets, preset, n - 1, x, y);
            var shown := ShownPixel(px, info, c, presets, preset, n, x, y);
            var data, o := presets[(preset + n - 1) % 8], 64 * (y - c.y[n - 1] + 8) + 4 * (x - c.x[n - 1] + 8);
            && Blended(info, below, shown, data[o], data[o + 1], data[o + 2], data[o + 3])
            && RestKept(info, below, shown, data[o + 3])
            && (info.format == Rgb ==> ReadRgb(info, shown) == Some((shown[0], shown[1], shown[2])))
            && (info.format == Bgr ==> ReadRgb(info, shown) == Some((shown[2], shown[1], shown[0])))
  {
    hide Blended, RestKept, BlendPixel;
    var data := SpriteOf(presets, preset, n - 1);
    var t := Texel(data, y - c.y[n - 1] + 8, x - c.x[n - 1] + 8);
    PixelBlended(info, ShownPixel(px, info, c, presets, preset, n - 1, x, y), t);
  }
}
