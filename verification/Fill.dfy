/** Solid fills (kernel/src/gfx.rs:477-620 and 847-930): which bytes a colour is stored in, and that a fill of
    the whole screen forgets them all. */
module Fill {
  import opened Bytes
  import opened Arithmetic
  import opened Framebuffer
  import opened CursorSprite
  import opened CursorEngine

  datatype Colour = Colour(r: byte, g: byte, b: byte) {
    /** A solid pixel of that colour. */
    function Solid(): Rgba {
      Rgba(r, g, b, 255)
    }
  }

  // ----- the bytes that hold colours

  /** How many bytes of a pixel hold its colour; the others are never written. */
  function ColourBytes(info: Info): (n: nat)
    requires info.Sane()
    ensures n <= info.bpp
  {
    match info.format
    case U8 => 1
    case Unknown => 0
    case _ => if info.bpp >= 4 then 4 else 3
  }

  lemma {:induction false} StoredLength(info: Info, r: byte, g: byte, b: byte)
    requires info.Sane()
    ensures |StoredBytes(info, r, g, b)| == ColourBytes(info)
  {
  }

  /** Byte p holds colour of pixel (x, y). */
  predicate OfPixel(info: Info, x: nat, y: nat, p: nat)
    requires info.Sane()
  {
    info.Offset(x, y) <= p < info.Offset(x, y) + ColourBytes(info)
  }

  /** Byte p holds colour of a visible pixel. */
  ghost predicate ColourByte(info: Info, p: nat)
    requires info.Sane()
  {
    exists x: nat, y: nat :: x < info.width && y < info.height && OfPixel(info, x, y, p)
  }

  // ----- sprites only touch them

  /** Writing a colour into a pixel changes its colour bytes only. */
  lemma {:induction false} WriteKeeps(info: Info, px: bytes, r: byte, g: byte, b: byte, k: nat)
    requires info.Sane() && |px| == info.bpp && ColourBytes(info) <= k < |px|
    ensures WriteRgb(info, px, r, g, b)[k] == px[k]
  {
    hide StoredBytes;
    StoredLength(info, r, g, b);
  }

  lemma {:induction false} BlendKeeps(info: Info, px: bytes, c: Rgba, k: nat)
    requires info.Sane() && |px| == info.bpp && ColourBytes(info) <= k < |px|
    ensures BlendPixel(info, px, c)[k] == px[k]
  {
    hide ColourBytes, WriteRgb, BlendChannel;
    if c.a == 255 {
      WriteKeeps(info, px, c.r, c.g, c.b, k);
    } else if c.a != 0 {
      match ReadRgb(info, px)
      case None =>
      case Some((dr, dg, db)) =>
        WriteKeeps(info, px, BlendChannel(c.r, dr, c.a), BlendChannel(c.g, dg, c.a), BlendChannel(c.b, db, c.a), k);
    }
  }

  lemma {:induction false} BlendStores(s: bytes, info: Info, x: nat, y: nat, c: Rgba, p: nat)
    requires info.Sane() && p < |s| && BlendOver(s, info, x, y, c)[p] != s[p]
    ensures x < info.width && y < info.height && OfPixel(info, x, y, p)
  {
    hide BlendPixel, ColourBytes, Info.Offset;
    var o := info.Offset(x, y);
    assert o <= p < o + info.bpp;
    if p >= o + ColourBytes(info) {
      BlendKeeps(info, PixelAt(s, info, x, y), c, p - o);
    }
  }

  lemma {:induction false} RowStores(s: bytes, info: Info, cx: int, cy: int, data: bytes, py: nat, n: nat, p: nat)
    requires info.Sane() && |data| == BYTES_PER_CELL && py < 16 && n <= 16 && p < |s| && !ColourByte(info, p)
    ensures DrawRow(s, info, cx, cy, data, py, n)[p] == s[p]
  {
    hide BlendOver, OfPixel;
    if n > 0 {
      RowStores(s, info, cx, cy, data, py, n - 1, p);
      var t, sx, sy := DrawRow(s, info, cx, cy, data, py, n - 1), cx - 8 + n - 1, cy - 8 + py;
      if sx >= 0 && sy >= 0 && BlendOver(t, info, sx, sy, Texel(data, py, n - 1))[p] != t[p] {
        BlendStores(t, info, sx, sy, Texel(data, py, n - 1), p);
      }
    }
  }

  lemma {:induction false} RowsStore(s: bytes, info: Info, cx: int, cy: int, data: bytes, n: nat, p: nat)
    requires info.Sane() && |data| == BYTES_PER_CELL && n <= 16 && p < |s| && !ColourByte(info, p)
    ensures DrawRows(s, info, cx, cy, data, n)[p] == s[p]
  {
    hide DrawRow, ColourByte;
    if n > 0 {
      RowsStore(s, info, cx, cy, data, n - 1, p);
      RowStores(DrawRows(s, info, cx, cy, data, n - 1), info, cx, cy, data, n - 1, 16, p);
    }
  }

  /** Cursors only change bytes that hold colour of visible pixels. */
  lemma {:induction false} OverlayStores(scene: bytes, info: Info, c: Cursors, presets: seq<bytes>, preset: nat, n: nat, p: nat)
    requires info.Sane() && c.Valid() && SpritesOk(presets) && n <= MAX_CURSORS && p < |scene| && !ColourByte(info, p)
    ensures Overlay(scene, info, c, presets, preset, n)[p] == scene[p]
  {
    hide DrawRows, ColourByte;
    if n > 0 {
      OverlayStores(scene, info, c, presets, preset, n - 1, p);
      if c.active[n - 1] {
        RowsStore(Overlay(scene, info, c, presets, preset, n - 1), info, c.x[n - 1], c.y[n - 1], SpriteOf(presets, preset, n - 1), 16, p);
      }
    }
  }

  // ----- solid fills

  /** n pixels of a row, from column x0 on. */
  function FillRow(s: bytes, info: Info, x0: nat, y: nat, n: nat, c: Colour): (t: bytes)
    requires info.Sane()
    ensures |t| == |s|
    decreases n, |s|
  {
    if n == 0 then s else BlendOver(FillRow(s, info, x0, y, n - 1, c), info, x0 + n - 1, y, c.Solid())
  }

  /** n rows of w pixels. */
  function FillRows(s: bytes, info: Info, x0: nat, w: nat, y0: nat, n: nat, c: Colour): (t: bytes)
    requires info.Sane()
    ensures |t| == |s|
    decreases n, |s|
  {
    if n == 0 then s else FillRow(FillRows(s, info, x0, w, y0, n - 1, c), info, x0, y0 + n - 1, w, c)
  }

  /** The part of a rectangle that lies on the screen. */
  function OnScreenPart(info: Info, x0: nat, y0: nat, rw: nat, rh: nat): (r: Rect)
    ensures r.Inside(info)
  {
    var x, y := Min(x0, info.width), Min(y0, info.height);
    var x1, y1 := Min(x0 + rw, info.width), Min(y0 + rh, info.height);
    Rect(x, y, if x1 <= x then 0 else x1 - x, if y1 <= y then 0 else y1 - y)
  }

  /** Fills write nothing in a mode whose rows overlap or whose format is unknown. */
  predicate Fills(info: Info) {
    info.stride >= info.width && info.format != Unknown
  }

  /** fill_rect */
  function Filled(s: bytes, info: Info, x0: nat, y0: nat, rw: nat, rh: nat, c: Colour): (t: bytes)
    requires info.Sane()
    ensures |t| == |s|
  {
    var r := OnScreenPart(info, x0, y0, rw, rh);
    if r.Empty() || !Fills(info) then s else FillRows(s, info, r.x, r.w, r.y, r.h, c)
  }

  /** clear */
  function Cleared(s: bytes, info: Info, c: Colour): (t: bytes)
    requires info.Sane()
    ensures |t| == |s|
  {
    Filled(s, info, 0, 0, info.width, info.height, c)
  }

  // ----- the fills in place

  lemma {:induction false} SolidStores(s: bytes, info: Info, x: nat, y: nat, c: Colour)
    requires Usable(info, |s|) && x < info.width && y < info.height
    ensures info.Offset(x, y) + info.bpp <= |s|
    ensures BlendOver(s, info, x, y, c.Solid()) == Splice(s, info.Offset(x, y), StoredBytes(info, c.r, c.g, c.b))
  {
    hide StoredBytes, Info.Offset;
    RowFits(info, Rect(x, y, 1, 1), 0, |s|);
    SpliceStored(s, info.Offset(x, y), info.bpp, StoredBytes(info, c.r, c.g, c.b));
  }

  /** Formats without unused bytes are filled row by row with copies of one pixel. */
  predicate Packed(info: Info) {
    match info.format
    case U8 => info.bpp == 1
    case Unknown => false
    case _ => info.bpp == 3 || info.bpp == 4
  }

  /** One row, chunk by chunk. */
  method FillPackedRow(buf: array<byte>, info: Info, x0: nat, y: nat, w: nat, c: Colour)
    requires Usable(info, buf.Length) && Packed(info) && x0 + w <= info.width && y < info.height
    modifies buf
    ensures buf[..] == FillRow(old(buf[..]), info, x0, y, w, c)
  {
    hide StoredBytes, BlendOver, Splice;
    var pat := StoredBytes(info, c.r, c.g, c.b);
    for i := 0 to w
      invariant buf[..] == FillRow(old(buf[..]), info, x0, y, i, c)
    {
      SolidStores(buf[..], info, x0 + i, y, c);
      CopyIn(buf, info.Offset(x0 + i, y), pat);
    }
  }

  /** One row, pixel by pixel. */
  method FillPixels(buf: array<byte>, info: Info, x0: nat, y: nat, w: nat, c: Colour)
    requires info.Sane()
    modifies buf
    ensures buf[..] == FillRow(old(buf[..]), info, x0, y, w, c)
  {
    hide StoredBytes, BlendOver;
    for i := 0 to w
      invariant buf[..] == FillRow(old(buf[..]), info, x0, y, i, c)
    {
      BlendOverAt(buf, info, x0 + i, y, c.Solid());
    }
  }

  method FillRect(buf: array<byte>, info: Info, x0: nat, y0: nat, rw: nat, rh: nat, c: Colour)
    requires Usable(info, buf.Length)
    modifies buf
    ensures buf[..] == Filled(old(buf[..]), info, x0, y0, rw, rh, c)
  {
    hide FillRow;
    var r := OnScreenPart(info, x0, y0, rw, rh);
    if r.Empty() {
      return;
    }
    if info.stride < info.width || info.format == Unknown {
      return;
    }
    for i := 0 to r.h
      invariant buf[..] == FillRows(old(buf[..]), info, r.x, r.w, r.y, i, c)
    {
      if Packed(info) {
        FillPackedRow(buf, info, r.x, r.y + i, r.w, c);
      } else {
        FillPixels(buf, info, r.x, r.y + i, r.w, c);
      }
    }
  }

  method Clear(buf: array<byte>, info: Info, c: Colour)
    requires Usable(info, buf.Length)
    modifies buf
    ensures buf[..] == Cleared(old(buf[..]), info, c)
  {
    FillRect(buf, info, 0, 0, info.width, info.height, c);
  }

  // ----- two buffers become one

  /** A solid pixel makes two buffers agree on it, and keeps what they agree on. */
  lemma {:induction false} PixelAgrees(s: bytes, t: bytes, info: Info, x: nat, y: nat, c: Colour, p: nat)
    requires |s| == |t| && Usable(info, |s|) && x < info.width && y < info.height && p < |s|
    requires s[p] == t[p] || OfPixel(info, x, y, p)
    ensures BlendOver(s, info, x, y, c.Solid())[p] == BlendOver(t, info, x, y, c.Solid())[p]
  {
    hide StoredBytes, ColourBytes, BlendOver, Info.Offset;
    SolidStores(s, info, x, y, c);
    SolidStores(t, info, x, y, c);
    StoredLength(info, c.r, c.g, c.b);
  }

  lemma {:induction false} RowAgrees(s: bytes, t: bytes, info: Info, x0: nat, y: nat, n: nat, c: Colour, p: nat)
    requires |s| == |t| && Usable(info, |s|) && x0 + n <= info.width && y < info.height && p < |s|
    requires s[p] == t[p] || exists x: nat :: x0 <= x < x0 + n && OfPixel(info, x, y, p)
    ensures FillRow(s, info, x0, y, n, c)[p] == FillRow(t, info, x0, y, n, c)[p]
    decreases n
  {
    hide BlendOver, OfPixel;
    if n > 0 {
      var x := x0 + n - 1;
      if s[p] == t[p] || !OfPixel(info, x, y, p) {
        RowAgrees(s, t, info, x0, y, n - 1, c, p);
      }
      PixelAgrees(FillRow(s, info, x0, y, n - 1, c), FillRow(t, info, x0, y, n - 1, c), info, x, y, c, p);
    }
  }

  /** A filled rectangle looks the same whatever was there before. */
  lemma {:induction false} RowsAgree(s: bytes, t: bytes, info: Info, x0: nat, w: nat, y0: nat, n: nat, c: Colour, p: nat)
    requires |s| == |t| && Usable(info, |s|) && x0 + w <= info.width && y0 + n <= info.height && p < |s|
    requires s[p] == t[p] || exists x: nat, y: nat :: x0 <= x < x0 + w && y0 <= y < y0 + n && OfPixel(info, x, y, p)
    ensures FillRows(s, info, x0, w, y0, n, c)[p] == FillRows(t, info, x0, w, y0, n, c)[p]
    decreases n
  {
    hide FillRow, OfPixel;
    if n > 0 {
      var y := y0 + n - 1;
      if s[p] == t[p] || !exists x: nat :: x0 <= x < x0 + w && OfPixel(info, x, y, p) {
        RowsAgree(s, t, info, x0, w, y0, n - 1, c, p);
      }
      RowAgrees(FillRows(s, info, x0, w, y0, n - 1, c), FillRows(t, info, x0, w, y0, n - 1, c), info, x0, y, w, c, p);
    }
  }

  lemma {:induction false} FillAgrees(s: bytes, t: bytes, info: Info, x0: nat, y0: nat, rw: nat, rh: nat, c: Colour, p: nat)
    requires |s| == |t| && Usable(info, |s|) && Fills(info) && p < |s|
    requires var r := OnScreenPart(info, x0, y0, rw, rh);
             s[p] == t[p] || exists x: nat, y: nat :: r.x <= x < r.x + r.w && r.y <= y < r.y + r.h && OfPixel(info, x, y, p)
    ensures Filled(s, info, x0, y0, rw, rh, c)[p] == Filled(t, info, x0, y0, rw, rh, c)[p]
  {
    hide FillRows, OfPixel;
    var r := OnScreenPart(info, x0, y0, rw, rh);
    if !r.Empty() {
      RowsAgree(s, t, info, r.x, r.w, r.y, r.h, c, p);
    }
  }
}
