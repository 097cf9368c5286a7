/** Alpha-blended 16x16 cursor sprites (kernel/src/cursor_emoji.rs:62-208). */
module CursorSprite {
  import opened Bytes
  import opened Framebuffer

  const SPRITE := 16
  const SPRITE_STYLES := 8
  const BYTES_PER_CELL := 1024

  /** An RGBA sprite pixel. */
  datatype Rgba = Rgba(r: byte, g: byte, b: byte, a: byte)

  /** v is the mean of s and d with the weights sa and 255 - sa, rounded down. */
  predicate IsMean(v: byte, s: byte, d: byte, sa: byte) {
    255 * v <= s * sa + d * (255 - sa) < 255 * v + 255
  }

  /** One channel of a sprite pixel over what is below it. */
  function BlendChannel(s: byte, d: byte, sa: byte): (v: byte)
    ensures IsMean(v, s, d, sa)
    ensures sa == 0 ==> v == d
    ensures sa == 255 ==> v == s
    ensures (s <= v <= d) || (d <= v <= s)
  {
    BlendBetween(s, d, sa);
    (s * sa + d * (255 - sa)) / 255
  }

  lemma {:induction false} BlendBetween(s: byte, d: byte, sa: byte)
    ensures var v := (s * sa + d * (255 - sa)) / 255;
            && 0 <= v < 256 && (s <= v <= d || d <= v <= s) && (sa == 0 ==> v == d) && (sa == 255 ==> v == s)
            && IsMean(v, s, d, sa)
  {
    if s <= d {
      Share(d - s, sa);
      assert s * sa + d * (255 - sa) == 255 * d - (d - s) * sa;
    } else {
      Share(s - d, sa);
      assert s * sa + d * (255 - sa) == 255 * d + (s - d) * sa;
    }
  }

  lemma {:induction false} Share(n: nat, sa: byte)
    ensures 0 <= n * sa <= 255 * n && (sa == 0 ==> n * sa == 0) && (sa == 255 ==> n * sa == 255 * n)
  {
  }

  // ----- single pixels

  /** The colour in a pixel's bytes, if the format has one. */
  function ReadRgb(info: Info, px: bytes): Option<(byte, byte, byte)>
    requires |px| == info.bpp
  {
    match info.format
    case Rgb => if info.bpp >= 3 then Some((px[0], px[1], px[2])) else None
    case Bgr => if info.bpp >= 3 then Some((px[2], px[1], px[0])) else None
    case U8 => if info.bpp >= 1 then Some((px[0], px[0], px[0])) else None
    case Unknown => None
  }

  /** The bytes that storing a colour overwrites, from the start of the pixel. */
  function StoredBytes(info: Info, r: byte, g: byte, b: byte): (q: bytes)
    requires info.Sane()
    ensures |q| <= info.bpp
  {
    match info.format
    case Rgb => if info.bpp >= 4 then [r, g, b, 0xff] else [r, g, b]
    case Bgr => if info.bpp >= 4 then [b, g, r, 0xff] else [b, g, r]
    case U8 => [(r + g + b) / 3]
    case Unknown => []
  }

  /** A pixel's bytes after a colour has been stored in them. */
  function WriteRgb(info: Info, px: bytes, r: byte, g: byte, b: byte): (q: bytes)
    requires |px| == info.bpp && info.Sane()
    ensures |q| == |px|
  {
    StoredBytes(info, r, g, b) + px[|StoredBytes(info, r, g, b)|..]
  }

  /** What a stored colour reads back as: itself, or its grey value on an 8-bit screen. */
  lemma {:induction false} ReadAfterWrite(info: Info, px: bytes, r: byte, g: byte, b: byte)
    requires |px| == info.bpp && info.Sane() && info.format != Unknown
    ensures ReadRgb(info, WriteRgb(info, px, r, g, b))
         == Some(if info.format == U8 then ((r + g + b) / 3, (r + g + b) / 3, (r + g + b) / 3) else (r, g, b))
  {
  }

  /** A pixel's bytes after a sprite pixel has been blended over them. */
  function BlendPixel(info: Info, px: bytes, c: Rgba): (q: bytes)
    requires |px| == info.bpp && info.Sane()
    ensures |q| == |px|
  {
    if c.a == 0 then px
    else if c.a == 255 then WriteRgb(info, px, c.r, c.g, c.b)
    else match ReadRgb(info, px)
      case None => px
      case Some((dr, dg, db)) =>
        WriteRgb(info, px, BlendChannel(c.r, dr, c.a), BlendChannel(c.g, dg, c.a), BlendChannel(c.b, db, c.a))
  }

  /** The bytes of pixel (x, y). */
  function PixelAt(s: bytes, info: Info, x: nat, y: nat): (px: bytes)
    requires info.Offset(x, y) + info.bpp <= |s|
  {
    s[info.Offset(x, y)..info.Offset(x, y) + info.bpp]
  }

  function SetPixel(s: bytes, info: Info, x: nat, y: nat, px: bytes): (t: bytes)
    requires info.Offset(x, y) + info.bpp <= |s| && |px| == info.bpp
    ensures |t| == |s|
  {
    s[..info.Offset(x, y)] + px + s[info.Offset(x, y) + info.bpp..]
  }

  /** blend_over as a transformation of the buffer. */
  function BlendOver(s: bytes, info: Info, x: nat, y: nat, c: Rgba): (t: bytes)
    requires info.Sane()
    ensures |t| == |s|
  {
    if x >= info.width || y >= info.height || info.Offset(x, y) + info.bpp > |s| then s
    else SetPixel(s, info, x, y, BlendPixel(info, PixelAt(s, info, x, y), c))
  }

  method WriteRgbAt(buf: array<byte>, info: Info, x: nat, y: nat, r: byte, g: byte, b: byte)
    requires info.Sane()
    modifies buf
    ensures buf[..] == if x >= info.width || y >= info.height || info.Offset(x, y) + info.bpp > buf.Length then old(buf[..])
                       else SetPixel(old(buf[..]), info, x, y, WriteRgb(info, PixelAt(old(buf[..]), info, x, y), r, g, b))
  {
    hide Info.Offset, StoredBytes;
    if x >= info.width || y >= info.height {
      return;
    }
    var i := info.Offset(x, y);
    if i + info.bpp > buf.Length {
      return;
    }
    SpliceStored(buf[..], i, info.bpp, StoredBytes(info, r, g, b));
    CopyIn(buf, i, StoredBytes(info, r, g, b));
  }

  lemma {:induction false} SpliceStored(s: bytes, i: nat, n: nat, q: bytes)
    requires i + n <= |s| && |q| <= n
    ensures s[..i] + q + s[i + |q|..] == s[..i] + (q + s[i..i + n][|q|..]) + s[i + n..]
  {
  }

  method ReadRgbAt(buf: array<byte>, info: Info, x: nat, y: nat) returns (rgb: Option<(byte, byte, byte)>)
    requires info.Sane()
    ensures x < info.width && y < info.height && info.Offset(x, y) + info.bpp <= buf.Length ==>
              rgb == ReadRgb(info, PixelAt(buf[..], info, x, y))
    ensures x >= info.width || y >= info.height ==> rgb == None
  {
    if x >= info.width || y >= info.height {
      return None;
    }
    var i := info.Offset(x, y);
    if i + (if info.bpp < 3 then info.bpp else 3) > buf.Length {
      return None;
    }
    match info.format {
      case Rgb => rgb := if info.bpp >= 3 then Some((buf[i], buf[i + 1], buf[i + 2])) else None;
      case Bgr => rgb := if info.bpp >= 3 then Some((buf[i + 2], buf[i + 1], buf[i])) else None;
      case U8 => rgb := Some((buf[i], buf[i], buf[i]));
      case Unknown => rgb := None;
    }
  }

  method BlendOverAt(buf: array<byte>, info: Info, x: nat, y: nat, c: Rgba)
    requires info.Sane()
    modifies buf
    ensures buf[..] == BlendOver(old(buf[..]), info, x, y, c)
  {
    if c.a == 0 {
      BlendNothing(buf[..], info, x, y, c);
      return;
    }
    if c.a == 255 {
      WriteRgbAt(buf, info, x, y, c.r, c.g, c.b);
      return;
    }
    var rgb := ReadRgbAt(buf, info, x, y);
    match rgb {
      case None =>
        BlendNothing(buf[..], info, x, y, c);
      case Some((dr, dg, db)) =>
        WriteRgbAt(buf, info, x, y, BlendChannel(c.r, dr, c.a), BlendChannel(c.g, dg, c.a), BlendChannel(c.b, db, c.a));
    }
  }

  lemma {:induction false} BlendNothing(s: bytes, info: Info, x: nat, y: nat, c: Rgba)
    requires info.Sane()
    requires c.a == 0 || x >= info.width || y >= info.height || info.Offset(x, y) + info.bpp > |s|
             || (c.a != 255 && ReadRgb(info, PixelAt(s, info, x, y)) == None)
    ensures BlendOver(s, info, x, y, c) == s
  {
    if x < info.width && y < info.height && info.Offset(x, y) + info.bpp <= |s| {
      var px := PixelAt(s, info, x, y);
      assert BlendPixel(info, px, c) == px;
    }
  }

  // ----- whole sprites

  /** The sprite pixel in row py and column px. */
  function Texel(data: bytes, py: nat, px: nat): Rgba
    requires |data| == BYTES_PER_CELL && py < 16 && px < 16
  {
    var o := (py * 16 + px) * 4;
    Rgba(data[o], data[o + 1], data[o + 2], data[o + 3])
  }

  predicate OnScreen(info: Info, cx: int, cy: int) {
    0 <= cx < info.width && 0 <= cy < info.height
  }

  /** One sprite pixel over the screen position (sx, sy), which may lie off the screen. */
  function DrawTexel(s: bytes, info: Info, sx: int, sy: int, c: Rgba): (t: bytes)
    requires info.Sane()
    ensures |t| == |s|
  {
    if sx >= 0 && sy >= 0 then BlendOver(s, info, sx, sy, c) else s
  }

  /** The buffer after the first n pixels of sprite row py have been drawn. */
  function DrawRow(s: bytes, info: Info, cx: int, cy: int, data: bytes, py: nat, n: nat): (t: bytes)
    requires info.Sane() && |data| == BYTES_PER_CELL && py < 16 && n <= 16
    ensures |t| == |s|
    decreases n, |data|
  {
    if n == 0 then s else
    DrawTexel(DrawRow(s, info, cx, cy, data, py, n - 1), info, cx - 8 + n - 1, cy - 8 + py, Texel(data, py, n - 1))
  }

  /** The buffer after the first n rows of a sprite centred on (cx, cy) have been drawn. */
  function DrawRows(s: bytes, info: Info, cx: int, cy: int, data: bytes, n: nat): (t: bytes)
    requires info.Sane() && |data| == BYTES_PER_CELL && n <= 16
    ensures |t| == |s|
    decreases n, |data|
  {
    if n == 0 then s else DrawRow(DrawRows(s, info, cx, cy, data, n - 1), info, cx, cy, data, n - 1, 16)
  }

  function DrawSprite(s: bytes, info: Info, cx: int, cy: int, data: bytes): (t: bytes)
    requires info.Sane() && |data| == BYTES_PER_CELL
    ensures |t| == |s|
  {
    if OnScreen(info, cx, cy) then DrawRows(s, info, cx, cy, data, 16) else s
  }

  predicate SpritesOk(presets: seq<bytes>) {
    |presets| == SPRITE_STYLES && forall k :: 0 <= k < SPRITE_STYLES ==> |presets[k]| == BYTES_PER_CELL
  }

  method DrawSpriteAt(buf: array<byte>, info: Info, cx: int, cy: int, presets: seq<bytes>, preset: nat, idx: nat)
    requires info.Sane() && SpritesOk(presets)
    modifies buf
    ensures buf[..] == DrawSprite(old(buf[..]), info, cx, cy, presets[(preset + idx) % SPRITE_STYLES])
  {
    if cx < 0 || cy < 0 || cx >= info.width || cy >= info.height {
      return;
    }
    var data := presets[(preset + idx) % SPRITE_STYLES];
    ghost var was := buf[..];
    for py := 0 to SPRITE
      invariant buf[..] == DrawRows(was, info, cx, cy, data, py)
    {
      DrawRowAt(buf, info, cx, cy, data, py);
    }
  }

  /** The inner loop. */
  method DrawRowAt(buf: array<byte>, info: Info, cx: int, cy: int, data: bytes, py: nat)
    requires info.Sane() && |data| == BYTES_PER_CELL && py < SPRITE
    modifies buf
    ensures buf[..] == DrawRow(old(buf[..]), info, cx, cy, data, py, SPRITE)
  {
    hide DrawTexel;
    ghost var was := buf[..];
    for px := 0 to SPRITE
      invariant buf[..] == DrawRow(was, info, cx, cy, data, py, px)
    {
      var c := Texel(data, py, px);
      DrawTexelAt(buf, info, cx - 8 + px, cy - 8 + py, c);
    }
  }

  /** The body of the inner loop: transparent and off-screen pixels are skipped. */
  method DrawTexelAt(buf: array<byte>, info: Info, sx: int, sy: int, c: Rgba)
    requires info.Sane()
    modifies buf
    ensures buf[..] == DrawTexel(old(buf[..]), info, sx, sy, c)
  {
    if c.a == 0 {
      if sx >= 0 && sy >= 0 {
        BlendNothing(buf[..], info, sx, sy, c);
      }
      return;
    }
    if sx >= 0 && sy >= 0 && sx < info.width && sy < info.height {
      BlendOverAt(buf, info, sx, sy, c);
    }
  }
}
