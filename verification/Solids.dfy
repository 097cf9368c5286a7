/** Everything that the kernel's drawing routines write, they write as solid pixels (kernel/src/gfx.rs:477-512,
    kernel/src/emoji_glyph.rs:48-82): glyphs and emoji pixel by pixel, panels as filled rectangles. What such a routine
    does to a byte does not depend on the screen. */
module Solids {
  import opened Bytes
  import opened Framebuffer
  import opened CursorSprite
  import opened CursorEngine
  import opened OverlayPixels
  import opened Fill
  import opened Backgrounds
  import opened Compositor
  import opened DirtyParts

  // ----- one pixel

  /** What a solid pixel does to byte i. */
  function DotInk(info: Info, x: nat, y: nat, c: Colour, i: nat): Ink
    requires info.Sane()
  {
    StoredLength(info, c.r, c.g, c.b);
    if Visible(info, x, y) && OfPixel(info, x, y, i) then Some(StoredBytes(info, c.r, c.g, c.b)[i - info.Offset(x, y)]) else None
  }

  lemma {:induction false} DotLaid(s: bytes, info: Info, x: nat, y: nat, c: Colour, i: nat)
    requires Usable(info, |s|) && i < |s|
    ensures BlendOver(s, info, x, y, c.Solid())[i] == Laid(DotInk(info, x, y, c, i), s[i])
  {
    hide StoredBytes, ColourBytes, BlendOver, Info.Offset, BlendPixel;
    StoredLength(info, c.r, c.g, c.b);
    if Visible(info, x, y) {
      SolidStores(s, info, x, y, c);
    } else {
      BlendNothing(s, info, x, y, c.Solid());
    }
  }

  // ----- routines made of pixels

  datatype Dot = Dot(x: nat, y: nat, c: Colour)

  function Plot(s: bytes, info: Info, dots: seq<Dot>): (t: bytes)
    requires info.Sane()
    ensures |t| == |s|
    decreases |dots|
  {
    if dots == [] then s else
    var d := dots[|dots| - 1];
    BlendOver(Plot(s, info, dots[..|dots| - 1]), info, d.x, d.y, d.c.Solid())
  }

  function PlotInk(info: Info, dots: seq<Dot>, i: nat): Ink
    requires info.Sane()
    decreases |dots|
  {
    if dots == [] then None else
    var d := dots[|dots| - 1];
    Over(DotInk(info, d.x, d.y, d.c, i), PlotInk(info, dots[..|dots| - 1], i))
  }

  lemma {:induction false} PlotLaid(s: bytes, info: Info, dots: seq<Dot>, i: nat)
    requires Usable(info, |s|) && i < |s|
    ensures Plot(s, info, dots)[i] == Laid(PlotInk(info, dots, i), s[i])
    decreases |dots|
  {
    hide BlendOver, DotInk;
    if dots != [] {
      var d, rest := dots[|dots| - 1], dots[..|dots| - 1];
      PlotLaid(s, info, rest, i);
      DotLaid(Plot(s, info, rest), info, d.x, d.y, d.c, i);
    }
  }

  // ----- filled rectangles

  function RowInk(info: Info, x0: nat, y: nat, n: nat, c: Colour, i: nat): Ink
    requires info.Sane()
  {
    if n == 0 then None else Over(DotInk(info, x0 + n - 1, y, c, i), RowInk(info, x0, y, n - 1, c, i))
  }

  function RowsInk(info: Info, x0: nat, w: nat, y0: nat, n: nat, c: Colour, i: nat): Ink
    requires info.Sane()
  {
    if n == 0 then None else Over(RowInk(info, x0, y0 + n - 1, w, c, i), RowsInk(info, x0, w, y0, n - 1, c, i))
  }

  function FillInk(info: Info, x0: nat, y0: nat, rw: nat, rh: nat, c: Colour, i: nat): Ink
    requires info.Sane()
  {
    var r := OnScreenPart(info, x0, y0, rw, rh);
    if r.Empty() || !Fills(info) then None else RowsInk(info, r.x, r.w, r.y, r.h, c, i)
  }

  lemma {:induction false} RowLaid(s: bytes, info: Info, x0: nat, y: nat, n: nat, c: Colour, i: nat)
    requires Usable(info, |s|) && i < |s|
    ensures FillRow(s, info, x0, y, n, c)[i] == Laid(RowInk(info, x0, y, n, c, i), s[i])
    decreases n
  {
    hide BlendOver, DotInk;
    if n > 0 {
      RowLaid(s, info, x0, y, n - 1, c, i);
      DotLaid(FillRow(s, info, x0, y, n - 1, c), info, x0 + n - 1, y, c, i);
    }
  }

  lemma {:induction false} RowsLaid(s: bytes, info: Info, x0: nat, w: nat, y0: nat, n: nat, c: Colour, i: nat)
    requires Usable(info, |s|) && i < |s|
    ensures FillRows(s, info, x0, w, y0, n, c)[i] == Laid(RowsInk(info, x0, w, y0, n, c, i), s[i])
    decreases n
  {
    hide FillRow, RowInk;
    if n > 0 {
      RowsLaid(s, info, x0, w, y0, n - 1, c, i);
      RowLaid(FillRows(s, info, x0, w, y0, n - 1, c), info, x0, y0 + n - 1, w, c, i);
    }
  }

  lemma {:induction false} FillLaid(s: bytes, info: Info, x0: nat, y0: nat, rw: nat, rh: nat, c: Colour, i: nat)
    requires Usable(info, |s|) && i < |s|
    ensures Filled(s, info, x0, y0, rw, rh, c)[i] == Laid(FillInk(info, x0, y0, rw, rh, c, i), s[i])
  {
    hide FillRows, RowsInk;
    var r := OnScreenPart(info, x0, y0, rw, rh);
    RowsLaid(s, info, r.x, r.w, r.y, r.h, c, i);
  }

  // ----- which colour a filled byte gets

  /** Where rows do not overlap, a byte belongs to one visible pixel. */
  lemma {:induction false} OnePixel(info: Info, n: nat, x: nat, y: nat, x': nat, y': nat, i: nat)
    requires Separate(info, n) && Visible(info, x, y) && Visible(info, x', y')
    requires OfPixel(info, x, y, i) && OfPixel(info, x', y', i)
    ensures x == x' && y == y'
  {
    hide Info.Offset, ColourBytes;
    if y < y' || (y == y' && x < x') {
      PixelsInOrder(info, n, x, y, x', y');
    } else if y' < y || (y == y' && x' < x) {
      PixelsInOrder(info, n, x', y', x, y);
    }
  }

  lemma {:induction false} RowColour(info: Info, size: nat, x0: nat, y': nat, n: nat, c: Colour, x: nat, y: nat, i: nat)
    requires Separate(info, size) && Visible(info, x, y) && OfPixel(info, x, y, i) && y' < info.height && x0 + n <= info.width
    ensures RowInk(info, x0, y', n, c, i) == if y' == y && x0 <= x < x0 + n then DotInk(info, x, y, c, i) else None
    ensures DotInk(info, x, y, c, i).Some?
    decreases n
  {
    hide OfPixel, StoredBytes;
    if n > 0 {
      RowColour(info, size, x0, y', n - 1, c, x, y, i);
      if OfPixel(info, x0 + n - 1, y', i) {
        OnePixel(info, size, x, y, x0 + n - 1, y', i);
      }
    }
  }

  lemma {:induction false} RowsColour(info: Info, size: nat, x0: nat, w: nat, y0: nat, n: nat, c: Colour, x: nat, y: nat, i: nat)
    requires Separate(info, size) && Visible(info, x, y) && OfPixel(info, x, y, i) && x0 + w <= info.width && y0 + n <= info.height
    ensures RowsInk(info, x0, w, y0, n, c, i) == if x0 <= x < x0 + w && y0 <= y < y0 + n then DotInk(info, x, y, c, i) else None
    decreases n
  {
    hide OfPixel, DotInk, RowInk;
    if n > 0 {
      RowsColour(info, size, x0, w, y0, n - 1, c, x, y, i);
      RowColour(info, size, x0, y0 + n - 1, w, c, x, y, i);
    }
  }

  /** A fill sets the colour bytes of the pixels of its rectangle to its colour, and no other pixel's. */
  lemma {:induction false} FillColour(info: Info, size: nat, x0: nat, y0: nat, rw: nat, rh: nat, c: Colour, x: nat, y: nat, i: nat)
    requires Separate(info, size) && info.format != Unknown && Visible(info, x, y) && OfPixel(info, x, y, i)
    ensures FillInk(info, x0, y0, rw, rh, c, i)
         == if x0 <= x < x0 + rw && y0 <= y < y0 + rh then DotInk(info, x, y, c, i) else None
  {
    hide OfPixel, DotInk, RowsInk;
    var r := OnScreenPart(info, x0, y0, rw, rh);
    RowsColour(info, size, r.x, r.w, r.y, r.h, c, x, y, i);
  }

  /** The warning screen's background: of h rows, those from b * h / 6 up to (b + 1) * h / 6 have the b-th of six shades. */
  lemma {:induction false} BandPixel(s: bytes, info: Info, n: nat, b: nat, x: nat, y: nat, i: nat)
    requires Separate(info, |s|) && info.format != Unknown && Visible(info, x, y) && OfPixel(info, x, y, i) && i < |s|
    requires b < n <= 6 && b * info.height / 6 <= y < (b + 1) * info.height / 6
    ensures var shade := b * 20 / 6;
            Some(Banded(s, info, n)[i]) == DotInk(info, x, y, Colour(26 + shade, 30 + shade, 48 + 2 * shade), i)
    decreases n
  {
    hide DotInk, OfPixel, FillInk, Filled, Separate;
    var k := n - 1;
    assert Usable(info, |s|) by { SeparateUsable(info, |s|); }
    BandsInOrder(info.height, b, k);
    var y0, h := BandStart(info, k), BandStart(info, n) - BandStart(info, k);
    FillLaid(Banded(s, info, k), info, 0, y0, info.width, h, BandColour(k), i);
    FillColour(info, |s|, 0, y0, info.width, h, BandColour(k), x, y, i);
    if b < k {
      BandPixel(s, info, k, b, x, y, i);
    } else {
      DotIsInk(info, x, y, BandColour(k), i);
    }
  }

  lemma {:induction false} DotIsInk(info: Info, x: nat, y: nat, c: Colour, i: nat)
    requires info.Sane() && Visible(info, x, y) && OfPixel(info, x, y, i)
    ensures DotInk(info, x, y, c, i).Some?
  {
  }

  lemma {:induction false} SeparateUsable(info: Info, n: nat)
    requires Separate(info, n)
    ensures Usable(info, n)
  {
  }

  lemma {:induction false} BandsInOrder(h: nat, b: nat, k: nat)
    requires b <= k
    ensures b * h / 6 <= k * h / 6 <= (k + 1) * h / 6 && (b < k ==> (b + 1) * h / 6 <= k * h / 6)
  {
    assert b * h <= k * h <= (k + 1) * h;
    if b < k {
      assert (b + 1) * h <= k * h;
    }
  }

  // ----- routines that do not look

  /** A routine whose effect on a byte is this ink. */
  lemma {:induction false} InkIs(p: Painter, n: nat, i: nat, ink: Ink)
    requires i < n && forall s :: |s| == n ==> p.Paint(s)[i] == Laid(ink, s[i])
    ensures Stencil(p, n, i) && InkOf(p, n, i) == ink
  {
    hide Painter.Paint;
    if ink.Some? {
      var s := Zeros(n)[i := (ink.value + 1) % 256];
      assert |s| == n && p.Paint(s)[i] != s[i];
      assert p.Paint(Zeros(n))[i] == ink.value;
    }
  }

  /** Drawing pixels and filling rectangles, in any number and order. */
  datatype Stroke = Pixels(dots: seq<Dot>) | Fill(x0: nat, y0: nat, rw: nat, rh: nat, c: Colour)

  function Draw(s: bytes, info: Info, strokes: seq<Stroke>): (t: bytes)
    requires info.Sane()
    ensures |t| == |s|
    decreases |strokes|
  {
    if strokes == [] then s else
    var prev := Draw(s, info, strokes[..|strokes| - 1]);
    match strokes[|strokes| - 1]
    case Pixels(dots) => Plot(prev, info, dots)
    case Fill(x0, y0, rw, rh, c) => Filled(prev, info, x0, y0, rw, rh, c)
  }

  function StrokeInk(info: Info, stroke: Stroke, i: nat): Ink
    requires info.Sane()
  {
    match stroke
    case Pixels(dots) => PlotInk(info, dots, i)
    case Fill(x0, y0, rw, rh, c) => FillInk(info, x0, y0, rw, rh, c, i)
  }

  function DrawInk(info: Info, strokes: seq<Stroke>, i: nat): Ink
    requires info.Sane()
    decreases |strokes|
  {
    if strokes == [] then None
    else Over(StrokeInk(info, strokes[|strokes| - 1], i), DrawInk(info, strokes[..|strokes| - 1], i))
  }

  lemma {:induction false} DrawLaid(s: bytes, info: Info, strokes: seq<Stroke>, i: nat)
    requires Usable(info, |s|) && i < |s|
    ensures Draw(s, info, strokes)[i] == Laid(DrawInk(info, strokes, i), s[i])
    decreases |strokes|
  {
    hide Plot, Filled, PlotInk, FillInk;
    if strokes != [] {
      var rest := strokes[..|strokes| - 1];
      DrawLaid(s, info, rest, i);
      match strokes[|strokes| - 1]
      case Pixels(dots) => PlotLaid(Draw(s, info, rest), info, dots, i);
      case Fill(x0, y0, rw, rh, c) => FillLaid(Draw(s, info, rest), info, x0, y0, rw, rh, c, i);
    }
  }

  /** A routine made of such strokes does not look at the screen: what `DirtyParts` asks of the kernel's. */
  lemma {:induction false} StrokesAreStencil(p: Painter, info: Info, strokes: seq<Stroke>, n: nat, i: nat)
    requires Usable(info, n) && i < n && forall s :: |s| == n ==> p.Paint(s) == Draw(s, info, strokes)
    ensures Stencil(p, n, i) && InkOf(p, n, i) == DrawInk(info, strokes, i)
  {
    hide Painter.Paint, Draw, DrawInk, Stencil, InkOf;
    forall s | |s| == n ensures p.Paint(s)[i] == Laid(DrawInk(info, strokes, i), s[i]) {
      DrawLaid(s, info, strokes, i);
    }
    InkIs(p, n, i, DrawInk(info, strokes, i));
  }

  ghost predicate MadeOfStrokes(p: Painter, info: Info, n: nat)
    requires info.Sane()
  {
    exists strokes :: DrawsStrokes(p, info, strokes, n)
  }

  ghost predicate DrawsStrokes(p: Painter, info: Info, strokes: seq<Stroke>, n: nat)
    requires info.Sane()
  {
    forall s :: |s| == n ==> p.Paint(s) == Draw(s, info, strokes)
  }

  lemma {:induction false} MadeIsStencil(p: Painter, info: Info, n: nat, i: nat)
    requires Usable(info, n) && i < n && MadeOfStrokes(p, info, n)
    ensures Stencil(p, n, i)
  {
    hide Painter.Paint, Draw, Stencil, InkOf;
    var strokes :| DrawsStrokes(p, info, strokes, n);
    StrokesAreStencil(p, info, strokes, n, i);
  }

  /** A routine that hides the colours on the screen, and does not look at it, sets every byte that holds colour. */
  lemma {:induction false} CoversColour(p: Painter, info: Info, n: nat, i: nat)
    requires Usable(info, n) && i < n && ColourByte(info, i) && Overwrites(p, info) && Stencil(p, n, i)
    ensures InkOf(p, n, i).Some?
  {
    hide Painter.Paint, ColourByte;
    var s, t := Zeros(n), Zeros(n)[i := 1];
    assert SameHidden(info, s, t);
    assert p.Paint(s) == p.Paint(t);
    assert s[i] != t[i];
  }

  /** The frames of the kernel are as the lemmas about the dirty flags ask: their routines are made of strokes, and the first one
      of a full repaint hides what was there, which `RenderRun` asks as well. */
  lemma {:induction false} StrokesDrawn(f: Frame, info: Info, n: nat, i: nat)
    requires Usable(info, n) && i < n && ColourByte(info, i) && FrameOk(f, info)
    requires MadeOfStrokes(Background(f), info, n) && MadeOfStrokes(f.p.chromeAndTabs, info, n)
    requires MadeOfStrokes(StripPainter(f), info, n) && MadeOfStrokes(BodyPainter(f), info, n)
    requires MadeOfStrokes(f.p.statusLine, info, n) && MadeOfStrokes(f.p.fillStatusStrip, info, n)
    requires MadeOfStrokes(f.p.browserBody, info, n)
    ensures Drawn(f, n, i)
  {
    hide Painter.Paint, MadeOfStrokes, Stencil, InkOf, Background, StripPainter, BodyPainter, ColourByte, Overwrites;
    MadeIsStencil(Background(f), info, n, i);
    MadeIsStencil(f.p.chromeAndTabs, info, n, i);
    MadeIsStencil(StripPainter(f), info, n, i);
    MadeIsStencil(BodyPainter(f), info, n, i);
    MadeIsStencil(f.p.statusLine, info, n, i);
    MadeIsStencil(f.p.fillStatusStrip, info, n, i);
    MadeIsStencil(f.p.browserBody, info, n, i);
    CoversColour(Background(f), info, n, i);
  }
}
