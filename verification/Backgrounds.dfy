/** The first routine of a full repaint is a fill of the whole screen: one colour (kernel/src/gfx.rs:532-620,
    1253, 4436-4445) or six bands (kernel/src/gfx.rs:1069-1078). When such a fill hides what was there. */
module Backgrounds {
  import opened Bytes
  import opened Arithmetic
  import opened Framebuffer
  import opened CursorEngine
  import opened Fill
  import opened Compositor

  function ClearPainter(info: Info, c: Colour): Painter {
    Painter((s: bytes) => if info.Sane() then Cleared(s, info, c) else s)
  }

  /** Whatever else is drawn after a routine that overwrites the screen. */
  lemma {:induction false} AfterOverwriting(p: Painter, first: Painter, rest: Painter, info: Info)
    requires info.Sane() && Overwrites(first, info) && forall s :: p.Paint(s) == rest.Paint(first.Paint(s))
    ensures Overwrites(p, info)
  {
    hide SameHidden, Painter.Paint;
  }

  lemma {:induction false} ClearAgrees(s: bytes, t: bytes, info: Info, c: Colour)
    requires Usable(info, |s|) && Fills(info) && SameHidden(info, s, t)
    ensures Cleared(s, info, c) == Cleared(t, info, c)
  {
    hide FillRows, OfPixel;
    forall p | 0 <= p < |s| ensures Cleared(s, info, c)[p] == Cleared(t, info, c)[p] {
      FillAgrees(s, t, info, 0, 0, info.width, info.height, c, p);
    }
  }

  /** In a mode whose format is unknown nothing holds colour. */
  lemma {:induction false} NoColour(s: bytes, t: bytes, info: Info)
    requires info.Sane() && info.format == Unknown && SameHidden(info, s, t)
    ensures s == t
  {
    forall p: nat ensures !ColourByte(info, p) {
    }
  }

  /** `clear` hides what was there if and only if the rows of the mode do not overlap, or nothing can be shown. */
  lemma {:induction false} ClearOverwrites(info: Info, c: Colour)
    requires info.Sane()
    ensures Overwrites(ClearPainter(info, c), info) <==> info.stride >= info.width || info.format == Unknown
  {
    hide Filled, ColourByte;
    var p := ClearPainter(info, c);
    if info.stride >= info.width || info.format == Unknown {
      forall s, t | Usable(info, |s|) && SameHidden(info, s, t) ensures p.Paint(s) == p.Paint(t) {
        if info.format == Unknown {
          NoColour(s, t, info);
        } else {
          ClearAgrees(s, t, info, c);
        }
      }
    } else {
      NotCleared(info, c);
    }
  }

  /** Where rows overlap, `clear` returns at once and leaves the difference. */
  lemma {:induction false} NotCleared(info: Info, c: Colour)
    requires info.Sane() && info.stride < info.width && info.format != Unknown
    ensures !Overwrites(ClearPainter(info, c), info)
  {
    hide FillRows;
    var n := info.Offset(info.width, info.height - 1);
    OffsetMono(info, 1, 0, info.width, info.height - 1);
    assert info.Offset(1, 0) == info.bpp && info.Offset(0, 0) == 0 by { AtOnce(info); }
    var s, t := Zeros(n), Zeros(n)[0 := 1];
    assert OfPixel(info, 0, 0, 0);
    assert SameHidden(info, s, t);
    assert ClearPainter(info, c).Paint(s) == s && ClearPainter(info, c).Paint(t) == t;
    assert s[0] != t[0];
  }

  lemma {:induction false} AtOnce(info: Info)
    ensures info.Offset(1, 0) == info.bpp && info.Offset(0, 0) == 0
  {
    AtIs(1, info.bpp);
    AtIs(0, info.bpp);
    AtIs(0, At(info.stride, info.bpp));
  }

  // ----- six bands

  const BANDS := 6

  function BandStart(info: Info, b: nat): nat {
    b * info.height / BANDS
  }

  function BandColour(b: nat): Colour
    requires b < BANDS
  {
    var t := b * 20 / BANDS;
    Colour(26 + t, 30 + t, 48 + t * 2)
  }

  /** The buffer after the first n bands. */
  function Banded(s: bytes, info: Info, n: nat): (t: bytes)
    requires info.Sane() && n <= BANDS
    ensures |t| == |s|
    decreases n, |s|
  {
    if n == 0 then s else
    var y0 := BandStart(info, n - 1);
    Filled(Banded(s, info, n - 1), info, 0, y0, info.width, BandStart(info, n) - y0, BandColour(n - 1))
  }

  function BandPainter(info: Info): Painter {
    Painter((s: bytes) => if info.Sane() then Banded(s, info, BANDS) else s)
  }

  method DrawBands(buf: array<byte>, info: Info)
    requires Usable(info, buf.Length)
    modifies buf
    ensures buf[..] == Banded(old(buf[..]), info, BANDS)
  {
    hide Filled;
    for b := 0 to BANDS
      invariant buf[..] == Banded(old(buf[..]), info, b)
    {
      var y0 := b * info.height / BANDS;
      var y1 := (b + 1) * info.height / BANDS;
      var t := b * 20 / BANDS;
      FillRect(buf, info, 0, y0, info.width, y1 - y0, Colour(26 + t, 30 + t, 48 + t * 2));
    }
  }

  lemma {:induction false} BandPart(info: Info, b: nat)
    requires b < BANDS
    ensures var r := OnScreenPart(info, 0, BandStart(info, b), info.width, BandStart(info, b + 1) - BandStart(info, b));
            r.x == 0 && r.w == info.width && r.y == BandStart(info, b) && r.y + r.h == BandStart(info, b + 1)
  {
  }

  lemma {:induction false} BandsAgree(s: bytes, t: bytes, info: Info, n: nat, p: nat)
    requires |s| == |t| && Usable(info, |s|) && Fills(info) && p < |s| && n <= BANDS
    requires s[p] == t[p] || exists x: nat, y: nat :: x < info.width && y < BandStart(info, n) && OfPixel(info, x, y, p)
    ensures Banded(s, info, n)[p] == Banded(t, info, n)[p]
    decreases n
  {
    hide Filled, OfPixel, Fills, BandStart, OnScreenPart;
    if n == 0 {
      assert BandStart(info, 0) == 0 by { NoBand(info); }
    } else {
      if s[p] == t[p] || exists x: nat, y: nat :: x < info.width && y < BandStart(info, n - 1) && OfPixel(info, x, y, p) {
        BandsAgree(s, t, info, n - 1, p);
      }
      BandPart(info, n - 1);
      FillAgrees(Banded(s, info, n - 1), Banded(t, info, n - 1), info, 0, BandStart(info, n - 1), info.width,
                 BandStart(info, n) - BandStart(info, n - 1), BandColour(n - 1), p);
    }
  }

  lemma {:induction false} NoBand(info: Info)
    ensures BandStart(info, 0) == 0 && BandStart(info, BANDS) == info.height
  {
  }

  /** The bands tile the screen, so that they hide what was there like one fill. */
  lemma {:induction false} BandsOverwrite(info: Info)
    requires info.Sane() && Fills(info)
    ensures Overwrites(BandPainter(info), info)
  {
    hide Banded, OfPixel;
    var q := BandPainter(info);
    NoBand(info);
    forall s, t | Usable(info, |s|) && SameHidden(info, s, t) ensures q.Paint(s) == q.Paint(t) {
      forall p | 0 <= p < |s| ensures Banded(s, info, BANDS)[p] == Banded(t, info, BANDS)[p] {
        BandsAgree(s, t, info, BANDS, p);
      }
      assert Banded(s, info, BANDS) == Banded(t, info, BANDS);
    }
  }

  /** The screens of the kernel start with one of these fills, so that runs of frames meet what `RenderRun` asks
      for, on every mode whose rows do not overlap. */
  lemma {:induction false} FillsFirst(f: Frame, info: Info, first: Painter, rest: Painter, c: Colour)
    requires info.Sane() && Fills(info) && f.cursors.Valid()
    requires first == ClearPainter(info, c) || first == BandPainter(info)
    requires forall s :: Background(f).Paint(s) == rest.Paint(first.Paint(s))
    ensures FrameOk(f, info)
  {
    hide Background, Overwrites, Painter.Paint, ClearPainter, BandPainter;
    ClearOverwrites(info, c);
    BandsOverwrite(info);
    AfterOverwriting(Background(f), first, rest, info);
  }
}
