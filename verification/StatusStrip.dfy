/** The strip at the bottom of a framed screen (kernel/src/gfx.rs:4295-4474). A full repaint leaves it in the desktop's
    colour with the status text on it; a refresh of the status fills it with another colour first; a repaint of the
    chrome draws the text over whatever is there. When it shows what a full repaint would show. */
module StatusStrip {
  import opened Bytes
  import opened Framebuffer
  import opened CursorSprite
  import opened OverlayPixels
  import opened Fill
  import opened Compositor
  import opened DirtyParts
  import opened Solids

  /** What is behind the text, and the text drawn since. */
  datatype Strip = Strip(back: byte, text: Ink) {
    function Shown(): byte {
      Laid(text, back)
    }
  }

  /** On framed screens, only the ground, the strip's fill and the status text reach the byte. */
  predicate OfStrip(f: Frame, k: Inks) {
    && k.ground.Some? && (!f.biosFullpage ==> k.browser == None)
    && (Framed(f) ==> k.chrome == k.strip == k.body == None && k.fill.Some?)
  }

  /** The frame fills the strip and draws the status text anew. */
  predicate Refreshes(f: Frame) {
    && !f.dirty.content && !f.dirty.chrome && f.dirty.status
    && if f.dirty.body then !f.biosFullpage else Framed(f)
  }

  /** The frame starts from an empty screen. */
  predicate StartsOver(f: Frame) {
    f.dirty.content || (f.dirty.chrome && !Framed(f))
  }

  function After(st: Strip, f: Frame, k: Inks): Strip {
    if StartsOver(f) then
      Strip(Laid(k.ground, st.back), if Framed(f) then k.status else if Warning(f.screen) then None else k.browser)
    else if f.dirty.chrome then st.(text := Over(k.status, st.text))
    else if Refreshes(f) then
      if k.fill.Some? then Strip(k.fill.value, k.status) else st.(text := Over(k.status, st.text))
    else if f.dirty.body then st.(text := Over(k.browser, st.text))
    else st
  }

  lemma {:induction false} AfterShows(scene: bytes, st: Strip, f: Frame, i: nat)
    requires i < |scene| && Drawn(f, |scene|, i) && OfStrip(f, InksAt(f, |scene|, i)) && scene[i] == st.Shown()
    ensures NextScene(scene, f)[i] == After(st, f, InksAt(f, |scene|, i)).Shown()
  {
    hide NextScene, Drawn, InksAt;
    NextSceneAt(scene, f, i);
  }

  // ----- one frame

  /** The byte holds text of this frame, drawn by it; or the frame started over; or the status was refreshed in the
      desktop's colour; or, under a repaint of the chrome, older text or what is behind it has that colour. A frame that
      does not draw the status leaves what was there. */
  predicate StripRight(f: Frame, k: Inks, st: Strip) {
    if f.dirty.content then true
    else if f.dirty.chrome then k.status.Some? || (if st.text.Some? then st.text == k.ground else Some(st.back) == k.ground)
    else if Refreshes(f) then k.status.Some? || k.fill == k.ground
    else Some(st.Shown()) == Over(k.status, k.ground)
  }

  /** On a framed screen, a byte of the strip shows what a full repaint would show if and only if the above holds. */
  lemma {:induction false} StripIsRight(scene: bytes, any: bytes, st: Strip, f: Frame, i: nat)
    requires |any| == |scene| && i < |scene| && Drawn(f, |scene|, i) && Framed(f)
    requires OfStrip(f, InksAt(f, |scene|, i)) && scene[i] == st.Shown()
    ensures NextScene(scene, f)[i] == Repainted(any, f)[i] <==> StripRight(f, InksAt(f, |scene|, i), st)
  {
    hide NextScene, Drawn, InksAt, Repainted;
    NextSceneAt(scene, f, i);
    RepaintedAt(any, f, i);
  }

  // ----- whole runs

  ghost predicate AllOfStrip(frames: seq<Frame>, size: nat, i: nat)
    requires i < size
  {
    forall k :: 0 <= k < |frames| ==> OfStrip(frames[k], InksAt(frames[k], size, i))
  }

  /** The strip after n frames of a run on a buffer that showed v. */
  ghost function RunStrip(v: byte, frames: seq<Frame>, size: nat, n: nat, i: nat): Strip
    requires n <= |frames| && i < size
    decreases n
  {
    if n == 0 then Strip(v, None)
    else After(RunStrip(v, frames, size, n - 1, i), frames[n - 1], InksAt(frames[n - 1], size, i))
  }

  lemma {:induction false} QuietStrip(st: Strip, f: Frame, k: Inks)
    ensures f.dirty.Clean() ==> After(st, f, k) == st
  {
  }

  lemma {:induction false} RunStripShows(s: bytes, frames: seq<Frame>, info: Info, n: nat, i: nat)
    requires info.Sane() && FramesOk(frames, info) && 1 <= n <= |frames| && i < |s|
    requires AllDrawn(frames, |s|, i) && AllOfStrip(frames, |s|, i)
    ensures NaiveRun(s, frames, info, n).scene[i] == RunStrip(s[i], frames, |s|, n, i).Shown()
    decreases n
  {
    hide NextScene, FrameOk, Drawn, InksAt, OfStrip, After;
    var f := frames[n - 1];
    assert Drawn(f, |s|, i) && OfStrip(f, InksAt(f, |s|, i));
    if n == 1 {
      assert RunStrip(s[i], frames, |s|, 0, i).Shown() == s[i];
      AfterShows(s, Strip(s[i], None), f, i);
    } else {
      RunStripShows(s, frames, info, n - 1, i);
      var m, st := NaiveRun(s, frames, info, n - 1), RunStrip(s[i], frames, |s|, n - 1, i);
      FrameCursors(frames, info, n - 1);
      AfterShows(m.scene, st, f, i);
      QuietStrip(st, f, InksAt(f, |s|, i));
    }
  }

  /** In every run: after a framed frame, a byte of the strip shows what a full repaint of that frame would show if and only
      if it holds text now, or nothing but the desktop's colour has been drawn there since the last background. */
  lemma {:induction false} StripOfRun(s: bytes, any: bytes, frames: seq<Frame>, info: Info, n: nat, i: nat)
    requires info.Sane() && FramesOk(frames, info) && 2 <= n <= |frames| && |any| == |s| && i < |s|
    requires AllDrawn(frames, |s|, i) && AllOfStrip(frames, |s|, i) && Framed(frames[n - 1])
    ensures NaiveRun(s, frames, info, n).scene[i] == Repainted(any, frames[n - 1])[i]
            <==> StripRight(frames[n - 1], InksAt(frames[n - 1], |s|, i), RunStrip(s[i], frames, |s|, n - 1, i))
  {
    hide NextScene, FrameOk, Drawn, InksAt, OfStrip, StripRight, Repainted, RunStrip;
    var f, m := frames[n - 1], NaiveRun(s, frames, info, n - 1);
    assert Drawn(f, |s|, i) && OfStrip(f, InksAt(f, |s|, i));
    RunStripShows(s, frames, info, n - 1, i);
    FrameCursors(frames, info, n - 1);
    QuietScene(m.scene, f);
    StripIsRight(m.scene, any, RunStrip(s[i], frames, |s|, n - 1, i), f, i);
  }

  /** Frames a to n - 1 show the frame, have no text at the byte, and fill it with w if they fill it. */
  ghost predicate NoText(frames: seq<Frame>, size: nat, a: nat, n: nat, i: nat, w: byte)
    requires n <= |frames| && i < size
  {
    forall k :: a <= k < n ==> !StartsOver(frames[k]) && Framed(frames[k])
                               && InksAt(frames[k], size, i).status == None && InksAt(frames[k], size, i).fill == Some(w)
  }

  /** Once the status has been refreshed, a byte of the strip without text keeps the fill's colour until the screen is
      repainted from the ground. */
  lemma {:induction false} FillStays(v: byte, frames: seq<Frame>, size: nat, a: nat, n: nat, i: nat, w: byte)
    requires a < n <= |frames| && i < size && AllOfStrip(frames, size, i)
    requires Refreshes(frames[a]) && NoText(frames, size, a, n, i, w)
    ensures RunStrip(v, frames, size, n, i) == Strip(w, None)
    decreases n
  {
    hide InksAt;
    var f := frames[n - 1];
    assert !StartsOver(f) && Framed(f) && OfStrip(f, InksAt(f, size, i));
    if a < n - 1 {
      FillStays(v, frames, size, a, n - 1, i, w);
    }
  }

  // ----- the two ways in which the strip goes wrong

  /** A full repaint and then a refresh of the status of the same screen: a byte without text shows the fill's colour,
      where a full repaint shows the desktop's. */
  lemma {:induction false} RefreshTurnsStrip(s: bytes, any: bytes, f: Frame, g: Frame, i: nat)
    requires |any| == |s| && i < |s| && Drawn(f, |s|, i) && OfStrip(f, InksAt(f, |s|, i)) && Framed(f)
    requires f.dirty.content && g == f.(dirty := Dirty(false, false, false, true)) && InksAt(f, |s|, i).status == None
    ensures NextScene(NextScene(s, f), g)[i] == InksAt(f, |s|, i).fill.value
    ensures Repainted(any, g)[i] == InksAt(f, |s|, i).ground.value
  {
    hide NextScene, Drawn, InksAt, Repainted;
    SameRoutines(f, g, |s|, i);
    NextSceneAt(NextScene(s, f), g, i);
    RepaintedAt(any, g, i);
  }

  lemma {:induction false} SameRoutines(f: Frame, g: Frame, n: nat, i: nat)
    requires i < n && g == f.(dirty := g.dirty)
    ensures InksAt(g, n, i) == InksAt(f, n, i) && (Drawn(f, n, i) ==> Drawn(g, n, i))
  {
    hide Stencil, InkOf;
  }

  /** A full repaint of one frame and then a repaint of the chrome for another: text of the first stays where the second has
      none. */
  lemma {:induction false} OldTextStays(s: bytes, any: bytes, f: Frame, g: Frame, i: nat)
    requires |any| == |s| && i < |s| && Drawn(f, |s|, i) && Drawn(g, |s|, i) && Framed(f) && Framed(g)
    requires OfStrip(f, InksAt(f, |s|, i)) && OfStrip(g, InksAt(g, |s|, i))
    requires f.dirty.content && g.dirty.chrome && !g.dirty.content
    requires InksAt(f, |s|, i).status.Some? && InksAt(g, |s|, i).status == None
    ensures NextScene(NextScene(s, f), g)[i] == InksAt(f, |s|, i).status.value
    ensures Repainted(any, g)[i] == InksAt(g, |s|, i).ground.value
  {
    hide NextScene, Drawn, InksAt, Repainted;
    NextSceneAt(s, f, i);
    NextSceneAt(NextScene(s, f), g, i);
    RepaintedAt(any, g, i);
  }

  // ----- the kernel's colours

  const STRIP_HEIGHT := 28

  datatype Theme = Light | Dark

  function Desktop(t: Theme): Colour {
    if t == Light then Colour(0xd0, 0xe4, 0xff) else Colour(0x12, 0x16, 0x22)
  }

  function StatusBack(t: Theme): Colour {
    if t == Light then Colour(0x38, 0x6c, 0xc8) else Colour(0x1a, 0x3a, 0x5c)
  }

  function StripTop(info: Info): nat {
    if info.height <= STRIP_HEIGHT then 0 else info.height - STRIP_HEIGHT
  }

  /** In both themes the two colours differ in every byte but the unused fourth. */
  lemma {:induction false} ColoursDiffer(t: Theme, info: Info, k: nat)
    requires info.Sane() && k < ColourBytes(info) && k < 3
    ensures var d, w := Desktop(t), StatusBack(t);
            && k < |StoredBytes(info, d.r, d.g, d.b)| == |StoredBytes(info, w.r, w.g, w.b)|
            && StoredBytes(info, d.r, d.g, d.b)[k] != StoredBytes(info, w.r, w.g, w.b)[k]
  {
  }

  /** The two fills of the strip, as the kernel calls them. */
  ghost predicate KernelFills(f: Frame, info: Info, t: Theme)
    requires info.Sane()
  {
    && (forall s :: Background(f).Paint(s) == Cleared(s, info, Desktop(t)))
    && (forall s :: f.p.fillStatusStrip.Paint(s) == Filled(s, info, 0, StripTop(info), info.width, STRIP_HEIGHT, StatusBack(t)))
  }

  lemma {:induction false} KernelInks(f: Frame, info: Info, t: Theme, n: nat, x: nat, y: nat, i: nat)
    requires Separate(info, n) && info.format != Unknown && i < n && KernelFills(f, info, t)
    requires Visible(info, x, y) && y >= StripTop(info) && OfPixel(info, x, y, i)
    ensures Stencil(Background(f), n, i) && InkOf(Background(f), n, i) == DotInk(info, x, y, Desktop(t), i)
    ensures Stencil(f.p.fillStatusStrip, n, i) && InkOf(f.p.fillStatusStrip, n, i) == DotInk(info, x, y, StatusBack(t), i)
  {
    hide Painter.Paint, Stencil, InkOf, Background, Filled, FillInk, DotInk, OfPixel;
    var d, w, top := Desktop(t), StatusBack(t), StripTop(info);
    forall s | |s| == n
      ensures Background(f).Paint(s)[i] == Laid(DotInk(info, x, y, d, i), s[i])
      ensures f.p.fillStatusStrip.Paint(s)[i] == Laid(DotInk(info, x, y, w, i), s[i])
    {
      FillLaid(s, info, 0, 0, info.width, info.height, d, i);
      FillColour(info, n, 0, 0, info.width, info.height, d, x, y, i);
      FillLaid(s, info, 0, top, info.width, STRIP_HEIGHT, w, i);
      FillColour(info, n, 0, top, info.width, STRIP_HEIGHT, w, x, y, i);
    }
    InkIs(Background(f), n, i, DotInk(info, x, y, d, i));
    InkIs(f.p.fillStatusStrip, n, i, DotInk(info, x, y, w, i));
  }

  /** A byte that no routine of the frame draws on, apart from the two fills. */
  ghost predicate Bare(f: Frame, n: nat, i: nat)
    requires i < n
  {
    && Keeps(f.p.chromeAndTabs, n, i) && Keeps(StripPainter(f), n, i) && Keeps(BodyPainter(f), n, i)
    && Keeps(f.p.browserBody, n, i) && Keeps(f.p.statusLine, n, i)
  }

  predicate Differ(s: bytes, t: bytes, i: nat) {
    i < |s| == |t| && s[i] != t[i]
  }

  lemma {:induction false} KeptInk(p: Painter, n: nat, i: nat)
    requires i < n && Keeps(p, n, i)
    ensures Stencil(p, n, i) && InkOf(p, n, i) == None
  {
    hide Painter.Paint, Keeps, Fixes;
  }

  lemma {:induction false} BareInks(f: Frame, info: Info, t: Theme, n: nat, x: nat, y: nat, i: nat)
    requires Separate(info, n) && info.format != Unknown && i < n && KernelFills(f, info, t) && Bare(f, n, i)
    requires Visible(info, x, y) && y >= StripTop(info) && OfPixel(info, x, y, i)
    ensures DotInk(info, x, y, Desktop(t), i).Some? && DotInk(info, x, y, StatusBack(t), i).Some? && Drawn(f, n, i)
    ensures InksAt(f, n, i)
         == Inks(DotInk(info, x, y, Desktop(t), i), None, None, None, None, DotInk(info, x, y, StatusBack(t), i), None)
  {
    hide Painter.Paint, Stencil, InkOf, Background, Keeps, StripPainter, BodyPainter, KernelFills, Separate, StoredBytes;
    KernelInks(f, info, t, n, x, y, i);
    KeptInk(f.p.chromeAndTabs, n, i);
    KeptInk(StripPainter(f), n, i);
    KeptInk(BodyPainter(f), n, i);
    KeptInk(f.p.browserBody, n, i);
    KeptInk(f.p.statusLine, n, i);
  }

  lemma {:induction false} DotsDiffer(t: Theme, info: Info, x: nat, y: nat, i: nat)
    requires info.Sane() && Visible(info, x, y) && OfPixel(info, x, y, i) && i < info.Offset(x, y) + 3
    ensures DotInk(info, x, y, Desktop(t), i) != DotInk(info, x, y, StatusBack(t), i)
  {
    hide Info.Offset, StoredBytes, ColourBytes;
    ColoursDiffer(t, info, i - info.Offset(x, y));
  }

  /** With the kernel's colours, in either theme and every mode: after a full repaint of any framed screen and a refresh of its
      status, every strip pixel without text shows another colour than a full repaint would give it. */
  lemma {:induction false} StripTurnsColour(s: bytes, any: bytes, f: Frame, g: Frame, info: Info, t: Theme, x: nat, y: nat, i: nat)
    requires Separate(info, |s|) && info.format != Unknown && |any| == |s| && i < |s| && KernelFills(f, info, t)
    requires Visible(info, x, y) && y >= StripTop(info) && OfPixel(info, x, y, i) && i < info.Offset(x, y) + 3
    requires Framed(f) && f.dirty.content && g == f.(dirty := Dirty(false, false, false, true)) && Bare(f, |s|, i)
    ensures Differ(NextScene(NextScene(s, f), g), Repainted(any, g), i)
  {
    hide Drawn, InksAt, NextScene, Repainted, Bare, KernelFills, DotInk, OfPixel;
    BareInks(f, info, t, |s|, x, y, i);
    DotsDiffer(t, info, x, y, i);
    RefreshTurnsStrip(s, any, f, g, i);
  }
}
