/** The incremental compositor (kernel/src/gfx.rs:4425-4590): repaint what is dirty, keep the cursors on
    top. Painting itself is abstract; which painters run, and on what, is not. */
module Compositor {
  import opened Bytes
  import opened Framebuffer
  import opened CursorSprite
  import opened CursorEngine
  import opened Fill

  /** A drawing routine, as a change of the buffer. */
  datatype Painter = Painter(f: bytes -> bytes) {
    function Paint(s: bytes): (t: bytes)
      ensures |t| == |s|
    {
      if |f(s)| == |s| then f(s) else s
    }
  }

  datatype Screen = EpilepsyWarning | CaliforniaAgeNotice | Browser | Settings | DiskInstall | Log

  datatype Dirty = Dirty(content: bool, chrome: bool, body: bool, status: bool) {
    predicate Clean() {
      !content && !chrome && !body && !status
    }
  }

  /** The painters of one user-interface state. */
  datatype Painters = Painters(
    epilepsyWarning: Painter, ageNotice: Painter, clearBiosPage: Painter, clearDesktop: Painter,
    chromeAndTabs: Painter, installStrip: Painter, urlBar: Painter,
    browserBody: Painter, settingsBody: Painter, installBody: Painter, logBody: Painter,
    fillStatusStrip: Painter, statusLine: Painter)

  /** The part of the user-interface state that render_frame reads. */
  datatype Frame = Frame(dirty: Dirty, screen: Screen, biosFullpage: bool, cursors: Cursors, preset: nat, p: Painters)

  /** Both warning screens replace the whole user interface. */
  predicate Warning(screen: Screen) {
    screen == EpilepsyWarning || screen == CaliforniaAgeNotice
  }

  function TopStrip(s: bytes, f: Frame): (t: bytes)
    ensures |t| == |s|
  {
    match f.screen
    case EpilepsyWarning => s
    case CaliforniaAgeNotice => s
    case DiskInstall => f.p.installStrip.Paint(s)
    case _ => f.p.urlBar.Paint(s)
  }

  function Body(s: bytes, f: Frame): (t: bytes)
    ensures |t| == |s|
  {
    match f.screen
    case Browser => f.p.browserBody.Paint(s)
    case Settings => f.p.settingsBody.Paint(s)
    case DiskInstall => f.p.installBody.Paint(s)
    case Log => f.p.logBody.Paint(s)
    case _ => s
  }

  /** The first routine of a full repaint. */
  function Background(f: Frame): Painter {
    if f.screen == EpilepsyWarning then f.p.epilepsyWarning
    else if f.screen == CaliforniaAgeNotice then f.p.ageNotice
    else if f.biosFullpage then f.p.clearBiosPage
    else f.p.clearDesktop
  }

  function Repainted(s: bytes, f: Frame): (t: bytes)
    ensures |t| == |s|
  {
    var b := Background(f).Paint(s);
    if Warning(f.screen) then b
    else if f.biosFullpage then f.p.browserBody.Paint(b)
    else f.p.statusLine.Paint(Body(TopStrip(f.p.chromeAndTabs.Paint(b), f), f))
  }

  function ChromeRepainted(s: bytes, f: Frame): (t: bytes)
    ensures |t| == |s|
  {
    if f.screen == EpilepsyWarning then f.p.epilepsyWarning.Paint(s)
    else if f.screen == CaliforniaAgeNotice then f.p.ageNotice.Paint(s)
    else if f.biosFullpage then f.p.browserBody.Paint(f.p.clearBiosPage.Paint(s))
    else
      var t := f.p.statusLine.Paint(TopStrip(f.p.chromeAndTabs.Paint(s), f));
      if f.screen == Browser && f.dirty.body then f.p.browserBody.Paint(t) else t
  }

  function StatusRepainted(s: bytes, f: Frame): (t: bytes)
    ensures |t| == |s|
  {
    f.p.statusLine.Paint(f.p.fillStatusStrip.Paint(s))
  }

  /** The clean scene after a frame: the dirty parts painted over the clean scene before it. */
  function NextScene(scene: bytes, f: Frame): (t: bytes)
    ensures |t| == |scene|
  {
    if f.dirty.content then Repainted(scene, f)
    else if f.dirty.chrome then ChromeRepainted(scene, f)
    else if f.dirty.body then
      var t := f.p.browserBody.Paint(scene);
      if f.dirty.status && !f.biosFullpage then StatusRepainted(t, f) else t
    else if f.dirty.status && !f.biosFullpage && !Warning(f.screen) then StatusRepainted(scene, f)
    else scene
  }

  /** Only a status strip that the full-page view hides stays to be drawn. */
  function NextDirty(f: Frame): Dirty {
    Dirty(false, false, false, !f.dirty.content && !f.dirty.chrome && f.dirty.body && f.dirty.status && f.biosFullpage)
  }

  ghost predicate AnyMoved(c: Cursors, last: Cursors)
    requires c.Valid() && last.Valid()
  {
    exists i :: 0 <= i < MAX_CURSORS && Moved(c, last, i)
  }

  /** Nothing to draw. */
  ghost predicate Quiet(f: Frame, last: Cursors)
    requires f.cursors.Valid() && last.Valid()
  {
    f.dirty.Clean() && !AnyMoved(f.cursors, last)
  }

  // ----- full repaints forget what was on the screen

  /** The two buffers differ in bytes that hold colour of visible pixels only. */
  ghost predicate SameHidden(info: Info, s: bytes, t: bytes)
    requires info.Sane()
  {
    |s| == |t| && forall p :: 0 <= p < |s| && s[p] != t[p] ==> ColourByte(info, p)
  }

  /** A routine that overwrites the colour of every visible pixel. */
  ghost predicate Overwrites(p: Painter, info: Info)
    requires info.Sane()
  {
    forall s, t :: Usable(info, |s|) && SameHidden(info, s, t) ==> p.Paint(s) == p.Paint(t)
  }

  lemma {:induction false} OverlayHidden(scene: bytes, info: Info, c: Cursors, presets: seq<bytes>, preset: nat)
    requires info.Sane() && c.Valid() && SpritesOk(presets)
    ensures SameHidden(info, Overlay(scene, info, c, presets, preset, MAX_CURSORS), scene)
  {
    hide Overlay, ColourByte;
    var s := Overlay(scene, info, c, presets, preset, MAX_CURSORS);
    forall p | 0 <= p < |s| && s[p] != scene[p] ensures ColourByte(info, p) {
      if !ColourByte(info, p) {
        OverlayStores(scene, info, c, presets, preset, MAX_CURSORS, p);
      }
    }
  }

  /** A full repaint over the shown screen gives what it gives over the clean scene. */
  lemma {:induction false} RepaintForgets(scene: bytes, info: Info, c: Cursors, presets: seq<bytes>, preset: nat, f: Frame)
    requires Usable(info, |scene|) && c.Valid() && SpritesOk(presets) && Overwrites(Background(f), info)
    ensures Repainted(Overlay(scene, info, c, presets, preset, MAX_CURSORS), f) == Repainted(scene, f)
  {
    hide Overlay, SameHidden, Background;
    OverlayHidden(scene, info, c, presets, preset);
  }

  // ----- the compositor

  method Apply(buf: array<byte>, p: Painter)
    modifies buf
    ensures buf[..] == p.Paint(old(buf[..]))
  {
    CopyIn(buf, 0, p.Paint(buf[..]));
  }

  method DrawTopStrip(buf: array<byte>, f: Frame)
    modifies buf
    ensures buf[..] == TopStrip(old(buf[..]), f)
  {
    match f.screen {
      case EpilepsyWarning =>
      case CaliforniaAgeNotice =>
      case DiskInstall => Apply(buf, f.p.installStrip);
      case _ => Apply(buf, f.p.urlBar);
    }
  }

  method PaintUi(buf: array<byte>, f: Frame)
    modifies buf
    ensures buf[..] == Repainted(old(buf[..]), f)
  {
    if f.screen == EpilepsyWarning {
      Apply(buf, f.p.epilepsyWarning);
      return;
    }
    if f.screen == CaliforniaAgeNotice {
      Apply(buf, f.p.ageNotice);
      return;
    }
    if f.biosFullpage {
      Apply(buf, f.p.clearBiosPage);
      Apply(buf, f.p.browserBody);
      return;
    }
    Apply(buf, f.p.clearDesktop);
    Apply(buf, f.p.chromeAndTabs);
    DrawTopStrip(buf, f);
    match f.screen {
      case Browser => Apply(buf, f.p.browserBody);
      case Settings => Apply(buf, f.p.settingsBody);
      case DiskInstall => Apply(buf, f.p.installBody);
      case Log => Apply(buf, f.p.logBody);
      case _ =>
    }
    Apply(buf, f.p.statusLine);
  }

  method RedrawStatusStrip(buf: array<byte>, f: Frame)
    modifies buf
    ensures buf[..] == StatusRepainted(old(buf[..]), f)
  {
    Apply(buf, f.p.fillStatusStrip);
    Apply(buf, f.p.statusLine);
  }

  method PaintChrome(buf: array<byte>, f: Frame)
    modifies buf
    ensures buf[..] == ChromeRepainted(old(buf[..]), f)
  {
    if f.screen == EpilepsyWarning {
      Apply(buf, f.p.epilepsyWarning);
    } else if f.screen == CaliforniaAgeNotice {
      Apply(buf, f.p.ageNotice);
    } else if f.biosFullpage {
      Apply(buf, f.p.clearBiosPage);
      Apply(buf, f.p.browserBody);
    } else {
      Apply(buf, f.p.chromeAndTabs);
      DrawTopStrip(buf, f);
      Apply(buf, f.p.statusLine);
      if f.screen == Browser && f.dirty.body {
        Apply(buf, f.p.browserBody);
      }
    }
  }

  /** The engine is at work, or nothing has been drawn yet. */
  ghost predicate Ready(eng: Engine, buf: bytes, scene: bytes, info: Info)
    reads eng
  {
    && eng.Valid() && Usable(info, |buf|)
    && if eng.initialized then eng.Shows(buf, scene, info) else buf == scene
  }

  class UiState {
    var dirty: Dirty
    var screen: Screen
    var biosFullpage: bool
    var cursors: Cursors
    var preset: nat
    var painters: Painters

    function Now(): Frame
      reads this
    {
      Frame(dirty, screen, biosFullpage, cursors, preset, painters)
    }

    constructor (f: Frame)
      ensures Now() == f
    {
      dirty, screen, biosFullpage, cursors, preset, painters := f.dirty, f.screen, f.biosFullpage, f.cursors, f.preset, f.p;
    }
  }

  /** Takes the cursors off the screen, if there are any, and forgets what was saved. */
  method Uncover(buf: array<byte>, info: Info, eng: Engine, ghost scene: bytes)
    requires Ready(eng, buf[..], scene, info)
    modifies buf, eng`slots
    ensures eng.Valid() && buf[..] == scene
  {
    hide Overlay, HoldsAll;
    if eng.initialized {
      eng.RestoreAll(buf, info, scene);
    }
    eng.InvalidateAllSaves();
  }

  /** A full repaint over whatever is shown. */
  method RepaintAll(buf: array<byte>, info: Info, eng: Engine, f: Frame, ghost scene: bytes)
    requires Ready(eng, buf[..], scene, info) && Overwrites(Background(f), info)
    modifies buf, eng`slots
    ensures eng.Valid() && buf[..] == Repainted(scene, f)
  {
    hide Overlay, HoldsAll, Repainted, Overwrites, Background;
    if eng.initialized {
      RepaintForgets(scene, info, eng.last, eng.presets, eng.lastPreset, f);
    }
    eng.InvalidateAllSaves();
    PaintUi(buf, f);
  }

  method RefreshStatus(buf: array<byte>, info: Info, eng: Engine, f: Frame, ghost scene: bytes)
    requires eng.Shows(buf[..], scene, info)
    modifies buf, eng`slots
    ensures eng.Valid() && buf[..] == StatusRepainted(scene, f)
  {
    hide Overlay, HoldsAll, StatusRepainted;
    eng.RestoreAll(buf, info, scene);
    RedrawStatusStrip(buf, f);
    eng.InvalidateAllSaves();
  }

  /** One frame. Whatever is dirty, the screen ends up as the clean scene with the cursors over it, and
      the clean scene has changed by painting alone. A frame with nothing dirty and no pointer moved
      draws nothing, so that it keeps the sprites of an earlier preset. */
  method RenderFrame(buf: array<byte>, info: Info, state: UiState, eng: Engine, ghost scene: bytes)
    requires Ready(eng, buf[..], scene, info) && (eng.initialized || state.dirty.content)
    requires state.cursors.Valid() && Overwrites(Background(state.Now()), info)
    modifies buf, eng, state`dirty
    ensures eng.initialized && eng.Shows(buf[..], NextScene(scene, old(state.Now())), info)
    ensures state.dirty == NextDirty(old(state.Now()))
    ensures if old(eng.initialized) && Quiet(old(state.Now()), old(eng.last))
            then eng.last == old(eng.last) && eng.lastPreset == old(eng.lastPreset)
            else eng.last == state.cursors && eng.lastPreset == state.preset
  {
    hide Overlay, HoldsAll, Repainted, ChromeRepainted, StatusRepainted, Overwrites, Background, Painter.Paint, Usable, SpritesOk;
    var f := state.Now();
    var moved := eng.AnyCursorMoved(f.cursors);
    if eng.initialized && !f.dirty.content && !f.dirty.chrome && !f.dirty.body && !f.dirty.status && !moved {
      return;
    }
    if f.dirty.content {
      RepaintAll(buf, info, eng, f, scene);
      eng.PrimeCursors(buf, info, f.cursors, f.preset);
      eng.initialized := true;
      state.dirty := Dirty(false, false, false, false);
      return;
    }
    if f.dirty.chrome {
      Uncover(buf, info, eng, scene);
      PaintChrome(buf, f);
      eng.PrimeCursors(buf, info, f.cursors, f.preset);
      eng.initialized := true;
      state.dirty := Dirty(state.dirty.content, false, false, false);
      return;
    }
    if f.dirty.body {
      Uncover(buf, info, eng, scene);
      Apply(buf, f.p.browserBody);
      if f.dirty.status && !f.biosFullpage {
        RedrawStatusStrip(buf, f);
        state.dirty := state.dirty.(status := false);
      }
      eng.PrimeCursors(buf, info, f.cursors, f.preset);
      eng.initialized := true;
      state.dirty := state.dirty.(body := false);
      return;
    }
    if f.dirty.status {
      if f.biosFullpage || f.screen == EpilepsyWarning || f.screen == CaliforniaAgeNotice {
        state.dirty := state.dirty.(status := false);
      } else {
        RefreshStatus(buf, info, eng, f, scene);
        eng.PrimeCursors(buf, info, f.cursors, f.preset);
        state.dirty := state.dirty.(status := false);
        return;
      }
    }
    eng.PatchCursorsOnly(buf, info, f.cursors, f.preset, scene);
  }

  // ----- whole runs

  /** What the naive renderer would keep: the clean scene, and the pointers and sprites on it. */
  datatype Naive = Naive(scene: bytes, cursors: Cursors, preset: nat)

  function Picture(n: Naive, info: Info, presets: seq<bytes>): bytes
    requires info.Sane() && n.cursors.Valid() && SpritesOk(presets)
  {
    Overlay(n.scene, info, n.cursors, presets, n.preset, MAX_CURSORS)
  }

  ghost function NaiveStep(n: Naive, f: Frame): (m: Naive)
    requires n.cursors.Valid() && f.cursors.Valid()
    ensures m.cursors.Valid() && |m.scene| == |n.scene|
  {
    if Quiet(f, n.cursors) then n else Naive(NextScene(n.scene, f), f.cursors, f.preset)
  }

  ghost predicate FramesOk(frames: seq<Frame>, info: Info)
    requires info.Sane()
  {
    |frames| > 0 && frames[0].dirty.content
    && forall k :: 0 <= k < |frames| ==> FrameOk(frames[k], info)
  }

  ghost predicate FrameOk(f: Frame, info: Info)
    requires info.Sane()
  {
    f.cursors.Valid() && Overwrites(Background(f), info)
  }

  /** The naive renderer after frames 0 to n-1 on a buffer that held s. */
  ghost function NaiveRun(s: bytes, frames: seq<Frame>, info: Info, n: nat): (m: Naive)
    requires info.Sane() && FramesOk(frames, info) && 1 <= n <= |frames|
    ensures m.cursors.Valid() && |m.scene| == |s|
    decreases n, |frames|
  {
    assert FrameOk(frames[n - 1], info);
    if n == 1 then Naive(NextScene(s, frames[0]), frames[0].cursors, frames[0].preset)
    else NaiveStep(NaiveRun(s, frames, info, n - 1), frames[n - 1])
  }

  lemma {:induction false} QuietScene(scene: bytes, f: Frame)
    ensures f.dirty.Clean() ==> NextScene(scene, f) == scene
  {
  }

  /** Pointers that look unmoved give the same overlay. */
  lemma {:induction false} OverlayUnmoved(scene: bytes, info: Info, c: Cursors, last: Cursors, presets: seq<bytes>, preset: nat, n: nat)
    requires info.Sane() && c.Valid() && last.Valid() && SpritesOk(presets) && n <= MAX_CURSORS && !AnyMoved(c, last)
    ensures Overlay(scene, info, c, presets, preset, n) == Overlay(scene, info, last, presets, preset, n)
  {
    hide DrawSprite;
    if n > 0 {
      OverlayUnmoved(scene, info, c, last, presets, preset, n - 1);
      assert !Moved(c, last, n - 1);
    }
  }

  /** The picture after a frame always shows that frame's own pointers, and its own sprites too unless
      nothing at all called for a redraw. */
  lemma {:induction false} PictureIsCurrent(n: Naive, f: Frame, info: Info, presets: seq<bytes>)
    requires info.Sane() && n.cursors.Valid() && f.cursors.Valid() && SpritesOk(presets)
    ensures Picture(NaiveStep(n, f), info, presets)
         == Overlay(NextScene(n.scene, f), info, f.cursors, presets, if Quiet(f, n.cursors) then n.preset else f.preset, MAX_CURSORS)
  {
    hide Overlay, NextScene, SpritesOk;
    if Quiet(f, n.cursors) {
      QuietScene(n.scene, f);
      OverlayUnmoved(n.scene, info, f.cursors, n.cursors, presets, n.preset, MAX_CURSORS);
    }
  }

  /** A changed preset alone is not drawn; together with the content flag, which the main loop sets after every
      click that was handled, it is. */
  lemma {:induction false} PresetAlone(n: Naive, f: Frame, info: Info, presets: seq<bytes>)
    requires info.Sane() && n.cursors.Valid() && f.cursors.Valid() && SpritesOk(presets) && Quiet(f, n.cursors)
    ensures Picture(NaiveStep(n, f), info, presets) == Overlay(n.scene, info, f.cursors, presets, n.preset, MAX_CURSORS)
    ensures var g := f.(dirty := f.dirty.(content := true));
            Picture(NaiveStep(n, g), info, presets) == Overlay(Repainted(n.scene, f), info, f.cursors, presets, f.preset, MAX_CURSORS)
  {
    hide Overlay, SpritesOk;
    var g := f.(dirty := f.dirty.(content := true));
    PictureIsCurrent(n, f, info, presets);
    PictureIsCurrent(n, g, info, presets);
    QuietScene(n.scene, f);
    assert Repainted(n.scene, g) == Repainted(n.scene, f);
  }

  /** Every run that starts with a full repaint keeps the screen equal to the naive picture, whatever the
      user-interface state becomes between two frames. */
  method RenderRun(buf: array<byte>, info: Info, frames: seq<Frame>, presets: seq<bytes>) returns (eng: Engine)
    requires Usable(info, buf.Length) && SpritesOk(presets) && FramesOk(frames, info)
    modifies buf
    ensures fresh(eng) && eng.presets == presets
    ensures buf[..] == Picture(NaiveRun(old(buf[..]), frames, info, |frames|), info, presets)
  {
    hide Overlay, Overwrites, Background, NextScene, SpritesOk;
    eng := new Engine(presets);
    ghost var s := buf[..];
    ghost var scene := s;
    for n := 0 to |frames|
      invariant fresh(eng) && eng.presets == presets && Ready(eng, buf[..], scene, info)
      invariant eng.initialized == (n > 0)
      invariant n > 0 ==> NaiveRun(s, frames, info, n) == Naive(scene, eng.last, eng.lastPreset)
      invariant n == 0 ==> scene == s
    {
      assert FrameOk(frames[n], info);
      var state := new UiState(frames[n]);
      QuietScene(scene, frames[n]);
      RenderFrame(buf, info, state, eng, scene);
      scene := NextScene(scene, frames[n]);
    }
  }
}
