/** What the dirty flags show of a change (kernel/src/gfx.rs:4420-4590). Drawing routines never look at the screen: at
    every byte, each of them sets a colour or leaves what is there. So a byte shows the colour of the routine that drew
    it last, and is as a full repaint would leave it exactly if that is the colour which a full repaint draws last. */
module DirtyParts {
  import opened Bytes
  import opened Framebuffer
  import opened Compositor

  // ----- what a routine does to one byte

  /** On buffers of n bytes, the routine sets byte i whatever it was. */
  ghost predicate Fixes(p: Painter, n: nat, i: nat)
    requires i < n
  {
    forall s, t :: |s| == n && |t| == n ==> p.Paint(s)[i] == p.Paint(t)[i]
  }

  ghost predicate Keeps(p: Painter, n: nat, i: nat)
    requires i < n
  {
    forall s :: |s| == n ==> p.Paint(s)[i] == s[i]
  }

  ghost predicate Stencil(p: Painter, n: nat, i: nat)
    requires i < n
  {
    Fixes(p, n, i) || Keeps(p, n, i)
  }

  /** The colour that a byte gets, if any. */
  type Ink = Option<byte>

  ghost function InkOf(p: Painter, n: nat, i: nat): Ink
    requires i < n
  {
    if Keeps(p, n, i) then None else Some(p.Paint(Zeros(n))[i])
  }

  function Laid(ink: Ink, v: byte): byte {
    if ink.Some? then ink.value else v
  }

  /** Two inks drawn one after the other. */
  function Over(upper: Ink, lower: Ink): Ink {
    if upper.Some? then upper else lower
  }

  lemma {:induction false} InkLaid(p: Painter, s: bytes, i: nat)
    requires i < |s| && Stencil(p, |s|, i)
    ensures p.Paint(s)[i] == Laid(InkOf(p, |s|, i), s[i])
  {
    hide Painter.Paint;
  }

  // ----- the routines of a frame

  function StripPainter(f: Frame): Painter {
    if f.screen == DiskInstall then f.p.installStrip else f.p.urlBar
  }

  function BodyPainter(f: Frame): Painter {
    match f.screen
    case Settings => f.p.settingsBody
    case DiskInstall => f.p.installBody
    case Log => f.p.logBody
    case _ => f.p.browserBody
  }

  /** What the routines of a frame do to one byte; the browser's body is drawn on other screens too. */
  datatype Inks = Inks(ground: Ink, chrome: Ink, strip: Ink, body: Ink, status: Ink, fill: Ink, browser: Ink)

  ghost function InksAt(f: Frame, n: nat, i: nat): Inks
    requires i < n
  {
    Inks(InkOf(Background(f), n, i), InkOf(f.p.chromeAndTabs, n, i), InkOf(StripPainter(f), n, i), InkOf(BodyPainter(f), n, i),
         InkOf(f.p.statusLine, n, i), InkOf(f.p.fillStatusStrip, n, i), InkOf(f.p.browserBody, n, i))
  }

  /** The routines draw without looking, and the first one of a full repaint covers the byte. */
  ghost predicate Drawn(f: Frame, n: nat, i: nat)
    requires i < n
  {
    && Stencil(Background(f), n, i) && Stencil(f.p.chromeAndTabs, n, i) && Stencil(StripPainter(f), n, i)
    && Stencil(BodyPainter(f), n, i) && Stencil(f.p.statusLine, n, i) && Stencil(f.p.fillStatusStrip, n, i)
    && Stencil(f.p.browserBody, n, i) && InkOf(Background(f), n, i).Some?
  }

  /** The screens with a frame around their body: no warning, no full page. */
  predicate Framed(f: Frame) {
    !Warning(f.screen) && !f.biosFullpage
  }

  // ----- full repaints

  /** The ink on top of a full repaint. */
  function FullInk(f: Frame, k: Inks): Ink {
    if Warning(f.screen) then k.ground
    else if f.biosFullpage then Over(k.browser, k.ground)
    else Over(k.status, Over(k.body, Over(k.strip, Over(k.chrome, k.ground))))
  }

  lemma {:induction false} PartRoutines(s: bytes, f: Frame)
    requires !Warning(f.screen)
    ensures TopStrip(s, f) == StripPainter(f).Paint(s) && Body(s, f) == BodyPainter(f).Paint(s)
  {
    hide Painter.Paint;
  }

  lemma {:induction false} FrameOver(s: bytes, f: Frame, i: nat)
    requires i < |s| && Drawn(f, |s|, i) && Framed(f)
    ensures var k := InksAt(f, |s|, i);
            f.p.statusLine.Paint(Body(TopStrip(f.p.chromeAndTabs.Paint(s), f), f))[i]
            == Laid(Over(k.status, Over(k.body, Over(k.strip, k.chrome))), s[i])
  {
    hide Painter.Paint, Stencil, InkOf, Background, TopStrip, Body, StripPainter, BodyPainter;
    var c := f.p.chromeAndTabs.Paint(s);
    var t := TopStrip(c, f);
    PartRoutines(c, f);
    PartRoutines(t, f);
    InkLaid(f.p.chromeAndTabs, s, i);
    InkLaid(StripPainter(f), c, i);
    InkLaid(BodyPainter(f), t, i);
    InkLaid(f.p.statusLine, Body(t, f), i);
  }

  /** A full repaint shows the ink on top. */
  lemma {:induction false} RepaintedAt(s: bytes, f: Frame, i: nat)
    requires i < |s| && Drawn(f, |s|, i)
    ensures FullInk(f, InksAt(f, |s|, i)) == Some(Repainted(s, f)[i])
  {
    hide Painter.Paint, Stencil, InkOf, Background, TopStrip, Body, StripPainter, BodyPainter;
    var b := Background(f).Paint(s);
    InkLaid(Background(f), s, i);
    if f.biosFullpage {
      InkLaid(f.p.browserBody, b, i);
    } else if !Warning(f.screen) {
      FrameOver(b, f, i);
    }
  }

  // ----- partial repaints

  /** What a repaint of the chrome draws: the frame's parts, and the browser's body if that is flagged too. */
  function ChromeInk(f: Frame, k: Inks): Ink {
    if !Framed(f) then FullInk(f, k)
    else
      var t := Over(k.status, Over(k.strip, k.chrome));
      if f.screen == Browser && f.dirty.body then Over(k.browser, t) else t
  }

  /** What a frame draws, whatever is flagged and whatever screen is shown. */
  function FrameInk(f: Frame, k: Inks): Ink {
    if f.dirty.content then FullInk(f, k)
    else if f.dirty.chrome then ChromeInk(f, k)
    else if f.dirty.body then
      if f.dirty.status && !f.biosFullpage then Over(k.status, Over(k.fill, k.browser)) else k.browser
    else if f.dirty.status && Framed(f) then Over(k.status, k.fill)
    else None
  }

  /** On a warning and on the full page, repainting the chrome is a full repaint. */
  lemma {:induction false} ChromeRepaintIsFull(s: bytes, f: Frame)
    requires !Framed(f)
    ensures ChromeRepainted(s, f) == Repainted(s, f)
  {
    hide Painter.Paint;
  }

  lemma {:induction false} ChromeRepaintedAt(s: bytes, f: Frame, i: nat)
    requires i < |s| && Drawn(f, |s|, i)
    ensures ChromeRepainted(s, f)[i] == Laid(ChromeInk(f, InksAt(f, |s|, i)), s[i])
  {
    hide Painter.Paint, Stencil, InkOf, Background, TopStrip, StripPainter, BodyPainter, Repainted;
    if !Framed(f) {
      ChromeRepaintIsFull(s, f);
      RepaintedAt(s, f, i);
    } else {
      var c := f.p.chromeAndTabs.Paint(s);
      var t := TopStrip(c, f);
      PartRoutines(c, f);
      InkLaid(f.p.chromeAndTabs, s, i);
      InkLaid(StripPainter(f), c, i);
      InkLaid(f.p.statusLine, t, i);
      InkLaid(f.p.browserBody, f.p.statusLine.Paint(t), i);
    }
  }

  lemma {:induction false} StatusAt(s: bytes, f: Frame, i: nat)
    requires i < |s| && Drawn(f, |s|, i)
    ensures var k := InksAt(f, |s|, i); StatusRepainted(s, f)[i] == Laid(Over(k.status, k.fill), s[i])
  {
    hide Painter.Paint, Stencil, InkOf, Background, StripPainter, BodyPainter;
    InkLaid(f.p.fillStatusStrip, s, i);
    InkLaid(f.p.statusLine, f.p.fillStatusStrip.Paint(s), i);
  }

  /** Whatever is flagged on whatever screen: a byte gets the last ink that the frame draws there, or stays. */
  lemma {:induction false} NextSceneAt(scene: bytes, f: Frame, i: nat)
    requires i < |scene| && Drawn(f, |scene|, i)
    ensures NextScene(scene, f)[i] == Laid(FrameInk(f, InksAt(f, |scene|, i)), scene[i])
  {
    hide Painter.Paint, Drawn, InksAt, Repainted, ChromeRepainted, StatusRepainted, FullInk, ChromeInk;
    if f.dirty.content {
      RepaintedAt(scene, f, i);
    } else if f.dirty.chrome {
      ChromeRepaintedAt(scene, f, i);
    } else if f.dirty.body {
      BrowserAt(scene, f, i);
      if f.dirty.status && !f.biosFullpage {
        StatusAt(f.p.browserBody.Paint(scene), f, i);
      }
    } else if f.dirty.status && Framed(f) {
      StatusAt(scene, f, i);
    }
  }

  lemma {:induction false} BrowserAt(s: bytes, f: Frame, i: nat)
    requires i < |s| && Drawn(f, |s|, i)
    ensures f.p.browserBody.Paint(s)[i] == Laid(InksAt(f, |s|, i).browser, s[i])
  {
    hide Painter.Paint, Stencil, InkOf;
    InkLaid(f.p.browserBody, s, i);
  }

  // ----- when a partial repaint shows what a full one would

  /** The byte shows what a full repaint would leave there. */
  ghost predicate Current(scene: bytes, f: Frame, i: nat)
    requires i < |scene|
  {
    Some(scene[i]) == FullInk(f, InksAt(f, |scene|, i))
  }

  /** That is, over whatever screen the full repaint would be. */
  lemma {:induction false} CurrentIsRepaint(scene: bytes, any: bytes, f: Frame, i: nat)
    requires |any| == |scene| && i < |scene| && Drawn(f, |scene|, i)
    ensures Current(scene, f, i) <==> scene[i] == Repainted(any, f)[i]
  {
    hide Drawn, FullInk, InksAt, Repainted;
    RepaintedAt(any, f, i);
  }

  /** The frame's last ink at a byte is the one on top of a full repaint; or it draws nothing there, and what a full
      repaint would show there has not changed. */
  ghost predicate Honest(was: Frame, f: Frame, n: nat, i: nat)
    requires i < n
  {
    var k := InksAt(f, n, i);
    if FrameInk(f, k).Some? then FrameInk(f, k) == FullInk(f, k) else FullInk(was, InksAt(was, n, i)) == FullInk(f, k)
  }

  /** A frame keeps a byte current if and only if its flags are honest about it. */
  lemma {:induction false} HonestFlags(scene: bytes, was: Frame, f: Frame, i: nat)
    requires i < |scene| && Drawn(f, |scene|, i) && Current(scene, was, i)
    ensures Current(NextScene(scene, f), f, i) <==> Honest(was, f, |scene|, i)
  {
    hide Drawn, FullInk, FrameInk, InksAt, NextScene;
    NextSceneAt(scene, f, i);
  }

  /** The ink that a run of frames drew last. */
  ghost function RunInk(frames: seq<Frame>, size: nat, n: nat, i: nat): Ink
    requires n <= |frames| && i < size
    decreases n
  {
    if n == 0 then None
    else Over(FrameInk(frames[n - 1], InksAt(frames[n - 1], size, i)), RunInk(frames, size, n - 1, i))
  }

  ghost predicate AllDrawn(frames: seq<Frame>, size: nat, i: nat)
    requires i < size
  {
    forall k :: 0 <= k < |frames| ==> Drawn(frames[k], size, i)
  }

  lemma {:induction false} QuietInk(f: Frame, k: Inks)
    ensures f.dirty.Clean() ==> FrameInk(f, k) == None
  {
  }

  lemma {:induction false} FrameCursors(frames: seq<Frame>, info: Info, k: nat)
    requires info.Sane() && FramesOk(frames, info) && k < |frames|
    ensures frames[k].cursors.Valid()
  {
    assert FrameOk(frames[k], info);
  }

  /** The clean scene of every run shows the ink that was drawn last. */
  lemma {:induction false} RunShows(s: bytes, frames: seq<Frame>, info: Info, n: nat, i: nat)
    requires info.Sane() && FramesOk(frames, info) && 1 <= n <= |frames| && i < |s| && AllDrawn(frames, |s|, i)
    ensures RunInk(frames, |s|, n, i) == Some(NaiveRun(s, frames, info, n).scene[i])
    decreases n
  {
    hide NextScene, FrameOk, Drawn, FrameInk, InksAt, FullInk;
    var f := frames[n - 1];
    assert Drawn(f, |s|, i);
    if n == 1 {
      FirstInk(s, f, i);
    } else {
      RunShows(s, frames, info, n - 1, i);
      var m := NaiveRun(s, frames, info, n - 1);
      FrameCursors(frames, info, n - 1);
      NextSceneAt(m.scene, f, i);
      QuietInk(f, InksAt(f, |s|, i));
    }
  }

  lemma {:induction false} FirstInk(s: bytes, f: Frame, i: nat)
    requires i < |s| && f.dirty.content && Drawn(f, |s|, i)
    ensures FrameInk(f, InksAt(f, |s|, i)) == Some(NextScene(s, f)[i])
  {
    hide Drawn, InksAt, Repainted;
    RepaintedAt(s, f, i);
  }

  /** The incremental renderer's clean scene is at a byte what a full repaint of the latest frame would show, over
      whatever buffer, if and only if the ink drawn last in the run is the one on top of that repaint. */
  lemma {:induction false} RunIsRepaint(s: bytes, any: bytes, frames: seq<Frame>, info: Info, n: nat, i: nat)
    requires info.Sane() && FramesOk(frames, info) && 1 <= n <= |frames| && |any| == |s| && i < |s| && AllDrawn(frames, |s|, i)
    ensures NaiveRun(s, frames, info, n).scene[i] == Repainted(any, frames[n - 1])[i]
            <==> RunInk(frames, |s|, n, i) == FullInk(frames[n - 1], InksAt(frames[n - 1], |s|, i))
  {
    hide NextScene, FramesOk, Drawn, FullInk, InksAt, NaiveRun, Repainted, RunInk;
    RunShows(s, frames, info, n, i);
    RepaintedAt(any, frames[n - 1], i);
  }

  /** The run shows after m frames what a full repaint of the latest would show. */
  ghost predicate RunCurrent(s: bytes, frames: seq<Frame>, info: Info, m: nat, i: nat)
    requires info.Sane() && FramesOk(frames, info) && 1 <= m <= |frames| && i < |s|
  {
    Current(NaiveRun(s, frames, info, m).scene, frames[m - 1], i)
  }

  ghost predicate HonestAt(frames: seq<Frame>, size: nat, m: nat, i: nat)
    requires 1 <= m < |frames| && i < size
  {
    Honest(frames[m - 1], frames[m], size, i)
  }

  /** It is so at every frame of the run if and only if all flags are honest about the byte. */
  lemma {:induction false} HonestRun(s: bytes, frames: seq<Frame>, info: Info, n: nat, i: nat)
    requires info.Sane() && FramesOk(frames, info) && 1 <= n <= |frames| && i < |s| && AllDrawn(frames, |s|, i)
    ensures (forall m :: 1 <= m <= n ==> RunCurrent(s, frames, info, m, i))
            <==> forall m :: 1 <= m < n ==> HonestAt(frames, |s|, m, i)
    decreases n
  {
    hide FramesOk, RunCurrent, HonestAt, AllDrawn;
    if n == 1 {
      FirstCurrent(s, frames, info, i);
    } else {
      HonestRun(s, frames, info, n - 1, i);
      if RunCurrent(s, frames, info, n - 1, i) {
        HonestStep(s, frames, info, n, i);
      }
    }
  }

  lemma {:induction false} FirstCurrent(s: bytes, frames: seq<Frame>, info: Info, i: nat)
    requires info.Sane() && FramesOk(frames, info) && i < |s| && AllDrawn(frames, |s|, i)
    ensures RunCurrent(s, frames, info, 1, i)
  {
    hide Drawn, InksAt, Repainted, FullInk;
    RepaintedAt(s, frames[0], i);
  }

  lemma {:induction false} HonestStep(s: bytes, frames: seq<Frame>, info: Info, n: nat, i: nat)
    requires info.Sane() && FramesOk(frames, info) && 2 <= n <= |frames| && i < |s| && AllDrawn(frames, |s|, i)
    requires RunCurrent(s, frames, info, n - 1, i)
    ensures RunCurrent(s, frames, info, n, i) <==> HonestAt(frames, |s|, n - 1, i)
  {
    hide FrameOk, Drawn, InksAt, NextScene, FullInk, FrameInk, Current, Honest;
    var m, f := NaiveRun(s, frames, info, n - 1), frames[n - 1];
    assert Drawn(f, |s|, i);
    FrameCursors(frames, info, n - 1);
    QuietScene(m.scene, f);
    HonestFlags(m.scene, frames[n - 2], f, i);
  }

  // ----- the body flag, whatever screen is shown

  /** The colour that a frame with the body flag, and perhaps the status flag, draws last: the text of the status line, the
      colour of its strip, the browser's body; which of these it must be is what a full repaint would show. */
  predicate BodyRight(f: Frame, k: Inks, was: byte) {
    var refreshed := f.dirty.status && !f.biosFullpage;
    if refreshed && k.status.Some? then !Warning(f.screen) || k.status == k.ground
    else if refreshed && k.fill.Some? then k.fill == FullInk(f, k)
    else if k.browser.Some? then
      if Warning(f.screen) then k.browser == k.ground
      else if f.biosFullpage then true
      else if k.status.Some? then k.browser == k.status
      else if f.screen == Browser then true
      else k.browser == Over(k.body, Over(k.strip, Over(k.chrome, k.ground)))
    else Some(was) == FullInk(f, k)
  }

  /** On any screen, with or without the status flag: a frame with the body flag shows at a byte what a full repaint
      would show if and only if the routine it ran last there draws the colour on top. */
  lemma {:induction false} BodyFlag(scene: bytes, any: bytes, f: Frame, i: nat)
    requires |any| == |scene| && i < |scene| && Drawn(f, |scene|, i) && f.dirty.body && !f.dirty.content && !f.dirty.chrome
    ensures NextScene(scene, f)[i] == Repainted(any, f)[i] <==> BodyRight(f, InksAt(f, |scene|, i), scene[i])
  {
    hide Painter.Paint, Stencil, InkOf, NextScene, Repainted;
    NextSceneAt(scene, f, i);
    RepaintedAt(any, f, i);
  }

  /** On the settings, installation and log screens, the page is drawn over their own body: where both draw and nothing
      else does, the byte is right if and only if they draw the same colour. */
  lemma {:induction false} BodyFlagElsewhere(scene: bytes, any: bytes, f: Frame, i: nat)
    requires |any| == |scene| && i < |scene| && Drawn(f, |scene|, i) && f.dirty.body && !f.dirty.content && !f.dirty.chrome
    requires Framed(f) && f.screen != Browser
    requires var k := InksAt(f, |scene|, i); k.body.Some? && k.browser.Some? && k.status == k.fill == None
    ensures NextScene(scene, f)[i] == InksAt(f, |scene|, i).browser.value
    ensures Repainted(any, f)[i] == InksAt(f, |scene|, i).body.value
  {
    hide Painter.Paint, Stencil, InkOf, NextScene, Repainted;
    NextSceneAt(scene, f, i);
    RepaintedAt(any, f, i);
  }
}
