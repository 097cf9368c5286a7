/** Save-under cursors (kernel/src/gfx.rs:683-845): the engine keeps, for every cursor on screen, the
    clean bytes it covers, so that the clean scene can always be put back. */
module CursorEngine {
  import opened Bytes
  import opened Arithmetic
  import opened Framebuffer
  import opened CursorSprite

  const MAX_CURSORS := 12
  const CUR_HALF := 8
  const SLOT_BYTES := 22 * 22 * 4

  function Clamp(v: int, lo: int, hi: int): (r: int)
    requires lo <= hi
    ensures lo <= r <= hi
  {
    if v < lo then lo else if v > hi then hi else v
  }

  /** cursor_clip_rect: the 17x17 neighbourhood of a cursor, clipped to the screen. */
  function ClipRect(info: Info, cx: int, cy: int): (r: Rect)
    requires info.width > 0 && info.height > 0
    ensures r.Inside(info) && r.w <= 17 && r.h <= 17
  {
    var x0 := Clamp(cx - CUR_HALF, 0, info.width - 1);
    var y0 := Clamp(cy - CUR_HALF, 0, info.height - 1);
    var x1 := Clamp(cx + CUR_HALF + 1, 0, info.width);
    var y1 := Clamp(cy + CUR_HALF + 1, 0, info.height);
    Rect(x0, y0, x1 - x0, y1 - y0)
  }

  /** Every clipped rectangle fits its slot: pixels are at most 6 bytes wide. */
  lemma {:induction false} SlotFits(info: Info, cx: int, cy: int)
    requires info.Sane()
    ensures At(ClipRect(info, cx, cy).h, RowBytes(info, ClipRect(info, cx, cy))) <= SLOT_BYTES
  {
    var r := ClipRect(info, cx, cy);
    AtMono(r.w, 17, info.bpp);
    AtIs(17, info.bpp);
    AtMono(r.h, 17, RowBytes(info, r));
    AtIs(17, RowBytes(info, r));
    assert RowBytes(info, r) <= 17 * 6;
  }

  // ----- what a sprite can touch

  /** Blending over one pixel leaves every byte outside that pixel alone. */
  lemma {:induction false} TexelLocal(s: bytes, info: Info, sx: int, sy: int, c: Rgba, p: nat)
    requires info.Sane() && p < |s| && DrawTexel(s, info, sx, sy, c)[p] != s[p]
    ensures 0 <= sx < info.width && 0 <= sy < info.height
    ensures info.Offset(sx, sy) <= p < info.Offset(sx, sy) + info.bpp
  {
  }

  lemma {:induction false} PixelInRow(info: Info, r: Rect, sx: nat, sy: nat, p: nat)
    requires r.x <= sx < r.x + r.w && r.y <= sy < r.y + r.h
    requires info.Offset(sx, sy) <= p < info.Offset(sx, sy) + info.bpp
    ensures InRect(info, r, p)
  {
    OffsetMono(info, r.x, sy, sx, sy);
    OffsetInRow(info, r.x, r.w, sy);
    OffsetInRow(info, sx, 1, sy);
    OffsetMono(info, sx + 1, sy, r.x + r.w, sy);
    assert InRow(info, r, sy - r.y, p);
  }

  /** A pixel of the sprite lies in the clipped rectangle of its cursor. */
  lemma {:induction false} PixelInClip(info: Info, cx: int, cy: int, sx: nat, sy: nat, p: nat)
    requires info.Sane() && cx - 8 <= sx < cx + 8 && cy - 8 <= sy < cy + 8 && sx < info.width && sy < info.height
    requires info.Offset(sx, sy) <= p < info.Offset(sx, sy) + info.bpp
    ensures InRect(info, ClipRect(info, cx, cy), p)
  {
    var r := ClipRect(info, cx, cy);
    assert r.x <= sx < r.x + r.w && r.y <= sy < r.y + r.h;
    PixelInRow(info, r, sx, sy, p);
  }

  lemma {:induction false} TexelInClip(s: bytes, info: Info, cx: int, cy: int, px: nat, py: nat, c: Rgba, p: nat)
    requires info.Sane() && px < 16 && py < 16 && p < |s| && !InRect(info, ClipRect(info, cx, cy), p)
    ensures DrawTexel(s, info, cx - 8 + px, cy - 8 + py, c)[p] == s[p]
  {
    hide DrawTexel, ClipRect, InRect, Info.Offset;
    if DrawTexel(s, info, cx - 8 + px, cy - 8 + py, c)[p] != s[p] {
      TexelLocal(s, info, cx - 8 + px, cy - 8 + py, c, p);
      PixelInClip(info, cx, cy, cx - 8 + px, cy - 8 + py, p);
    }
  }

  lemma {:induction false} RowLocal(s: bytes, info: Info, cx: int, cy: int, data: bytes, py: nat, n: nat, p: nat)
    requires info.Sane() && |data| == BYTES_PER_CELL && py < 16 && n <= 16 && p < |s|
    requires !InRect(info, ClipRect(info, cx, cy), p)
    ensures DrawRow(s, info, cx, cy, data, py, n)[p] == s[p]
  {
    hide DrawTexel;
    if n > 0 {
      RowLocal(s, info, cx, cy, data, py, n - 1, p);
      TexelInClip(DrawRow(s, info, cx, cy, data, py, n - 1), info, cx, cy, n - 1, py, Texel(data, py, n - 1), p);
    }
  }

  lemma {:induction false} RowsLocal(s: bytes, info: Info, cx: int, cy: int, data: bytes, n: nat, p: nat)
    requires info.Sane() && |data| == BYTES_PER_CELL && n <= 16 && p < |s|
    requires !InRect(info, ClipRect(info, cx, cy), p)
    ensures DrawRows(s, info, cx, cy, data, n)[p] == s[p]
  {
    if n > 0 {
      RowsLocal(s, info, cx, cy, data, n - 1, p);
      RowLocal(DrawRows(s, info, cx, cy, data, n - 1), info, cx, cy, data, n - 1, 16, p);
    }
  }

  /** A sprite only touches bytes of the rectangle that was saved for its cursor. */
  lemma {:induction false} SpriteLocal(s: bytes, info: Info, cx: int, cy: int, data: bytes, p: nat)
    requires info.Sane() && |data| == BYTES_PER_CELL && p < |s|
    requires !InRect(info, ClipRect(info, cx, cy), p)
    ensures DrawSprite(s, info, cx, cy, data)[p] == s[p]
  {
    if OnScreen(info, cx, cy) {
      RowsLocal(s, info, cx, cy, data, 16, p);
    }
  }

  // ----- all cursors

  /** The pointers of a user-interface state: where they are and which are shown. */
  datatype Cursors = Cursors(x: seq<int>, y: seq<int>, active: seq<bool>) {
    /** Twelve pointers whose neighbourhoods 32-bit arithmetic can express. */
    predicate Valid() {
      && |x| == MAX_CURSORS && |y| == MAX_CURSORS && |active| == MAX_CURSORS
      && forall i :: 0 <= i < MAX_CURSORS ==>
        -0x8000_0000 <= x[i] - CUR_HALF && x[i] + CUR_HALF + 1 < 0x8000_0000
        && -0x8000_0000 <= y[i] - CUR_HALF && y[i] + CUR_HALF + 1 < 0x8000_0000
    }
  }

  function SpriteOf(presets: seq<bytes>, preset: nat, i: nat): (data: bytes)
    requires SpritesOk(presets)
    ensures |data| == BYTES_PER_CELL
  {
    presets[(preset + i) % SPRITE_STYLES]
  }

  /** The scene with the first n cursors drawn over it, in index order. */
  function Overlay(scene: bytes, info: Info, c: Cursors, presets: seq<bytes>, preset: nat, n: nat): (s: bytes)
    requires info.Sane() && c.Valid() && SpritesOk(presets) && n <= MAX_CURSORS
    ensures |s| == |scene|
    decreases n, |scene|
  {
    if n == 0 then scene else
    var prev := Overlay(scene, info, c, presets, preset, n - 1);
    if c.active[n - 1] then DrawSprite(prev, info, c.x[n - 1], c.y[n - 1], SpriteOf(presets, preset, n - 1)) else prev
  }

  /** Byte p may be covered by an active cursor below n. */
  ghost predicate Covered(info: Info, c: Cursors, n: nat, p: nat)
    requires info.width > 0 && info.height > 0 && c.Valid() && n <= MAX_CURSORS
  {
    exists i :: 0 <= i < n && CoveredBy(info, c, i, p)
  }

  ghost predicate CoveredBy(info: Info, c: Cursors, i: nat, p: nat)
    requires info.width > 0 && info.height > 0 && c.Valid() && i < MAX_CURSORS
  {
    c.active[i] && InRect(info, ClipRect(info, c.x[i], c.y[i]), p)
  }

  /** Away from the cursors, the overlay shows the scene. */
  lemma {:induction false} OverlayLocal(scene: bytes, info: Info, c: Cursors, presets: seq<bytes>, preset: nat, n: nat, p: nat)
    requires info.Sane() && c.Valid() && SpritesOk(presets) && n <= MAX_CURSORS && p < |scene|
    requires !Covered(info, c, n, p)
    ensures Overlay(scene, info, c, presets, preset, n)[p] == scene[p]
  {
    if n > 0 {
      assert !CoveredBy(info, c, n - 1, p);
      assert forall i :: 0 <= i < n - 1 ==> !CoveredBy(info, c, i, p);
      OverlayLocal(scene, info, c, presets, preset, n - 1, p);
      if c.active[n - 1] {
        SpriteLocal(Overlay(scene, info, c, presets, preset, n - 1), info, c.x[n - 1], c.y[n - 1], SpriteOf(presets, preset, n - 1), p);
      }
    }
  }

  // ----- what the engine remembers

  /** One cursor's save-under: the rectangle, the slot's bytes, how many of them were saved, and
      whether they may be put back. */
  datatype Slot = Slot(rect: Rect, data: bytes, len: nat, valid: bool) {
    predicate Ok() {
      |data| == SLOT_BYTES && len <= SLOT_BYTES
    }
  }

  /** A mode and a buffer that hold every visible pixel. */
  predicate Usable(info: Info, n: nat) {
    info.Sane() && info.Fits(n)
  }

  lemma {:induction false} ClipCopied(info: Info, n: nat, cx: int, cy: int, cap: nat)
    requires Usable(info, n) && At(ClipRect(info, cx, cy).h, RowBytes(info, ClipRect(info, cx, cy))) <= cap
    ensures RowsOk(info, ClipRect(info, cx, cy), ClipRect(info, cx, cy).h, n, cap)
    ensures CopiedRows(info, ClipRect(info, cx, cy), n, cap, 0) == ClipRect(info, cx, cy).h
  {
    WholeCopy(info, ClipRect(info, cx, cy), n, cap);
  }

  /** The scene's bytes under a cursor. */
  function Under(scene: bytes, info: Info, cx: int, cy: int): (s: bytes)
    requires Usable(info, |scene|)
    ensures |s| == At(ClipRect(info, cx, cy).h, RowBytes(info, ClipRect(info, cx, cy))) <= SLOT_BYTES
  {
    SlotFits(info, cx, cy);
    ClipCopied(info, |scene|, cx, cy, SLOT_BYTES);
    Saved(scene, info, ClipRect(info, cx, cy), ClipRect(info, cx, cy).h, SLOT_BYTES)
  }

  /** The slot holds the scene's bytes under a cursor at (cx, cy), or knows there are none. */
  predicate Holds(slot: Slot, scene: bytes, info: Info, cx: int, cy: int)
    requires Usable(info, |scene|)
  {
    var r := ClipRect(info, cx, cy);
    && slot.Ok()
    && if r.Empty() then !slot.valid
       else slot.valid && slot.rect == r && slot.len == |Under(scene, info, cx, cy)|
            && slot.data[..slot.len] == Under(scene, info, cx, cy)
  }

  predicate HoldsAll(slots: seq<Slot>, scene: bytes, info: Info, c: Cursors, n: nat)
    requires Usable(info, |scene|) && c.Valid() && |slots| == MAX_CURSORS && n <= MAX_CURSORS
  {
    forall i :: 0 <= i < n && c.active[i] ==> Holds(slots[i], scene, info, c.x[i], c.y[i])
  }

  /** The buffer shows the scene except possibly under active cursors below n. */
  ghost predicate AgreesExcept(buf: bytes, scene: bytes, info: Info, c: Cursors, n: nat)
    requires info.width > 0 && info.height > 0 && c.Valid() && n <= MAX_CURSORS
  {
    |buf| == |scene| && forall p :: 0 <= p < |buf| && buf[p] != scene[p] ==> Covered(info, c, n, p)
  }

  lemma {:induction false} OverlayAgrees(scene: bytes, info: Info, c: Cursors, presets: seq<bytes>, preset: nat)
    requires info.Sane() && c.Valid() && SpritesOk(presets)
    ensures AgreesExcept(Overlay(scene, info, c, presets, preset, MAX_CURSORS), scene, info, c, MAX_CURSORS)
  {
    hide Overlay;
    var buf := Overlay(scene, info, c, presets, preset, MAX_CURSORS);
    forall p | 0 <= p < |buf| && buf[p] != scene[p] ensures Covered(info, c, MAX_CURSORS, p) {
      if !Covered(info, c, MAX_CURSORS, p) {
        OverlayLocal(scene, info, c, presets, preset, MAX_CURSORS, p);
      }
    }
  }

  /** Putting the bytes under cursor n back leaves only the cursors below n. */
  lemma {:induction false} PutBack(buf: bytes, after: bytes, scene: bytes, info: Info, c: Cursors, n: nat)
    requires Usable(info, |scene|) && c.Valid() && n < MAX_CURSORS && AgreesExcept(buf, scene, info, c, n + 1)
    requires |after| == |scene|
    requires c.active[n] ==> forall p :: 0 <= p < |after| ==>
               after[p] == if InRect(info, ClipRect(info, c.x[n], c.y[n]), p) then scene[p] else buf[p]
    requires !c.active[n] ==> after == buf
    ensures AgreesExcept(after, scene, info, c, n)
  {
    hide InRect, ClipRect;
    forall p | 0 <= p < |after| && after[p] != scene[p] ensures Covered(info, c, n, p) {
      assert buf[p] != scene[p];
      var i :| 0 <= i < n + 1 && CoveredBy(info, c, i, p);
      assert i != n;
    }
  }

  /** What restoring a slot that holds the scene does to the buffer. */
  lemma {:induction false} RestoreHeld(buf: bytes, slot: Slot, scene: bytes, info: Info, cx: int, cy: int, p: nat)
    requires Usable(info, |scene|) && |buf| == |scene| && Holds(slot, scene, info, cx, cy) && p < |buf|
    requires !ClipRect(info, cx, cy).Empty()
    ensures CopyBack(buf, info, slot.rect, slot.data[..slot.len])[p]
         == if InRect(info, ClipRect(info, cx, cy), p) then scene[p] else buf[p]
  {
    hide ClipRect, InRows;
    var r := ClipRect(info, cx, cy);
    SlotFits(info, cx, cy);
    ClipCopied(info, |scene|, cx, cy, SLOT_BYTES);
    ClipCopied(info, |scene|, cx, cy, slot.len);
    RestoreSaved(buf, scene, info, r, r.h, SLOT_BYTES, r.h, p);
  }

  /** An invalid or empty slot belongs to a cursor that covers nothing. */
  lemma {:induction false} NothingHeld(slot: Slot, scene: bytes, info: Info, cx: int, cy: int, p: nat)
    requires Usable(info, |scene|) && Holds(slot, scene, info, cx, cy) && (!slot.valid || slot.len == 0)
    ensures !InRect(info, ClipRect(info, cx, cy), p)
  {
    var r := ClipRect(info, cx, cy);
    SomeBytes(r.w, info.bpp);
    SomeBytes(r.h, RowBytes(info, r));
  }

  lemma {:induction false} SomeBytes(n: nat, size: nat)
    ensures n > 0 && size > 0 ==> At(n, size) > 0
  {
  }

  /** Some pointer appeared, vanished or moved while shown. */
  predicate Moved(c: Cursors, last: Cursors, i: nat)
    requires c.Valid() && last.Valid() && i < MAX_CURSORS
  {
    c.active[i] != last.active[i] || (c.active[i] && (c.x[i] != last.x[i] || c.y[i] != last.y[i]))
  }

  // ----- the engine

  class Engine {
    const presets: seq<bytes>
    var last: Cursors
    var slots: seq<Slot>
    var initialized: bool
    /** The sprite preset of the last drawing. */
    ghost var lastPreset: nat

    predicate Valid()
      reads this
    {
      && SpritesOk(presets) && last.Valid()
      && |slots| == MAX_CURSORS && forall i :: 0 <= i < MAX_CURSORS ==> slots[i].Ok()
    }

    /** The screen shows the scene with the last-drawn cursors over it, and the engine can undo it. */
    ghost predicate Shows(buf: bytes, scene: bytes, info: Info)
      reads this
    {
      && Valid() && Usable(info, |scene|)
      && buf == Overlay(scene, info, last, presets, lastPreset, MAX_CURSORS)
      && HoldsAll(slots, scene, info, last, MAX_CURSORS)
    }

    constructor (presets: seq<bytes>)
      requires SpritesOk(presets)
      ensures Valid() && !initialized && this.presets == presets
    {
      this.presets := presets;
      last := Cursors(seq(MAX_CURSORS, _ => 0), seq(MAX_CURSORS, _ => 0), seq(MAX_CURSORS, _ => false));
      slots := seq(MAX_CURSORS, _ => Slot(Rect(0, 0, 0, 0), Zeros(SLOT_BYTES), 0, false));
      initialized := false;
      lastPreset := 0;
    }

    method InvalidateAllSaves()
      requires Valid()
      modifies this`slots
      ensures Valid() && forall i :: 0 <= i < MAX_CURSORS ==> slots[i] == old(slots)[i].(valid := false)
    {
      for i := 0 to MAX_CURSORS
        invariant Valid() && forall j :: 0 <= j < MAX_CURSORS ==> slots[j] == if j < i then old(slots)[j].(valid := false) else old(slots)[j]
      {
        slots := slots[i := slots[i].(valid := false)];
      }
    }

    method AnyCursorMoved(c: Cursors) returns (moved: bool)
      requires Valid() && c.Valid()
      ensures moved == exists i :: 0 <= i < MAX_CURSORS && Moved(c, last, i)
    {
      for i := 0 to MAX_CURSORS
        invariant forall j :: 0 <= j < i ==> !Moved(c, last, j)
      {
        if c.active[i] != last.active[i] {
          assert Moved(c, last, i);
          return true;
        }
        if c.active[i] && (c.x[i] != last.x[i] || c.y[i] != last.y[i]) {
          assert Moved(c, last, i);
          return true;
        }
      }
      return false;
    }

    /** The bytes under cursor i become the scene's again; nothing else changes. */
    method RestoreOne(buf: array<byte>, info: Info, i: nat, ghost scene: bytes)
      requires Valid() && i < MAX_CURSORS && Usable(info, |scene|) && buf.Length == |scene|
      requires Holds(slots[i], scene, info, last.x[i], last.y[i])
      modifies buf, this`slots
      ensures Valid() && slots == old(slots)[i := if slots[i].len == 0 then old(slots)[i] else old(slots)[i].(valid := false)]
      ensures forall p :: 0 <= p < buf.Length ==>
        buf[p] == if InRect(info, ClipRect(info, last.x[i], last.y[i]), p) then scene[p] else old(buf[p])
    {
      hide InRect, ClipRect, CopyBack, RowsOk;
      var slot := slots[i];
      if !slot.valid || slot.len == 0 {
        forall p: nat ensures !InRect(info, ClipRect(info, last.x[i], last.y[i]), p) {
          NothingHeld(slot, scene, info, last.x[i], last.y[i], p);
        }
        return;
      }
      ghost var was := buf[..];
      forall p | 0 <= p < buf.Length
        ensures CopyBack(was, info, slot.rect, slot.data[..slot.len])[p]
             == if InRect(info, ClipRect(info, last.x[i], last.y[i]), p) then scene[p] else was[p]
      {
        RestoreHeld(was, slot, scene, info, last.x[i], last.y[i], p);
      }
      BlitRestoreRect(buf, info, slot.rect, slot.data[..slot.len]);
      slots := slots[i := slot.(valid := false)];
    }

    /** Restoring every shown cursor, highest index first, uncovers the clean scene. */
    method RestoreAll(buf: array<byte>, info: Info, ghost scene: bytes)
      requires Shows(buf[..], scene, info)
      modifies buf, this`slots
      ensures Valid() && buf[..] == scene
    {
      hide Overlay, Holds, InRect, ClipRect;
      OverlayAgrees(scene, info, last, presets, lastPreset);
      for i := MAX_CURSORS downto 0
        invariant Valid() && AgreesExcept(buf[..], scene, info, last, i)
        invariant HoldsAll(slots, scene, info, last, i)
      {
        ghost var was := buf[..];
        if last.active[i] {
          RestoreOne(buf, info, i, scene);
        }
        PutBack(was, buf[..], scene, info, last, i);
      }
      NothingCovered(buf[..], scene, info, last);
    }

    /** Slot i receives the bytes under a cursor at (cx, cy). */
    method SaveOne(buf: array<byte>, info: Info, i: nat, cx: int, cy: int)
      requires Valid() && i < MAX_CURSORS && Usable(info, buf.Length)
      modifies this`slots
      ensures Valid() && forall j :: 0 <= j < MAX_CURSORS && j != i ==> slots[j] == old(slots[j])
      ensures Holds(slots[i], buf[..], info, cx, cy)
    {
      hide ClipRect, RowsOk, Saved, CopyOut;
      var r := ClipRect(info, cx, cy);
      if r.w == 0 || r.h == 0 {
        slots := slots[i := slots[i].(valid := false, len := 0)];
        return;
      }
      var kept := BlitSaveRect(buf, info, r, SLOT_BYTES);
      assert kept == Under(buf[..], info, cx, cy) && |kept| > 0 by {
        SavedIsUnder(buf[..], info, cx, cy);
      }
      slots := slots[i := Slot(r, kept + slots[i].data[|kept|..], |kept|, |kept| > 0)];
    }

    /** All saves are taken on the clean scene, before any sprite is drawn. */
    method SaveAll(buf: array<byte>, info: Info, c: Cursors)
      requires Valid() && c.Valid() && Usable(info, buf.Length)
      modifies this`slots
      ensures Valid() && HoldsAll(slots, buf[..], info, c, MAX_CURSORS)
    {
      hide Holds;
      for i := 0 to MAX_CURSORS
        invariant Valid() && HoldsAll(slots, buf[..], info, c, i)
      {
        if c.active[i] {
          SaveOne(buf, info, i, c.x[i], c.y[i]);
        }
      }
    }

    method DrawAllCursors(buf: array<byte>, info: Info, c: Cursors, preset: nat)
      requires Valid() && c.Valid() && info.Sane()
      modifies buf
      ensures buf[..] == Overlay(old(buf[..]), info, c, presets, preset, MAX_CURSORS)
    {
      hide DrawSprite;
      for i := 0 to MAX_CURSORS
        invariant buf[..] == Overlay(old(buf[..]), info, c, presets, preset, i)
      {
        if c.active[i] {
          DrawSpriteAt(buf, info, c.x[i], c.y[i], presets, preset, i);
        }
      }
    }

    method SyncLastFromState(c: Cursors, preset: nat)
      requires Valid() && c.Valid()
      modifies this`last, this`lastPreset
      ensures Valid() && last == c && lastPreset == preset
    {
      for i := 0 to MAX_CURSORS
        invariant last.Valid() && last.active[..i] == c.active[..i] && last.x[..i] == c.x[..i] && last.y[..i] == c.y[..i]
      {
        last := Cursors(last.x[i := c.x[i]], last.y[i := c.y[i]], last.active[i := c.active[i]]);
      }
      assert last.active[..MAX_CURSORS] == last.active && last.x[..MAX_CURSORS] == last.x && last.y[..MAX_CURSORS] == last.y;
      assert c.active[..MAX_CURSORS] == c.active && c.x[..MAX_CURSORS] == c.x && c.y[..MAX_CURSORS] == c.y;
      lastPreset := preset;
    }

    /** From a clean scene to one with the cursors shown and undoable. */
    method PrimeCursors(buf: array<byte>, info: Info, c: Cursors, preset: nat)
      requires Valid() && c.Valid() && Usable(info, buf.Length)
      modifies buf, this`slots, this`last, this`lastPreset
      ensures Shows(buf[..], old(buf[..]), info) && last == c && lastPreset == preset
    {
      hide Overlay, HoldsAll;
      SaveAll(buf, info, c);
      DrawAllCursors(buf, info, c, preset);
      SyncLastFromState(c, preset);
    }

    /** The incremental redraw shows the new cursors over the same scene. */
    method PatchCursorsOnly(buf: array<byte>, info: Info, c: Cursors, preset: nat, ghost scene: bytes)
      requires Shows(buf[..], scene, info) && c.Valid()
      modifies buf, this`slots, this`last, this`lastPreset
      ensures Shows(buf[..], scene, info) && last == c && lastPreset == preset
    {
      hide Overlay, HoldsAll;
      RestoreAll(buf, info, scene);
      SaveAll(buf, info, c);
      DrawAllCursors(buf, info, c, preset);
      SyncLastFromState(c, preset);
    }
  }

  lemma {:induction false} NothingCovered(buf: bytes, scene: bytes, info: Info, c: Cursors)
    requires info.width > 0 && info.height > 0 && c.Valid() && AgreesExcept(buf, scene, info, c, 0)
    ensures buf == scene
  {
  }

  /** A save on a usable mode takes the whole clipped rectangle. */
  lemma {:induction false} SavedIsUnder(scene: bytes, info: Info, cx: int, cy: int)
    requires Usable(info, |scene|) && !ClipRect(info, cx, cy).Empty()
    ensures CopyOut(scene, info, ClipRect(info, cx, cy), SLOT_BYTES) == Under(scene, info, cx, cy)
    ensures |Under(scene, info, cx, cy)| > 0
  {
    hide ClipRect, Saved;
    var r := ClipRect(info, cx, cy);
    SlotFits(info, cx, cy);
    ClipCopied(info, |scene|, cx, cy, SLOT_BYTES);
    SomeBytes(r.w, info.bpp);
    SomeBytes(r.h, RowBytes(info, r));
  }
}
