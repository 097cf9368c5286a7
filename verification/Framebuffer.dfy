/** The framebuffer and its rectangle copies (kernel/src/fb_info.rs, kernel/src/gfx.rs:621-713). */
module Framebuffer {
  import opened Bytes
  import opened Arithmetic

  datatype PixelFormat = Rgb | Bgr | U8 | Unknown

  datatype Info = Info(width: nat, height: nat, stride: nat, format: PixelFormat, bpp: nat) {
    /** The byte offset of pixel (x, y): y rows of stride pixels, then x pixels. */
    function Offset(x: nat, y: nat): nat {
      At(y, At(stride, bpp)) + At(x, bpp)
    }

    /** The shape of a usable mode: a screen that 32-bit coordinates can address, pixels at least as
        wide as their format needs and at most 6 bytes. */
    predicate Sane() {
      && 0 < width < 0x8000_0000 && 0 < height < 0x8000_0000 && 1 <= bpp <= 6
      && (format == Rgb || format == Bgr ==> bpp >= 3)
    }

    /** Every visible pixel lies in a buffer of n bytes. */
    predicate Fits(n: nat) {
      height > 0 && Offset(width, height - 1) <= n
    }
  }

  /** y * stride * bpp + x * bpp, as the source writes it. */
  lemma {:induction false} OffsetIs(info: Info, x: nat, y: nat)
    ensures info.Offset(x, y) == y * info.stride * info.bpp + x * info.bpp
  {
    AtIs(y, At(info.stride, info.bpp));
    AtIs(info.stride, info.bpp);
    AtIs(x, info.bpp);
    MulAssoc(y, info.stride, info.bpp);
  }

  lemma {:induction false} MulAssoc(a: nat, b: nat, c: nat)
    ensures a * (b * c) == a * b * c
  {
  }

  lemma {:induction false} OffsetInRow(info: Info, x: nat, w: nat, y: nat)
    ensures info.Offset(x, y) + At(w, info.bpp) == info.Offset(x + w, y)
  {
    AtAdd(x, w, info.bpp);
  }

  lemma {:induction false} OffsetMono(info: Info, x: nat, y: nat, x': nat, y': nat)
    requires x <= x' && y <= y'
    ensures info.Offset(x, y) <= info.Offset(x', y')
  {
    AtMono(y, y', At(info.stride, info.bpp));
    AtMono(x, x', info.bpp);
  }

  datatype Rect = Rect(x: nat, y: nat, w: nat, h: nat) {
    predicate Inside(info: Info) {
      x + w <= info.width && y + h <= info.height
    }

    predicate Empty() {
      w == 0 || h == 0
    }
  }

  /** The bytes of row number `row` of a rectangle start here. */
  function RowStart(info: Info, r: Rect, row: nat): nat {
    info.Offset(r.x, r.y + row)
  }

  function RowBytes(info: Info, r: Rect): nat {
    At(r.w, info.bpp)
  }

  lemma {:induction false} RowFits(info: Info, r: Rect, row: nat, n: nat)
    requires r.Inside(info) && row < r.h && info.Fits(n)
    ensures RowStart(info, r, row) + RowBytes(info, r) <= n
  {
    OffsetInRow(info, r.x, r.w, r.y + row);
    OffsetMono(info, r.x + r.w, r.y + row, info.width, info.height - 1);
  }

  /** Byte p of the buffer belongs to one of the first n rows of the rectangle. */
  ghost predicate InRows(info: Info, r: Rect, n: nat, p: nat) {
    exists row: nat :: row < n && InRow(info, r, row, p)
  }

  predicate InRow(info: Info, r: Rect, row: nat, p: nat) {
    RowStart(info, r, row) <= p < RowStart(info, r, row) + RowBytes(info, r)
  }

  ghost predicate InRect(info: Info, r: Rect, p: nat) {
    InRows(info, r, r.h, p)
  }

  // ----- which rows a copy reaches

  /** The copy loops go on while the row is on the screen, in the buffer and in the slot. */
  predicate RowOk(info: Info, r: Rect, row: nat, len: nat, cap: nat) {
    && r.y + row < info.height
    && RowStart(info, r, row) + RowBytes(info, r) <= len
    && At(row, RowBytes(info, r)) + RowBytes(info, r) <= cap
  }

  predicate RowsOk(info: Info, r: Rect, n: nat, len: nat, cap: nat) {
    forall row :: 0 <= row < n ==> RowOk(info, r, row, len, cap)
  }

  /** How many rows a copy between a buffer of len bytes and a slot of cap bytes takes. */
  function CopiedRows(info: Info, r: Rect, len: nat, cap: nat, row: nat): (n: nat)
    requires row <= r.h && RowsOk(info, r, row, len, cap)
    ensures row <= n <= r.h && RowsOk(info, r, n, len, cap)
    ensures n < r.h ==> !RowOk(info, r, n, len, cap)
    decreases r.h - row
  {
    if row == r.h || !RowOk(info, r, row, len, cap) then row else CopiedRows(info, r, len, cap, row + 1)
  }

  /** On a mode that fits, a rectangle inside the screen is copied whole. */
  lemma {:induction false} WholeCopy(info: Info, r: Rect, len: nat, cap: nat)
    requires r.Inside(info) && info.Fits(len) && At(r.h, RowBytes(info, r)) <= cap
    ensures RowsOk(info, r, r.h, len, cap) && CopiedRows(info, r, len, cap, 0) == r.h
  {
    forall row | 0 <= row < r.h ensures RowOk(info, r, row, len, cap) {
      RowFits(info, r, row, len);
      AtMono(row, r.h, RowBytes(info, r));
    }
  }

  // ----- saving

  /** The bytes of the first n rows, concatenated. */
  function Saved(buf: bytes, info: Info, r: Rect, n: nat, cap: nat): (s: bytes)
    requires RowsOk(info, r, n, |buf|, cap)
    ensures |s| == At(n, RowBytes(info, r))
  {
    if n == 0 then [] else
    assert RowOk(info, r, n - 1, |buf|, cap);
    Saved(buf, info, r, n - 1, cap) + buf[RowStart(info, r, n - 1)..RowStart(info, r, n - 1) + RowBytes(info, r)]
  }

  /** The bytes of as many rows as fit a slot of cap bytes. */
  function CopyOut(buf: bytes, info: Info, r: Rect, cap: nat): bytes {
    if info.bpp == 0 || r.Empty() then [] else Saved(buf, info, r, CopiedRows(info, r, |buf|, cap, 0), cap)
  }

  /** blit_save_rect into a slot of cap bytes; the result is what the slot receives. */
  method BlitSaveRect(buf: array<byte>, info: Info, r: Rect, cap: nat) returns (dst: bytes)
    ensures dst == CopyOut(buf[..], info, r, cap)
  {
    hide RowStart, RowBytes;
    dst := [];
    if info.bpp == 0 || r.w == 0 || r.h == 0 {
      return;
    }
    var row := 0;
    while row < r.h
      invariant row <= r.h && RowsOk(info, r, row, buf.Length, cap)
      invariant CopiedRows(info, r, buf.Length, cap, 0) == CopiedRows(info, r, buf.Length, cap, row)
      invariant dst == Saved(buf[..], info, r, row, cap)
    {
      if r.y + row >= info.height {
        break;
      }
      var base, rowBytes := RowStart(info, r, row), RowBytes(info, r);
      if base + rowBytes > buf.Length || |dst| + rowBytes > cap {
        break;
      }
      dst := dst + buf[base..base + rowBytes];
      row := row + 1;
    }
  }

  // ----- restoring

  /** The buffer after the first n rows have been copied back from src. */
  function Restored(buf: bytes, info: Info, r: Rect, src: bytes, n: nat): (s: bytes)
    requires RowsOk(info, r, n, |buf|, |src|)
    ensures |s| == |buf|
  {
    if n == 0 then buf else
    assert RowOk(info, r, n - 1, |buf|, |src|);
    var o := At(n - 1, RowBytes(info, r));
    Splice(Restored(buf, info, r, src, n - 1), RowStart(info, r, n - 1), src[o..o + RowBytes(info, r)])
  }

  /** The buffer after as many rows as fit have been copied back from src. */
  function CopyBack(buf: bytes, info: Info, r: Rect, src: bytes): (s: bytes)
    ensures |s| == |buf|
  {
    if info.bpp == 0 || r.Empty() then buf
    else Restored(buf, info, r, src, CopiedRows(info, r, |buf|, |src|, 0))
  }

  /** blit_restore_rect */
  method BlitRestoreRect(buf: array<byte>, info: Info, r: Rect, src: bytes)
    modifies buf
    ensures buf[..] == CopyBack(old(buf[..]), info, r, src)
  {
    hide Splice, RowStart, RowBytes;
    if info.bpp == 0 || r.w == 0 || r.h == 0 {
      return;
    }
    ghost var was := buf[..];
    var o, row := 0, 0;
    while row < r.h
      invariant row <= r.h && RowsOk(info, r, row, buf.Length, |src|)
      invariant CopiedRows(info, r, buf.Length, |src|, 0) == CopiedRows(info, r, buf.Length, |src|, row)
      invariant buf[..] == Restored(was, info, r, src, row) && o == At(row, RowBytes(info, r))
    {
      if r.y + row >= info.height {
        break;
      }
      var base, rowBytes := RowStart(info, r, row), RowBytes(info, r);
      if base + rowBytes > buf.Length || o + rowBytes > |src| {
        break;
      }
      CopyIn(buf, base, src[o..o + rowBytes]);
      o := o + rowBytes;
      row := row + 1;
    }
  }

  /** What saving one more row adds. */
  lemma {:induction false} SavedStep(scene: bytes, info: Info, r: Rect, n: nat, cap: nat)
    requires n > 0 && RowsOk(info, r, n, |scene|, cap)
    ensures var w := RowBytes(info, r);
            && RowsOk(info, r, n - 1, |scene|, cap) && RowStart(info, r, n - 1) + w <= |scene|
            && Saved(scene, info, r, n, cap)
               == Saved(scene, info, r, n - 1, cap) + scene[RowStart(info, r, n - 1)..RowStart(info, r, n - 1) + w]
            && |Saved(scene, info, r, n - 1, cap)| == At(n - 1, w)
  {
    hide RowStart, RowBytes, At;
    assert RowOk(info, r, n - 1, |scene|, cap);
  }

  /** Row `row` of a saved rectangle is that row of the buffer it was saved from. */
  lemma {:induction false} SavedRow(scene: bytes, info: Info, r: Rect, n: nat, cap: nat, row: nat)
    requires row < n && RowsOk(info, r, n, |scene|, cap)
    ensures var w, o := RowBytes(info, r), At(row, RowBytes(info, r));
            && o + w <= |Saved(scene, info, r, n, cap)|
            && RowStart(info, r, row) + w <= |scene|
            && Saved(scene, info, r, n, cap)[o..o + w] == scene[RowStart(info, r, row)..RowStart(info, r, row) + w]
  {
    hide RowStart, RowBytes, At, Saved, RowOk, RowsOk;
    var w := RowBytes(info, r);
    SavedStep(scene, info, r, n, cap);
    if row < n - 1 {
      AtMono(row, n - 1, w);
      SavedRow(scene, info, r, n - 1, cap, row);
      var prev, o := Saved(scene, info, r, n - 1, cap), At(row, w);
      assert Saved(scene, info, r, n, cap)[o..o + w] == prev[o..o + w];
    }
  }

  /** The last row of a copy, and what it needs. */
  lemma {:induction false} RestoredRow(buf: bytes, info: Info, r: Rect, src: bytes, n: nat)
    requires n > 0 && RowsOk(info, r, n, |buf|, |src|)
    ensures RowsOk(info, r, n - 1, |buf|, |src|)
    ensures RowStart(info, r, n - 1) + RowBytes(info, r) <= |buf| && At(n - 1, RowBytes(info, r)) + RowBytes(info, r) <= |src|
    ensures Restored(buf, info, r, src, n)
         == Splice(Restored(buf, info, r, src, n - 1), RowStart(info, r, n - 1),
                   src[At(n - 1, RowBytes(info, r))..At(n - 1, RowBytes(info, r)) + RowBytes(info, r)])
  {
    hide RowStart, RowBytes, Splice;
    assert RowOk(info, r, n - 1, |buf|, |src|);
  }

  /** Copying back what was saved puts the scene's bytes back inside the rows and touches nothing
      else; the rows may even overlap. */
  lemma {:induction false} RestoreSaved(buf: bytes, scene: bytes, info: Info, r: Rect, all: nat, cap: nat, n: nat, p: nat)
    requires |buf| == |scene| && RowsOk(info, r, all, |scene|, cap) && n <= all && p < |buf|
    requires RowsOk(info, r, n, |buf|, |Saved(scene, info, r, all, cap)|)
    ensures Restored(buf, info, r, Saved(scene, info, r, all, cap), n)[p]
         == if InRows(info, r, n, p) then scene[p] else buf[p]
  {
    hide RowStart, RowBytes, InRows, Splice, Saved, Restored, At, RowsOk, RowOk;
    var src := Saved(scene, info, r, all, cap);
    if n == 0 {
      RestoredNothing(buf, info, r, src, p);
    } else {
      RestoredRow(buf, info, r, src, n);
      RestoreSaved(buf, scene, info, r, all, cap, n - 1, p);
      SavedRow(scene, info, r, all, cap, n - 1);
      LastRow(info, r, n, p);
      var prev, o := Restored(buf, info, r, src, n - 1), At(n - 1, RowBytes(info, r));
      RestoreRow(prev, scene, src, RowStart(info, r, n - 1), RowBytes(info, r), o, p);
    }
  }

  lemma {:induction false} RestoredNothing(buf: bytes, info: Info, r: Rect, src: bytes, p: nat)
    ensures RowsOk(info, r, 0, |buf|, |src|) && Restored(buf, info, r, src, 0) == buf && !InRows(info, r, 0, p)
  {
  }

  lemma {:induction false} LastRow(info: Info, r: Rect, n: nat, p: nat)
    requires n > 0
    ensures InRows(info, r, n, p) == (InRow(info, r, n - 1, p) || InRows(info, r, n - 1, p))
  {
  }

  lemma {:induction false} RestoreRow(prev: bytes, scene: bytes, src: bytes, b: nat, w: nat, o: nat, p: nat)
    requires |prev| == |scene| && b + w <= |prev| && o + w <= |src| && p < |prev|
    requires src[o..o + w] == scene[b..b + w]
    ensures Splice(prev, b, src[o..o + w])[p] == if b <= p < b + w then scene[p] else prev[p]
  {
    if b <= p < b + w {
      assert src[o..o + w][p - b] == scene[b..b + w][p - b];
    }
  }
}
