# Eve OS: a verified model of its algorithmic core

Eve OS is a bare-metal kernel with a small browser. Most of it is drivers and drawing. This project models the
parts that carry real proof obligations, in Dafny, and proves what they promise:

- **The raw-to-qcow2 writer** (`Bitmap`, `Qcow2Plan`, `Qcow2Header`, `Qcow2Refcounts`, `Qcow2Tables`, `Qcow2Regions`,
  `Qcow2Output`) against an independent reader of the format (`Qcow2Format`; QEMU's qcow2 specification, sections "Host
  cluster management" and "Cluster mapping"). `Qcow2Reading`,
  `Qcow2References` and `Qcow2Image` prove that reading back gives the disk, that no cluster is lost or shared, and that
  the copied flags agree with the refcounts.
- **The save-under cursor compositor** (`Framebuffer`, `CursorSprite`, `CursorEngine`, `Compositor`), an incremental
  renderer, against the naive one that paints the scene and then draws every cursor; `OverlayPixels` says what that is
  pixel by pixel, `Fill` and `Backgrounds` which repaints hide the cursors, `Solids`, `DirtyParts` and `StatusStrip` when
  a partial repaint shows what a full one would.
- **The HTTP receive path**: the resumable chunked decoder (`ChunkedDecoder`, with the encoding it inverts), the
  header and body splitter (`HttpReceive`), and exactly when the cutting into TCP segments does not matter (`HttpReplay`,
  `HttpSegments`).
- **The network engines**: the TLS byte queues (`TlsQueue`), the Internet checksum and the frames (`InternetChecksum`,
  `NetFrames`, `NetRequests`), DHCP and the fetch timers (`DhcpReply`, `DhcpTimers`, `FetchTimers`, `NetDrive`) with exactly
  when each of them ends (`DhcpEnd`, `FetchEnd`), DNS names and replies (`DnsCodec`).
- **The GPT patcher** (`Crc32`, `GptPatch`), with what a CRC-32 is (`CrcPolynomial`, `CrcResidue`); the **line breaker**
  (`LineBreaker`, `Utf8Text`); the **script VM** (`ScriptVm`) and expressions compiled for it (`ScriptExpressions`); the
  **text DOM** (`TextDom`); and the **URL parser** with its language (`Url`, `UrlLanguage`). `Characters` says what digits
  write.

`dafny verify dfyconfig.toml` checks everything.

## How to read it

A component that the source updates in place is a class or a method over arrays. Its contract equates the new state
with a function of the old one, and the lemmas are about that function. Byte strings are sequences of numbers below
256. Fixed-size Rust arrays inside structures are values, so they are sequence fields. Where a class keeps a record of
several source fields (`Slot`, `Fetch`, `DhcpClient`), the record is updated where the source updates a field.

The environment is a parameter: the hole layout of the input file, what the network delivers, whether the card takes a
frame, which disk requests fail, what a host answers to a script, how often frames are drawn and what they paint.

## What the code does that one might not expect

- Saves are taken on the clean scene before any sprite is drawn (kernel/src/gfx.rs:837-842); the comment at line 831
  says otherwise. `Engine.PatchCursorsOnly` follows the code.
- A change of the cursor preset alone does not cause a redraw: the early return of `render_frame` does not look at it.
  `RenderFrame` and `PictureIsCurrent` say exactly which sprites are on the screen. A click on a preset never arrives
  alone, because the main loop sets the content flag after every click that was handled (kernel/src/main.rs:748-755);
  `PresetAlone` states both.
- The body flag alone makes `render_frame` draw the browser's body whatever screen is shown, and the main loop sets it
  when a fetch has settled without looking at the screen (kernel/src/main.rs:920). `BodyFlag` says for every screen when
  that is what a full repaint would show, `BodyFlagElsewhere` what is wrong on the others.
- A full repaint leaves the status strip in the desktop's colour (kernel/src/gfx.rs:4443-4458), a refresh of the status
  fills it with another one first (4469-4473), and a chrome repaint draws the new text over the old one (4522-4536). So
  the strip changes its colour with the first refresh (`StripTurnsColour`, `FillStays`), and old text stays under a chrome
  repaint (`OldTextStays`). `StripIsRight` and `StripOfRun` say exactly when the strip shows what a full repaint would.
- `clear` writes nothing where the stride is below the width, so that cursors would stay on the screen there
  (`ClearOverwrites`). It never writes the unused bytes of wide pixels, but neither do sprites (`OverlayStores`).
- `append_to_page` counts only stored bytes, so a fetch whose content length is above 65,536 never completes by count,
  and a longer body than announced is kept up to the end of the payload that completes it. The page then depends on how
  the response was cut (`CompletesAtContentLength`, `OverlongBody`, `SegmentationDoesNotMatter`).
- The bytes that arrive with the end of a header are handed to the chunked decoder in 256-byte pieces even after it has
  failed, so that a malformed body can leave more in the page than one call would. `ReplayDiffers` says when, exactly;
  `MalformedBody` gives one response cut in two ways. The completion never depends on it (`ReplayIsRun`).
- A chunk-size line without digits counts as size zero, so that an empty line ends the chunks
  (`NoDigitsEndChunks`; `AnySizeLine` states all lines), and of a size of more than 24 digits only the first 24 count
  (`LongSizes`).
- A bare blank line ends a header only while no CRLF blank line has arrived behind it (`EndOfLf`, `BlankLineInBody`).
- UDP checksums that come out as zero are sent as zero, which RFC 768 reserves for "no checksum" (`UdpChecksumZero`).
- `try_patch_gpt` returns false for a header of more than 128 bytes after it has already written the entry's sector
  (`TryPatchGpt` states when, exactly).
- The first interpreter of the script VM returns zero when it runs out of steps, the second one reports it
  (`Vm.Run`, `Vm.RunBytes`).

## Model

| member | source | states |
|---|---|---|
| `Bitmap.OrBitKeepsOthers` | scripts/qcow2-convert.py:29-30 | or-ing one bit into a byte sets that bit and keeps every other one |
| `Bitmap.BitmapSet` | scripts/qcow2-convert.py:29-30 | setting bit idx adds exactly idx to the set that the bitmap represents |
| `Bitmap.RankSelects` | scripts/qcow2-convert.py:37-40 | the members of a set below n, in increasing order, have i at position Rank(i): the order in which the bitmap iterator yields clusters |
| `Bitmap.RankAfterAdd` | scripts/qcow2-convert.py:177-182 | marking a cluster that was not marked raises the number of marked clusters by one |
| `Arithmetic.CeilDiv` | scripts/qcow2-convert.py:43-44 | the least integer whose product with the divisor reaches the dividend |
| `Arithmetic.AlignUp` | scripts/qcow2-convert.py:43-44 | the least multiple of d that is not below num |
| `Qcow2Plan.ClustersWithData` | scripts/qcow2-convert.py:47-58 | whatever the hole layout: strictly increasing indices below the cluster count that include every cluster which is not all zero |
| `Qcow2Plan.UncoveredIsZero` | scripts/qcow2-convert.py:47-58 | a cluster that the scan does not list reads as zeros |
| `Qcow2Plan.MarkIfData` | scripts/qcow2-convert.py:172-182 | a candidate cluster and its table are marked if and only if the cluster is not all zero, and the table counts as new if and only if it was not marked |
| `Qcow2Plan.MarkClusters` | scripts/qcow2-convert.py:172-182 | after the loop the level-2 bitmap marks exactly the listed clusters with data, level 1 exactly their tables, and both counters are the sizes of these sets |
| `Qcow2Plan.ScanInput` | scripts/qcow2-convert.py:158-182 | the bitmaps mark exactly the guest clusters that are not all zero and exactly the tables holding one, with the right counts, for every sparse file |
| `Qcow2Plan.SizeRefcounts` | scripts/qcow2-convert.py:188-206 | the loop terminates and finds the least number of refcount blocks that can count all clusters, the refcount blocks and tables themselves included, at most two more than the other clusters |
| `Qcow2Plan.MakePlan` | scripts/qcow2-convert.py:144-206 | fails exactly when level 1 exceeds 32 MiB; otherwise all counts of the plan are the ones the format needs |
| `Qcow2Format.UnpackField` | scripts/qcow2-convert.py:233-255 | unpacking any field of a packed record gives back its value |
| `Qcow2Header.BuildHeader` | scripts/qcow2-convert.py:219-257 | the header cluster: the packed version-3 fields, eight zero bytes, the feature name table, zeros to the end |
| `Qcow2Header.FeaturesRead` | scripts/qcow2-convert.py:119-141 | a reader that follows the header length finds the feature name table with its eight records and then the end of the extensions |
| `Qcow2Reading.HeaderReads` | scripts/qcow2-convert.py:222-256 | opening the file gives back cluster size, refcount width, disk size, table sizes and table offsets of the plan, and the fields of backing file, snapshots and further features are zero |
| `Qcow2Refcounts.WriteRefcountTable` | scripts/qcow2-convert.py:259-268 | the rows of the refcount table point at the consecutive refcount blocks and are zero behind them |
| `Qcow2Refcounts.PackRefcount` | scripts/qcow2-convert.py:275-289 | for all seven widths: the block that held idx ones holds idx + 1 ones |
| `Qcow2Refcounts.BlockDecodes` | scripts/qcow2-convert.py:275-289 | reading refcount j of a block of n ones, at any width, gives 1 below n and 0 from n on |
| `Qcow2Refcounts.WriteRefcountBlocks` | scripts/qcow2-convert.py:270-290 | every block holds as many ones as clusters remain to be counted, at most a block full |
| `Qcow2Tables.BuildRow` | scripts/qcow2-convert.py:294-300 | one table cluster: each marked entry gets the next offset with the copied flag, every other entry is zero |
| `Qcow2Tables.WriteL1Tables` | scripts/qcow2-convert.py:292-300 | all level-1 clusters; the k-th pointer names the k-th level-2 cluster |
| `Qcow2Tables.WriteL2Tables` | scripts/qcow2-convert.py:302-319 | only the level-2 clusters that level 1 marks; the k-th pointer names the k-th data cluster |
| `Qcow2Tables.NoDataInAbsentTables` | scripts/qcow2-convert.py:179-182 | a table that level 1 does not mark maps no data, so that leaving it out keeps the running offset right |
| `Qcow2Tables.WriteData` | scripts/qcow2-convert.py:321-326 | the marked guest clusters in order, the last one padded with zeros |
| `Qcow2Regions.WriteRegions` | scripts/qcow2-convert.py:232-327 | header, refcount table, refcount blocks, level 1, level 2 and data are what the plan says they are |
| `Qcow2Regions.RegionsTile` | scripts/qcow2-convert.py:208-217 | the six regions tile the file without gap or overlap: each starts where the plan puts it, and the file is exactly the planned number of clusters long |
| `Qcow2Reading.ClusterReads` | scripts/qcow2-convert.py:292-326 | following level 1, level 2 and the data region gives the bytes of a marked guest cluster and zero for an unmarked one |
| `Qcow2Reading.GuestReads` | scripts/qcow2-convert.py:144-327 | the QEMU mapping rule on the emitted file returns the raw image's byte at every guest offset below the disk size, zero behind the raw file's end |
| `Qcow2Reading.RefcountReads` | scripts/qcow2-convert.py:184-290 | every host cluster of the file has refcount 1 and every later slot has 0 |
| `Qcow2References.MappedOnce` | scripts/qcow2-convert.py:292-319 | when the members of a set get consecutive clusters, each cluster of that range is mapped to exactly once and no other cluster is |
| `Qcow2References.NamedOnce` | scripts/qcow2-convert.py:184-327 | header, refcount table, level 1 and level 2 name every host cluster of the file exactly once, and no later cluster: the refcount of a cluster is the number of its names |
| `Qcow2References.FlagsAreRight` | scripts/qcow2-convert.py:292-319 | read from the file alone: every entry of level 1 and of each level-2 table it names has bit 63 set if and only if the cluster it names has refcount one, and no other bit beside its cluster-aligned offset; refcount table entries are aligned too |
| `Qcow2Image.WriteQcow2Content` | scripts/qcow2-convert.py:144-327 | for every sparse file, cluster size and refcount width: an image that opens, reads back as the raw image padded to the disk size, names and counts each of its clusters exactly once, and has the copied flag in exactly the table entries whose cluster has refcount one; none if and only if level 1 would exceed 32 MiB |
| `Framebuffer.OffsetIs` | kernel/src/gfx.rs:483-483 | a pixel's bytes start at y * stride * bpp + x * bpp |
| `Framebuffer.BlitSaveRect` | kernel/src/gfx.rs:621-650 | the slot receives the rows of the rectangle that lie on the screen, in the buffer and in the slot, concatenated |
| `Framebuffer.BlitRestoreRect` | kernel/src/gfx.rs:652-681 | the buffer after those rows have been copied back |
| `Framebuffer.RestoreSaved` | kernel/src/gfx.rs:621-681 | copying back what was saved puts the saved bytes back inside the rectangle and touches nothing else, even if rows overlap |
| `CursorSprite.BlendChannel` | kernel/src/cursor_emoji.rs:128-131 | the mean of source and destination with the weights alpha and 255 - alpha, rounded down |
| `CursorSprite.ReadAfterWrite` | kernel/src/cursor_emoji.rs:62-125 | a stored colour reads back as itself, or as its grey value on an 8-bit screen |
| `CursorSprite.BlendOverAt` | kernel/src/cursor_emoji.rs:133-158 | in place, exactly the blend of one pixel; nothing if it lies off the screen or the buffer |
| `CursorSprite.DrawSpriteAt` | kernel/src/cursor_emoji.rs:161-208 | in place, exactly the pixel-by-pixel blend of the sprite for preset + index modulo 8 |
| `CursorEngine.ClipRect` | kernel/src/gfx.rs:685-705 | the clipped rectangle lies on the screen and is at most 17 by 17 |
| `CursorEngine.SlotFits` | kernel/src/gfx.rs:683-705 | every clipped rectangle fits a save slot |
| `CursorEngine.SpriteLocal` | kernel/src/cursor_emoji.rs:161-208 | a sprite only changes bytes of the rectangle saved for its cursor |
| `CursorEngine.OverlayLocal` | kernel/src/gfx.rs:801-808 | away from the active cursors the overlay shows the scene |
| `CursorEngine.OverlayAgrees` | kernel/src/gfx.rs:801-808 | overlay and scene differ under active cursors only |
| `CursorEngine.RestoreHeld` | kernel/src/gfx.rs:773-782 | restoring a slot that holds the scene makes the rectangle show the scene again and nothing else |
| `CursorEngine.Engine.AnyCursorMoved` | kernel/src/gfx.rs:754-766 | true if and only if a pointer appeared, vanished or moved while shown |
| `CursorEngine.Engine.RestoreOne` | kernel/src/gfx.rs:773-782 | the bytes under one cursor become the scene's; its slot becomes invalid, the others stay |
| `CursorEngine.Engine.RestoreAll` | kernel/src/gfx.rs:830-836 | from the screen with the last cursors on it, the loop uncovers exactly the clean scene, overlaps and clipped cursors included |
| `CursorEngine.Engine.SaveOne` | kernel/src/gfx.rs:784-799 | the slot holds the scene under the cursor, or is invalid if the rectangle is empty |
| `CursorEngine.Engine.PrimeCursors` | kernel/src/gfx.rs:819-827 | from a clean scene to one with all active cursors shown over it, and with everything needed to undo them |
| `CursorEngine.Engine.PatchCursorsOnly` | kernel/src/gfx.rs:830-845 | the incremental redraw shows the new cursors over the same clean scene, and can be undone |
| `OverlayPixels.RowsPixel` | kernel/src/cursor_emoji.rs:161-208 | on a screen whose rows do not overlap, a sprite changes each pixel under it to the blend with its own sprite pixel, and no other pixel |
| `OverlayPixels.OverlayPixel` | kernel/src/gfx.rs:801-808 | pixel by pixel, the overlay is the scene's pixel with the sprite pixels over it blended in, in index order |
| `OverlayPixels.PixelBlended` | kernel/src/cursor_emoji.rs:62-158 | byte by byte in every format: red, green and blue become the means of sprite and screen, a grey pixel the grey value of the three means, a fourth byte opaque, and nothing else changes |
| `OverlayPixels.ShownColour` | kernel/src/cursor_emoji.rs:161-208 | on the screen: the pixel under a cursor is that mean of the pixel below and the four bytes at its place in the cell of sprite preset + index modulo 8 |
| `Fill.OverlayStores` | kernel/src/cursor_emoji.rs:79-125 | cursors only change the bytes of visible pixels that hold colour: three or four of an RGB pixel, one of a grey one |
| `Fill.FillRect` | kernel/src/gfx.rs:847-934 | in place, exactly the solid pixels of the part of the rectangle that lies on the screen; nothing in a mode whose rows overlap or whose format is unknown |
| `Fill.Clear` | kernel/src/gfx.rs:532-619 | in place, the fill of the whole screen |
| `Fill.FillAgrees` | kernel/src/gfx.rs:847-934 | two buffers agree after a fill wherever they agreed before and on every filled pixel |
| `Backgrounds.ClearOverwrites` | kernel/src/gfx.rs:532-619 | clear hides whatever colours were on the screen if and only if the rows of the mode do not overlap, or nothing can be shown |
| `Backgrounds.DrawBands` | kernel/src/gfx.rs:1069-1078 | in place, the six bands of the warning screen |
| `Backgrounds.BandsOverwrite` | kernel/src/gfx.rs:1069-1078 | six bands hide them like one fill |
| `Solids.BandPixel` | kernel/src/gfx.rs:1069-1078 | the rows from b * h / 6 up to (b + 1) * h / 6 get the b-th of six shades |
| `Backgrounds.FillsFirst` | kernel/src/gfx.rs:4432-4446 | a frame whose repaint starts with such a fill meets what RenderRun asks of it |
| `Compositor.RepaintForgets` | kernel/src/gfx.rs:4420-4459 | a full repaint over a screen with cursors gives what it gives over the clean scene, if its first routine overwrites the colour of every visible pixel |
| `Solids.StrokesAreStencil` | kernel/src/gfx.rs:477-512 | a routine made of solid pixels and filled rectangles sets a byte to a colour of its own or leaves it, whatever the screen shows |
| `Solids.FillColour` | kernel/src/gfx.rs:847-934 | where rows do not overlap, a fill sets the colour bytes of the pixels of its rectangle to its colour, and no other pixel's |
| `Solids.StrokesDrawn` | kernel/src/gfx.rs:4420-4474 | frames whose routines are made of such strokes, and whose repaint starts with a fill, meet what the following rows ask of them |
| `DirtyParts.RepaintedAt` | kernel/src/gfx.rs:4425-4460 | a full repaint shows at every byte the colour that its last routine there draws |
| `DirtyParts.ChromeRepaintedAt` | kernel/src/gfx.rs:4511-4549 | a chrome repaint draws the frame's parts, and the body where that is flagged too, over what is there; warnings and the full page are repainted whole |
| `DirtyParts.NextSceneAt` | kernel/src/gfx.rs:4477-4590 | whatever is flagged on whatever screen: a byte gets the last colour that the frame draws there, or stays |
| `DirtyParts.HonestFlags` | kernel/src/gfx.rs:4477-4590 | a frame leaves a current byte current if and only if its last colour there is the one on top of a full repaint, or it draws nothing there and that colour has not changed |
| `DirtyParts.RunIsRepaint` | kernel/src/gfx.rs:4477-4590 | in every run, the clean scene is at a byte what a full repaint of the latest frame would show if and only if the colour drawn last in the run is the one on top of that repaint |
| `DirtyParts.HonestRun` | kernel/src/gfx.rs:4477-4590 | it is so at every frame of a run if and only if all flags are honest about the byte |
| `DirtyParts.BodyFlag` | kernel/src/gfx.rs:4549-4569 | the body flag on any screen, with or without the status flag: the byte is right if and only if the status text, the strip's fill or the page, whichever is drawn last, has the colour on top of a full repaint |
| `DirtyParts.BodyFlagElsewhere` | kernel/src/gfx.rs:4549-4569 | on the settings, installation and log screens the page's colour is shown where the screen's own body belongs |
| `StatusStrip.StripIsRight` | kernel/src/gfx.rs:4295-4474 | a byte of the status strip shows what a full repaint would show if and only if the frame started over, or holds text there now, or filled it with the desktop's colour, or found that colour there |
| `StatusStrip.StripOfRun` | kernel/src/gfx.rs:4295-4590 | the same over every run, in terms of the last background and the text drawn since |
| `StatusStrip.FillStays` | kernel/src/gfx.rs:4469-4473 | after a refresh of the status, a byte without text keeps the fill's colour until the screen is repainted from the ground |
| `StatusStrip.RefreshTurnsStrip` | kernel/src/gfx.rs:4443-4473 | a full repaint and then a refresh of the same screen: a byte without text shows the fill's colour where a full repaint shows the desktop's |
| `StatusStrip.OldTextStays` | kernel/src/gfx.rs:4522-4536 | a chrome repaint leaves older status text where there is none now |
| `StatusStrip.StripTurnsColour` | kernel/src/gfx.rs:4443-4473 | with the kernel's two colours (kernel/src/theme.rs:62-107), in either theme and every mode: after a full repaint and a refresh of the status, no strip pixel without text has the colour of a full repaint |
| `Compositor.RenderFrame` | kernel/src/gfx.rs:4477-4590 | whatever is dirty: the screen is the new clean scene with cursors over it, the scene changes by painting alone, the flags left are stated, and the cursors drawn are the state's unless nothing called for a redraw |
| `Compositor.PictureIsCurrent` | kernel/src/gfx.rs:4484-4492 | after a frame the picture shows that frame's pointers, and its sprites too unless the frame was skipped |
| `Compositor.PresetAlone` | kernel/src/gfx.rs:4484-4492 | a changed preset alone is not drawn; with the content flag set it is |
| `Compositor.RenderRun` | kernel/src/gfx.rs:4477-4590 | every run that starts with a full repaint keeps the screen equal to the naive picture: paint the scene, then draw all cursors |
| `ChunkedDecoder.ParseChunkSizeLine` | kernel/src/net.rs:1766-1785 | the loop reads a size as SizeLanguage says |
| `ChunkedDecoder.RunSplit` | kernel/src/net.rs:1538-1627 | feeding a and then b is feeding a + b until the body is complete or wrong |
| `ChunkedDecoder.PiecesDoNotMatter` | kernel/src/net.rs:1538-1627 | any cutting of the input into calls has the same outcome |
| `ChunkedDecoder.BodyDecoder.IngestChunkedBytes` | kernel/src/net.rs:1538-1627 | the nested loops do exactly what the byte-at-a-time machine does, resuming where the last call stopped |
| `Characters.DigitPlace` | kernel/src/net.rs:1775-1780 | a byte is read as the digit d if and only if it stands at place d in 0123456789abcdef or 0123456789ABCDEF |
| `Characters.ValueIsWritten` | kernel/src/net.rs:1766-1785 | digits are read as n if and only if they write n in base 16, in any mixture of cases, with any number of leading zeros |
| `Characters.SameLowerCase` | kernel/src/script_runtime.rs:248-270 | two bytes are compared as equal if and only if they are the same or the two cases of a letter |
| `ChunkedDecoder.SizeLanguage` | kernel/src/net.rs:1766-1785 | a size line is accepted with the size n if and only if what stands before the first semicolon, blank or tab writes n in base 16 and 64 bits hold n |
| `ChunkedDecoder.SizeReadBack` | kernel/src/net.rs:1543-1569 | a size of up to 24 digits with any extension is kept and read back as its number |
| `ChunkedDecoder.LongSizes` | kernel/src/net.rs:1559-1563 | of more than 24 digits only the first 24 are kept, which is right if and only if the number is zero |
| `ChunkedDecoder.DecodeInvertsEncode` | kernel/src/net.rs:1538-1636 | for any chunks with extensions, any trailers and any cutting: the decoder finishes exactly at the last byte, with the payload cut at 65,536 bytes as its page, and marks truncation if and only if the payload is longer |
| `ChunkedDecoder.AnySizeLine` | kernel/src/net.rs:1543-1570 | any line where a size is due leads to as many bytes of data as the digits before its extension write, to the trailers if that is zero, and to an error if they are no digits or too large a number |
| `ChunkedDecoder.NoDigitsEndChunks` | kernel/src/net.rs:1543-1570 | a line without a digit where a size is due, empty or an extension alone, moves the decoder to the trailers, unlike RFC 9112 section 7.1 |
| `ChunkedDecoder.KeptBytes` | kernel/src/net.rs:1543-1563 | of a line the first 24 bytes are kept, carriage returns not counted |
| `ChunkedDecoder.AnyLineEnd` | kernel/src/net.rs:1579-1606 | behind a chunk's data a line feed or CRLF goes on, and any other byte is an error |
| `ChunkedDecoder.AnyTrailer` | kernel/src/net.rs:1607-1625 | a trailer line completes the body if and only if it is empty, carriage returns not counted |
| `ChunkedDecoder.EmptyLinesAreABody` | kernel/src/net.rs:1538-1627 | two empty lines are a complete body |
| `HttpReceive.HttpReceiver.IngestTcpPayload` | kernel/src/net.rs:1467-1536 | the whole new state of the receive path after a payload |
| `HttpReceive.HttpReceiver.AppendToPage` | kernel/src/net.rs:1638-1655 | stores what fits, and counts only stored bytes towards the content length |
| `HttpReceive.HttpReceiver.FinishPlainHttpOnTcpEof` | kernel/src/net.rs:1351-1357 | the whole new state when the server closes the connection |
| `HttpReceive.HttpReceiver.FindHttpHeaderEnd` | kernel/src/net.rs:1679-1687 | the end of the first CRLF blank line, else of the first bare one |
| `HttpSegments.EndOfCrlf` | kernel/src/net.rs:1679-1687 | once a CRLF header is in the buffer its end is found, whatever follows |
| `HttpSegments.EndOfLf` | kernel/src/net.rs:1679-1687 | the end of a header with bare line ends is found if and only if no CRLF blank line has arrived behind it |
| `HttpSegments.NoEndYet` | kernel/src/net.rs:1679-1687 | no proper prefix of the header looks complete |
| `HttpReplay.ReplayIsRun` | kernel/src/net.rs:1503-1513 | handing the header's tail on in 256-byte pieces never changes whether and how the fetch completes; unless the tail is malformed it changes nothing |
| `HttpReplay.OnePiece` | kernel/src/net.rs:1503-1513 | a tail of at most 256 bytes is handed on whole |
| `HttpReplay.ReplayDiffers` | kernel/src/net.rs:1503-1513 | the pieces change page or truncation if and only if a piece behind the failing one stores a byte |
| `HttpReplay.OnlyLineEndsMatter` | kernel/src/net.rs:1579-1606 | that takes a wrong line end after a chunk's data; behind a malformed size line nothing is ever stored |
| `HttpReplay.ReplayGoesOnAfterAnError` | kernel/src/net.rs:1503-1513 | a malformed tail for which the pieces do matter: decoding goes on behind the error and appends another byte to the page |
| `HttpSegments.EveryCutting` | kernel/src/net.rs:1467-1536 | what any payloads that make up a response amount to: an error for a header longer than the buffer; of the payload that ends the header, the buffer keeps what it has room for; and behind a bare blank line, a CRLF one among these bytes is taken for the header's end |
| `HttpSegments.SegmentationDoesNotMatter` | kernel/src/net.rs:1467-1536 | all cuttings whose header-completing payload fits the buffer leave the same page, truncation mark and completion, if and only if: the body is not longer than its content length, or the length is above 65,536, or it is zero and the header fills the buffer; a chunked body stores nothing in a 256-byte piece behind the failing one; other bodies always |
| `HttpSegments.OverlongBody` | kernel/src/net.rs:1519-1536 | two bytes for a content length of one, cut in two ways, leave two different pages |
| `HttpSegments.MalformedBody` | kernel/src/net.rs:1503-1513 | a malformed chunked body, cut in two ways, leaves two different pages |
| `HttpSegments.LfCutting` | kernel/src/net.rs:1679-1687 | behind a header with bare line ends, a body with a CRLF blank line: every cutting amounts to that header or to the one that goes on to the end of that blank line, and which depends only on how much arrives with the end of the header |
| `HttpSegments.BlankLineInBody` | kernel/src/net.rs:1679-1687 | one such response, cut in two ways, with two different pages |
| `HttpSegments.ChunkedCutting` | kernel/src/net.rs:1467-1627 | a chunked response completes or fails the same however it is cut, with the same page if it is well-formed or at most 256 bytes arrive with the header's end, and exactly if no piece behind the failing one stores a byte |
| `HttpSegments.CompletesAtContentLength` | kernel/src/net.rs:1519-1536 | with content length n the fetch completes by count if and only if n bytes have arrived and n is at most 65,536, and its page is all that arrived up to the end of that payload; otherwise the page is the body, cut at 65,536 bytes |
| `HttpSegments.CompletesAtLastChunk` | kernel/src/net.rs:1467-1627 | a chunked response, cut anyhow, completes with its payload as the page |
| `HttpSegments.EndOfConnection` | kernel/src/net.rs:1351-1357 | when the server closes the connection, an unfinished chunked response is an error and every other one completes with the page as it is |
| `TlsQueue.CipherQueue.Append` | kernel/src/net.rs:1100-1124 | data is taken whole if and only if it fits beside the live bytes; otherwise the contents are unchanged |
| `TlsQueue.CipherQueue.Pop` | kernel/src/net.rs:1126-1141 | returns the longest prefix that fits the caller's buffer and keeps the rest |
| `TlsQueue.CipherQueue.Run` | kernel/src/net.rs:1100-1141 | any run of appends and reads gives exactly what a bounded first-in, first-out queue gives: which appends are accepted, what is read, what waits |
| `TlsQueue.QueueConserves` | kernel/src/net.rs:1100-1141 | over any run of that queue, what was read followed by what waits is what was accepted, in order, and never more than the buffer holds |
| `TlsQueue.TxQueue.FlushAll` | kernel/src/net.rs:1153-1179 | accepted payloads followed by what is left are the old queue; segment k carries the start number plus the bytes before it modulo 2^32 and is as long as 1400 bytes and the rest of the queue allow; the loop only stops early when the card refuses or the frame does not fit |
| `InternetChecksum.FoldMeaning` | kernel/src/net.rs:2036-2038 | folding the carries keeps the value modulo 65,535 and tells the two zeros apart |
| `InternetChecksum.Sum16Of` | kernel/src/net.rs:2028-2040 | the loops compute the one's-complement sum without leaving 32 bits |
| `InternetChecksum.Resums` | kernel/src/net.rs:2028-2040 | a block whose checksum was computed over a zero field re-sums to zero once it is filled in, for odd lengths too |
| `InternetChecksum.NoticesOneByte` | kernel/src/net.rs:2028-2040 | a block that verifies no longer does after a change of any one byte |
| `NetFrames.FrameAccepted` | kernel/src/net.rs:2088-2115 | a receiver that reads the lengths and addresses from the frame finds both checksums right and the length fields equal to the bytes present |
| `NetFrames.PseudoHeader` | kernel/src/net.rs:2229-2238 | the sum the builders start from is that of the pseudo-header's bytes |
| `NetFrames.FrameFields` | kernel/src/net.rs:2074-2098 | where a receiver reads them: hardware addresses, IP type, identification, no fragment, 64 hops, protocol and addresses |
| `NetFrames.TcpFields` | kernel/src/net.rs:2145-2172 | the fields a receiver finds in a segment are those the builder was given |
| `NetFrames.UdpFields` | kernel/src/net.rs:2414-2424 | the same for ports, length and message of a datagram |
| `NetFrames.BuildTcpSyn` | kernel/src/net.rs:2065-2115 | writes the SYN frame, which a receiver accepts; zero and nothing written if and only if the buffer is too short |
| `NetFrames.BuildTcpAckPsh` | kernel/src/net.rs:2117-2172 | the same for a data frame with any payload |
| `NetFrames.BuildTcpAckOnly` | kernel/src/net.rs:2174-2227 | the same for a bare acknowledgement |
| `NetFrames.BuildUdp` | kernel/src/net.rs:2393-2430 | the same for a UDP frame around any message |
| `NetFrames.UdpChecksumZero` | kernel/src/net.rs:2425-2427 | the checksum is sent as zero if and only if pseudo-header and datagram add up to a multiple of 65,535, unlike RFC 768 |
| `NetFrames.ZeroChecksumOccurs` | kernel/src/net.rs:2425-2427 | whatever else a request says, one transaction number leads to a checksum of zero |
| `NetFrames.ZeroChecksumExample` | kernel/src/net.rs:2353-2356 | a datagram of two bytes whose checksum is sent as zero |
| `NetRequests.BuildDnsUdpPacket` | kernel/src/net.rs:2361-2430 | the DNS request for a host, accepted by a receiver; nothing written if and only if the name cannot be encoded or the buffer is too short |
| `NetRequests.QueryReadsBack` | kernel/src/net.rs:2372-2391 | a server finds the transaction number, a recursive query with one question and nothing else, the host's name and that its Internet address is asked for |
| `NetRequests.QueryWithZeroChecksum` | kernel/src/net.rs:2425-2427 | for every host there is a transaction number with which the request's checksum is zero |
| `NetRequests.DhcpPushOpt` | kernel/src/net.rs:2272-2281 | an option goes behind what has been written if and only if it fits |
| `NetRequests.BuildDhcpPacket` | kernel/src/net.rs:2284-2359 | the DHCP request with its options, broadcast and accepted by a receiver; nothing written if and only if the buffer is too short |
| `NetRequests.RequestReadsBack` | kernel/src/net.rs:2294-2324 | a server finds a broadcast boot request with the transaction number and the card's address, zeros elsewhere, and reads back the options that were pushed |
| `DhcpReply.ParseOptions` | kernel/src/net.rs:429-470 | the options read up to the end mark or the first one that does not fit |
| `DhcpReply.ReadFields` | kernel/src/net.rs:429-470 | reading a written option list, padding included, collects exactly its options |
| `DhcpReply.LastCounts` | kernel/src/net.rs:429-470 | of each kind (53, 54, 3, 6) the last option that is long enough counts |
| `DhcpReply.ReplyReads` | kernel/src/net.rs:429-505 | gateway and name server taken from a reply with these options, with their fallbacks |
| `DhcpTimers.ReplyKeepsDhcp` | kernel/src/net.rs:399-505 | every reply keeps: zero addresses while waiting, an address only from an acknowledgement after an offer, both for our transaction and card, and the clock of the phase |
| `DhcpTimers.TickKeepsDhcp` | kernel/src/net.rs:656-694 | so does the timeout check, which leaves no phase older than 12,000 ticks |
| `NetDrive.Stack.HandleDhcpReply` | kernel/src/net.rs:399-505 | the whole new state after a DHCP message |
| `NetDrive.Stack.DhcpRun` | kernel/src/net.rs:404-697 | over any run from the start of an exchange: the client gives up, with the default addresses, if and only if the run says so (12,000 drives after the first without an offer, or after the offer without an acknowledgement); otherwise it has the addresses of the first acknowledgement behind an offer, and waits with zero addresses before it |
| `DhcpEnd.DhcpSettles` | kernel/src/net.rs:656-697 | no exchange waits for more than 24,002 drives |
| `DhcpEnd.DhcpDriveTells` | kernel/src/net.rs:404-697 | each drive keeps phase, clock and addresses what the packets so far say |
| `FetchTimers.Elapsed` | kernel/src/net.rs:767-791 | the wrapping difference of two clock readings less than a round apart is the time between them |
| `FetchTimers.PacketKeepsTime` | kernel/src/net.rs:813-1084 | no packet makes a fetch overdue |
| `FetchTimers.TimersKeepTime` | kernel/src/net.rs:731-794 | after the timers of a tick, a fetch that is not over is within its time limits |
| `NetDrive.Stack.HandleRx` | kernel/src/net.rs:813-1084 | the whole new state after a packet |
| `NetDrive.Stack.DriveFetch` | kernel/src/net.rs:731-794 | the whole new state after the timers |
| `NetDrive.Stack.Drive` | kernel/src/net.rs:631-811 | one tick keeps all of the above, also where the clock wraps |
| `NetDrive.Stack.StartFetch` | kernel/src/net.rs:583-619 | a fetch starts in time, with all of its clocks at the current tick |
| `FetchEnd.PacketTells` | kernel/src/net.rs:813-1084 | which packets end a fetch, in terms of the packets before them: a reset, a payload that completes the page or is the last, the end of the connection after the request, a SYN-ACK whose request does not fit |
| `FetchEnd.TimersTell` | kernel/src/net.rs:731-794 | which drives give up: no address after 3,072; no request after 16,000 or after 12 SYN frames; with the request out, nothing heard for 12,000 |
| `FetchEnd.EndedInTime` | kernel/src/net.rs:731-794 | a fetch is over after 16,001 drives unless something was heard within the last 12,000 |
| `FetchEnd.SynIsTried` | kernel/src/net.rs:774-788 | a SYN frame is sent as soon as the address is known and the card takes a frame |
| `NetDrive.Stack.FetchRun` | kernel/src/net.rs:583-811 | for every run on a stack that is online: the fetch is over if and only if a packet ended it or a drive gave up, as said of the run alone; until then it has sent exactly the SYN frames due by the run, and never more than 12 |
| `NetDrive.Stack.FirstDrive` | kernel/src/net.rs:758-788 | the first drive of a fetch from an address sends a SYN frame if and only if the card takes it, and only a packet can end the fetch there |
| `DnsCodec.EncodeDnsQname` | kernel/src/net.rs:2240-2270 | encodes exactly the names of at most 200 bytes whose labels have 1 to 63 bytes and that fit, as their length-prefixed labels |
| `DnsCodec.NameReadsBack` | kernel/src/net.rs:1984-2002 | in any message, the labels of an encoded name joined with dots are the host name, and skipping it lands exactly behind it |
| `DnsCodec.SkipDnsName` | kernel/src/net.rs:1984-2002 | the loop computes where the name ends |
| `DnsCodec.OverName` | kernel/src/net.rs:1984-2002 | any name, compressed or not, is skipped exactly |
| `DnsCodec.ParseDnsA` | kernel/src/net.rs:1947-1982 | the loops compute the first address record behind the questions |
| `DnsCodec.ReplyReadsBack` | kernel/src/net.rs:1947-1982 | a well-formed reply with our id yields its first four-byte address record, whatever names and records it mixes; another id yields nothing |
| `Crc32.UpdateConcat` | kernel/src/gpt_boot_patch.rs:17-29 | the CRC of a concatenation can be computed part by part |
| `Crc32.Crc32Update` | kernel/src/gpt_boot_patch.rs:17-29 | the bit loop computes the register after the data |
| `CrcPolynomial.CrcIsChecksum` | kernel/src/gpt_boot_patch.rs:17-33 | for every block: the complement of the bit-reversed remainder over GF(2) of the block times x^32, its first 32 coefficients complemented, by the generator of CRC-32 |
| `CrcResidue.Residue` | kernel/src/gpt_boot_patch.rs:17-33 | a block followed by its own checksum leaves 0xDEBB20E3 in the register |
| `GptPatch.StoredAt` | kernel/src/gpt_boot_patch.rs:63-74 | byte i of the partition array is byte i % 512 of its sector i / 512 |
| `GptPatch.HeaderReads` | kernel/src/gpt_boot_patch.rs:82-110 | header size, first sector of the array, number and size of its entries are read from bytes 12, 72, 80 and 84 |
| `GptPatch.CrcPartitionBytes` | kernel/src/gpt_boot_patch.rs:57-76 | sector by sector, the CRC-32 (as a remainder) of the whole array, also when its length is no multiple of 512 |
| `GptPatch.BootBits` | kernel/src/gpt_boot_patch.rs:14-15 | exactly bits 0 and 2 are set, and a value is left alone if and only if it had both |
| `GptPatch.PatchIsOneByte` | kernel/src/gpt_boot_patch.rs:113-119 | setting the bits changes one byte of the entry's sector |
| `GptPatch.RepairHeader` | kernel/src/gpt_boot_patch.rs:130-149 | gives up if and only if the header is longer than 128 bytes; otherwise both checksums of the header agree with what they cover and nothing else changes |
| `GptPatch.SameArray` | kernel/src/gpt_boot_patch.rs:127-149 | writing the header does not change an array that lies behind it |
| `GptPatch.TryPatchGpt` | kernel/src/gpt_boot_patch.rs:78-150 | true with the array outside sectors 0 and 1 means: already set and nothing written, or bits set, both checksums verify against the disk and no other byte changed; on a disk without failures it is true if and only if the table is patchable and the bits were set or the header has at most 128 bytes, and otherwise only the entry was written |
| `GptPatch.PatchedBits` | kernel/src/gpt_boot_patch.rs:112-119 | after a patch, attribute bits 0 and 2 of the first entry are set, its other bits and bytes are as before |
| `LineBreaker.CheckUtf8Seq` | kernel/src/emoji_glyph.rs:29-46 | a lead byte with all of its continuation bytes |
| `LineBreaker.AsciiKept` | kernel/src/html.rs:883-898 | ASCII text without newlines is kept as it is |
| `Utf8Text.LeadBytes` | kernel/src/emoji_glyph.rs:19-27 | the lead bytes and their lengths are those of the characters of RFC 3629 |
| `Utf8Text.OtherBytes` | kernel/src/emoji_glyph.rs:29-46 | the continuation bytes are their other bytes |
| `Utf8Text.TextTokens` | kernel/src/html.rs:876-927 | any text in UTF-8 is taken apart into its characters |
| `Utf8Text.Utf8Kept` | kernel/src/html.rs:876-927 | it is kept whole, but for its newlines |
| `Utf8Text.OtherwiseQuestion` | kernel/src/html.rs:900-922 | a byte above 127 that starts no character becomes a question mark |
| `LineBreaker.WrapConserves` | kernel/src/html.rs:876-927 | all lines together are the sanitised text |
| `LineBreaker.NoneSplit` | kernel/src/html.rs:788-826 | every line is a run of whole characters, none of which is split between lines |
| `LineBreaker.GroupsAreTheText` | kernel/src/html.rs:788-826 | these runs are all the characters of the text, in order |
| `LineBreaker.NewlinesSeparate` | kernel/src/html.rs:883-890 | what stands before and behind a newline is wrapped on its own |
| `LineBreaker.LinesAreFull` | kernel/src/html.rs:788-826 | without a newline a line ends only where the next character does not fit |
| `LineBreaker.ShownText` | kernel/src/html.rs:712-927 | the shown lines are a prefix of the sanitised text, proper if and only if lines are missing, each of 1 to 96 bytes |
| `LineBreaker.LineBuffer.EmitChar` | kernel/src/html.rs:746-766 | a byte goes on the line or starts the next one |
| `LineBreaker.LineBuffer.EmitSliceCap` | kernel/src/html.rs:788-826 | a multi-byte character goes on the line whole or starts the next one |
| `LineBreaker.LineBuffer.PlainLines` | kernel/src/html.rs:876-927 | the first 128 lines of the greedily wrapped text, and the truncation flag set if and only if there are more |
| `ScriptVm.DecodeAssembled` | kernel/src/script_runtime.rs:213-246 | an assembled instruction anywhere in the code is decoded as itself |
| `ScriptVm.InterpretersAgree` | kernel/src/script_runtime.rs:83-150 | on assembled code both interpreters have the same result and the same host calls, and reach the step limit at the same place |
| `ScriptVm.SameProgram` | kernel/src/script_runtime.rs:83-150 | the same for whole programs, which end properly when they have no more instructions than steps |
| `ScriptVm.FixedIsUnbounded` | kernel/src/script_runtime.rs:191-204 | while it is never full, the 64-entry stack behaves like an unbounded one |
| `ScriptVm.EmptyIsZeros` | kernel/src/script_runtime.rs:198-204 | an unbounded stack behaves as if zeros without end lay beneath it |
| `ScriptVm.Vm.ExecOne` | kernel/src/script_runtime.rs:152-189 | one instruction on the stack array is that instruction on the live values |
| `ScriptVm.Vm.Run` | kernel/src/script_runtime.rs:83-130 | the instruction interpreter, with its own spelling of the instructions, runs them like the other one; it returns zero when it runs out of steps |
| `ScriptVm.Vm.RunBytes` | kernel/src/script_runtime.rs:132-150 | the byte interpreter, which reports running out of steps |
| `ScriptExpressions.BinaryResult` | kernel/src/script_runtime.rs:95-103 | sums, differences and products are right modulo 2^32; quotients are rounded towards zero with the remainder of the dividend's sign, and zero for a zero divisor |
| `ScriptExpressions.ExpressionComputes` | kernel/src/script_runtime.rs:83-204 | the code of any expression of arithmetic and host calls leaves its value on any stack with room and makes its calls in order, arguments from left to right |
| `ScriptExpressions.ProgramReturns` | kernel/src/script_runtime.rs:83-204 | a program that returns an expression ends with its value, if it needs at most 64 stack entries and fits the step limit |
| `ScriptExpressions.ExampleCode` | kernel/src/script_runtime.rs:132-246 | one program byte by byte |
| `ScriptVm.FindCi` | kernel/src/script_runtime.rs:257-270 | the first place where the needle stands, in either case |
| `ScriptVm.RunPageEveScript` | kernel/src/script_runtime.rs:287-316 | the run of the hex pairs behind the first marker of a page |
| `ScriptVm.PageNeverOutOfSteps` | kernel/src/script_runtime.rs:287-316 | a page program never ends in the step limit |
| `ScriptVm.PageRunsProgram` | kernel/src/script_runtime.rs:282-316 | a page whose first marker, in either case, is followed by blanks and the hex text of an assembled program, in either case, runs that program, whatever else it holds |
| `ScriptVm.PageWithoutCode` | kernel/src/script_runtime.rs:287-316 | a page without a marker has no script, and a first marker without code behind it is an error |
| `TextDom.DomTree.PushTextNode` | kernel/src/dom.rs:110-135 | the sibling walk terminates and the node is appended to a chain 1, 2, ..., count - 1 whose text spans are consecutive |
| `TextDom.DomTree.BuildTextDom` | kernel/src/dom.rs:81-108 | the nodes' texts are the first 511 non-empty lines of what the arena holds of the filtered input, in order |
| `TextDom.RootWalk` | kernel/src/dom.rs:125-134 | the root's child chain visits every other node once, in order |
| `TextDom.NothingLost` | kernel/src/dom.rs:81-108 | while neither capacity is reached the texts are exactly the non-empty lines of the filtered input |
| `TextDom.LinesBetween` | kernel/src/dom.rs:95-106 | the lines are what stands between line feeds, without the empty ones |
| `TextDom.FilterDrops` | kernel/src/dom.rs:90-94 | exactly '<' and carriage returns are dropped |
| `TextDom.KeptFirst` | kernel/src/dom.rs:99-103 | characters are kept while the arena has room |
| `Url.ParseIpv4Host` | kernel/src/url.rs:69-88 | an address if and only if the parts between the dots are four numbers of at most three digits and at most 255 |
| `Url.FormatIpv4` | kernel/src/gfx.rs:1723-1751 | the dotted form, for which the 16-byte buffer is always long enough |
| `UrlLanguage.PrintedNumber` | kernel/src/gfx.rs:1723-1751 | printed numbers write the number without leading zeros |
| `UrlLanguage.QuadLanguage` | kernel/src/url.rs:51-88 | a host is an address if and only if it is four numbers of one to three digits, at most 255, between dots |
| `Url.QuadReadsBack` | kernel/src/url.rs:51-88 | reading a printed address gives the address back |
| `Url.Trim` | kernel/src/url.rs:91-101 | blanks are taken off both ends |
| `Url.FinishParse` | kernel/src/url.rs:183-259 | header, path and address of the result; none if host, header or path are too long |
| `Url.ParseHostPortPath` | kernel/src/url.rs:103-160 | host, port and path as taken apart at the first colon, slash, question mark or hash |
| `Url.ParseFetchUrl` | kernel/src/url.rs:163-170 | the parse of a trimmed URL under either scheme |
| `UrlLanguage.UrlMeans` | kernel/src/url.rs:20-259 | a text of scheme, host, optional port and tail between blanks is accepted with a result if and only if that is what the parts mean: ports 443 and 80 by default, Host header, path, address, all limits |
| `UrlLanguage.UrlParts` | kernel/src/url.rs:20-259 | every accepted text is made of such parts |
| `Url.HostPortPathAccepted` | kernel/src/url.rs:103-259 | what parsing guarantees of host, port, header and path |
| `Url.PartsReadBack` | kernel/src/url.rs:103-259 | Host header and path, written one behind the other, are taken apart where they were joined |
| `Url.NormalForm` | kernel/src/url.rs:163-259 | an accepted URL, written back as scheme, Host header and path, parses to the same result |

## Left out

- Qcow2Image.WriteQcow2Content: takes disk sizes up to 2^53 bytes, below which the source's floating-point ceilings are exact; the branches for an external data file, which `main` never takes, are not modelled.
- Python's file handling, command line and the qemu-storage-daemon wrapper; `lseek` is a data map over sectors, `pread` a slice of the file.
- What the painting routines draw. They are arbitrary changes of the buffer; RenderRun asks that the first routine of a full repaint overwrites the colour of every visible pixel (which `FillsFirst` proves of those that start with a fill), and DirtyParts that no routine looks at the screen (which `StrokesDrawn` proves of those made of pixels and fills).
- Compositor.RenderFrame: the clamping of the browser's scroll position before painting is not modelled, because only the painters read it.
- Screens with more than six bytes per pixel, and pointers closer than nine pixels to the ends of the 32-bit range; the arithmetic of `cursor_clip_rect` would overflow there.
- HttpReceive.HttpReceiver.IngestTcpPayload: what a header says (chunked, content length, content encoding) is a function of the header bytes that is given; the header field parsers are not modelled.
- HttpSegments.SegmentationDoesNotMatter: takes headers that a CRLF blank line ends and that hold no bare one, or that a bare one ends with no CRLF one in what can arrive with it. In any other header the place where it ends depends on the cutting, and so does its meaning; `EveryCutting` and `LfCutting` say where it ends.
- Decompression of a finished body. A fetch finishes as an event on the page as it is at that moment.
- The order and retransmission of TCP segments: the receive path does not look at sequence numbers, so the model starts from delivered payloads.
- The TLS handshake, certificates and records: library code.
- NetDrive.Stack.Drive: plain HTTP only, and of the frames that `drive` sends only the SYN frames are counted; the retransmission of ARP, DHCP and DNS requests changes no state that the proofs read.
- NetDrive.Stack.FetchRun: starts on a stack that is online (an address, a gateway that answered); before that, `drive` returns before it looks at the fetch.
- NetDrive.Stack.DhcpRun: takes runs on which the 32-bit clock does not wrap, because a phase that starts at tick zero would restart its clock.
- NetDrive.Stack.HandleRx: addresses, ports and checks of incoming frames are not modelled; a packet that a handler would ignore for them is no packet.
- The pseudo-random transaction numbers of requests, which are parameters. Frame buffers are at most 65,535 bytes long (the kernel's have 2,048).
- try_patch_mbr and the choice between the two patchers: a few fixed bytes.
- GptPatch.TryPatchGpt: says nothing about a partition array in sectors 0 or 1, which the header would overwrite.
- A failed disk write is taken to change nothing.
- `set_step_limit` of the script VM, which nothing in the kernel calls; the limit is a field, and the contracts hold for any.
- The tag and style handling of `format_document`: it has no meaning-preservation to prove, because a closed style body is never copied into the buffer that is parsed (kernel/src/html.rs:1099-1120).
- Style hints of DOM nodes, which are constant.
- URL history, settings, themes, key maps, click geometry, the log ring, the keyboard queue and all drivers: routine, or volatile hardware access.
