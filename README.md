# GIF playback engine and flash-dump chunk reorderer, modelled in Dafny

This project models two parts of the Hellocubic Lite open firmware.

**The GIF playback engine** (`src/display/Gif.cpp`, with the fields of
`include/display/Gif.h`):

- `FileShim.dfy` covers the file-stream callbacks the decoder calls:
  - the path normalisation of `gifOpenFile`;
  - `gifReadFile`, which caps a read at what is left of the file;
  - `gifSeekFile`, which clamps a seek into `[0, iSize - 1]`.
  - `GifFile` is the decoder's GIFFILE record: `iPos` is updated in place.
- `Compositor.dfy` states the scanline callback `gifDraw` as functions on values. `Draw` takes the compositor's memory, one decoded row and the screen, and gives the new memory and the display operations issued. The lemmas cover:
  - the centering offset, which is computed once;
  - vertical and horizontal clipping into the 240-entry line buffer;
  - the erase decision, driven by disposal method 2 ("restore to background colour", section 23 of the GIF89a specification) or by previous transparency;
  - the union window;
  - the split of a transparent row into maximal runs;
  - the end-of-frame copy of the current frame record into the previous one.
- `Player.dfy` holds the engine itself, the class `Gif`:
  - `PlayOne`, `Update`, `Stop`, `IsPlaying` and `SetLoopEnabled` step its fields. They are proved against the functions `PlayOneOutcome`, `Tick` and `UpdateMemory`.
  - When `Update` reaches `playFrame`, the decoder calls `gifDraw` once per scanline of the frame. The model passes those scanlines in with the tick's other inputs, and `Update` runs `GifDraw` on each of them through `DrawFrame`.
  - `GifDraw` fills the line buffer array in place with the source's loops. It is proved to issue exactly the operations `Compositor.Draw` specifies and to leave the memory `Draw` specifies.
  - The display is a class `Display` holding a log of `StartWrite`, `EndWrite` and `WritePixels(x, y, pixels)` operations.
- `Ints.dfy` holds the C++ integer types and the conversions the code relies on:
  - truncation to `int16_t`;
  - division by 2 truncated toward zero;
  - wrapping `uint32_t` subtraction.

**The flash-dump repair script** (`backup/fix_backup_order.py`), in `BackupOrder.dfy`. A 4 MB dump was taken as 16 chunk files and joined with `cat part_*.bin`. The glob lists them in lexicographic order, so `part_10.bin` comes before `part_2.bin`. The model covers:

- the layout constants;
- the name order, proved to be `[0,1,10,11,12,13,14,15,2,3,4,5,6,7,8,9]`;
- `invert_order`, a loop over an array;
- the size check and the chunk-copy loop of `main`, over an array;
- the round trip from image to dump and back.

The Dafny fields of `Gif` are grouped:

- `session` holds the presence of the decoder, the four flags, the path and the pacing state.
- `memory` holds what `gifDraw` keeps from row to row: `m_inFrameWrite`, the centering offset, and the `m_cur*`/`m_prev*` records.
- `lineBuf` is the array `m_lineBuf`.

Each group is a datatype, so a method's postcondition can state the whole new state.

The model follows the code in these places, where a reader might expect otherwise:

- `playOne` does not refuse to start while a session is already playing. `PlayOneOutcome`'s success condition does not mention `playing`.
- The loop-reopen path of `update` does not reset the centering offset. The frame decoded before the reopen goes through `gifDraw` as usual, and that keeps an offset once it is set (`ReopenKeepsCentering`). The offset is recomputed only after `playOne` resets it.
- `playOne` does not clear `m_havePrev` or the previous-frame record. The first frame of a new session can therefore erase under the last frame of the old one.
- `m_delayMsFromGif` is only ever set to 0. The decoder's delay goes to a local variable.

## Model

| member | source | states |
|---|---|---|
| Ints.ToInt16 | src/display/Gif.cpp:206-207 | `static_cast<int16_t>` keeps the value modulo 2^16 and is the identity on values in int16 range |
| Ints.HalfTowardZero | src/display/Gif.cpp:203-204 | C++ `/ 2` truncates toward zero: the remainder has the sign of the dividend |
| Ints.ElapsedU32 | src/display/Gif.cpp:475-477 | `now - since` on uint32 is the wrapped difference; it equals the plain difference when no wrap happened and adds 2^32 otherwise |
| FileShim.NormalizePath | src/display/Gif.cpp:56-60 | the path given to storage always starts with '/'; a path that already does is unchanged, any other gets exactly one '/' prepended |
| FileShim.NormalizePathIdempotent | src/display/Gif.cpp:56-60 | normalising twice is normalising once |
| FileShim.ReadRequest | src/display/Gif.cpp:115-120 | the request is capped at `iSize - iPos`: it is at most both, and equal to one of them |
| FileShim.SeekTarget | src/display/Gif.cpp:149-154 | the seek position lies in `[0, iSize)` for a non-empty file and is `iSize - 1` (so -1) for an empty one; an in-range request is kept, a negative one becomes 0, one past the end becomes `iSize - 1` |
| FileShim.GifFile.ReadFile | src/display/Gif.cpp:108-133 | a closed handle or a cap of at most 0 returns 0 and leaves `iPos`; otherwise it returns the count storage delivered; `iPos` grows by exactly the count returned and never passes `iSize` |
| FileShim.GifFile.SeekFile | src/display/Gif.cpp:142-160 | a closed handle returns 0 and leaves `iPos`; otherwise `iPos` becomes the clamped target, which is returned |
| Compositor.CenterOffset | src/display/Gif.cpp:196-209 | when no int16 truncation occurs, the offset moves the frame origin to `((screenW - frameW) / 2, (screenH - frameH) / 2)` |
| Compositor.Geometry | src/display/Gif.cpp:227-242 | the row lands at `(iX + offsetX, iY + y + offsetY)`, the frame origin moved by the centering offset; `drawW` is `min(iWidth, 240)`, the line buffer's size; the visible span `[visStart, visEnd)` lies inside `[0, drawW]` |
| Compositor.VisibleColumn | src/display/Gif.cpp:233-242 | an index is in the visible span iff it is inside the line buffer's width and its screen column is on screen |
| Compositor.NonPositiveWidthSkipped | src/display/Gif.cpp:231-246 | a row of width at most 0 always takes an early return |
| Compositor.SkippedRowWritesNothing | src/display/Gif.cpp:223-246 | a row off screen vertically or with an empty visible span writes no pixels and issues no `EndWrite`; even on the last row `havePrev` and the previous record are untouched |
| Compositor.VisibleRowIsDrawn | src/display/Gif.cpp:252-315 | past the early returns the `skipDraw` conditions are all false, the visible span is on screen and the union window contains it, so the background-only branch is unreachable |
| Compositor.LandsOnVisibleSpan | src/display/Gif.cpp:322-356 | inside the window a row pixel lands exactly on the visible span's non-transparent columns |
| Compositor.EraseFillsUnion | src/display/Gif.cpp:263-360 | with an erase pending the row is one write over the hull of the visible span and the previous frame's columns, clamped to `[0, screenW)`; each cell is the row's palette colour where a visible non-transparent pixel falls and the previous background elsewhere |
| Compositor.OpaqueRowWritesVisibleSpan | src/display/Gif.cpp:317-335 | a frame without transparency and nothing to erase writes its visible span once, at its first column, in palette colours |
| Compositor.TransparentRowWritesRuns | src/display/Gif.cpp:361-389 | a transparent frame with nothing to erase writes what the run scan of its visible span writes, at column `xPos + visStart` |
| Compositor.RunEnd | src/display/Gif.cpp:377-381 | the inner loop stops at the first transparent index at or after the start, or at the end of the span |
| Compositor.ScanWrites | src/display/Gif.cpp:366-389 | the scan issues only pixel writes, all on the row's screen line |
| Compositor.RunsAreMaximal | src/display/Gif.cpp:366-389 | every run found is non-empty, free of transparent indices and bounded by transparent indices or the span's ends; the runs are in increasing order with gaps between them |
| Compositor.RunsCover | src/display/Gif.cpp:366-389 | every non-transparent index lies in one of the runs |
| Compositor.RunsCount | src/display/Gif.cpp:366-389 | the run lengths add up to the number of non-transparent indices |
| Compositor.ScanWritesAreRunWrites | src/display/Gif.cpp:366-389 | the scan issues one write per maximal run, in order |
| Compositor.ScanWritesMaximalRuns | src/display/Gif.cpp:361-389 | the writes are exactly the maximal runs, left to right, non-overlapping, each at `base + runStart` with the run's palette colours |
| Compositor.ScanWritesPixels | src/display/Gif.cpp:361-389 | the number of pixels written is the number of non-transparent visible indices |
| Compositor.ExampleRuns | src/display/Gif.cpp:366-389 | the runs of `[T,T,5,6,T,7]` are indices 2-3 and index 5 |
| Compositor.TransparentRowExample | src/display/Gif.cpp:361-389 | the row `[T,T,5,6,T,7]` at column 0 is written as two pixels at column 2 and one at column 5 |
| Compositor.Draw | src/display/Gif.cpp:169-413 | a row keeps the invariant that every recorded frame background is `LCD_BLACK`, and every pixel write it issues lies on the screen; when the display is ready, row 0 issues `StartWrite` first; `StartWrite` appears only there, `EndWrite` only as the last operation of a frame's last row, and a display that is not ready gets nothing |
| Compositor.ScanPaints | src/display/Gif.cpp:361-389 | the run scan puts every non-transparent index `j` at column `base + j` in its palette colour |
| Compositor.RowPaintsVisible | src/display/Gif.cpp:248-394 | a drawn row puts each visible non-transparent index `i` at column `xPos + i` of its line in its palette colour, in the union window and in the run scan alike |
| Compositor.DrawnRowOps | src/display/Gif.cpp:181-411 | a drawn row issues `StartWrite` on row 0, then its writes, then `EndWrite` after the last row when batch mode is open |
| Compositor.DrawPaintsVisible | src/display/Gif.cpp:169-413 | a callback puts each visible non-transparent index `i` at column `iX + offsetX + i` of line `iY + y + offsetY`, with the offset in force after row 0's bookkeeping |
| Compositor.CenteredRowLands | src/display/Gif.cpp:196-242 | once the offset is set, a visible non-transparent index `i` of row `y` lands at column `iX + offsetX + i` of line `iY + y + offsetY` |
| Compositor.FirstRowDrawnCentred | src/display/Gif.cpp:196-242 | without `int16_t` wrap, the first frame's row 0 lands centred: index `i` at column `(width - iWidth) / 2 + i` of line `(height - iHeight) / 2` |
| Compositor.FrameTailRecords | src/display/Gif.cpp:396-411 | the rows after row 0 leave the memory until the drawn last row, which turns the current record into the previous one |
| Compositor.FrameRecordsFootprint | src/display/Gif.cpp:210-217 | after a whole frame whose last row is drawn, the previous-frame record is the frame's footprint: the origin every row was drawn at and the frame's size, narrowed to `int16_t` |
| Compositor.LastRowRecordsFrame | src/display/Gif.cpp:396-411 | a drawn last row sets `havePrev`, copies the current record into the previous one and closes batch-write mode; it issues `EndWrite` iff the mode was open |
| Compositor.OtherRowsKeepPrevious | src/display/Gif.cpp:396-412 | a row that is not the last leaves `havePrev` and the previous record |
| Compositor.CenteringPersists | src/display/Gif.cpp:196-209 | once set, the centering offset is unchanged by any later rows and frames |
| Compositor.FirstRowCenters | src/display/Gif.cpp:196-209 | the first row 0 seen while uncentered fixes the offset at `CenterOffset`, and it stays in force |
| Compositor.BeginRow | src/display/Gif.cpp:181-218 | rows other than row 0 change nothing; row 0 opens batch-write mode, marks the offset as set, keeps an offset already set or takes `CenterOffset` otherwise, and records the frame with background `LCD_BLACK`, its disposal, its transparency and its rectangle: origin `iX + offsetX`, `iY + offsetY` and size `iWidth` by `iHeight`, each narrowed to `int16_t`; the previous record is untouched |
| Compositor.UnionStart | src/display/Gif.cpp:263-302 | the window starts at 0 or later, no later than the visible span's first column, and no later than the previous frame's first column when `NeedsErase` holds (the erase decision of lines 263-279: a previous frame asked for restore-to-background or had transparency, and covered this line); it is one of 0, the span's start or the previous frame's start |
| Compositor.UnionEnd | src/display/Gif.cpp:263-302 | the window ends at the screen width or earlier, no earlier than the visible span's end, and no earlier than the previous frame's end when `NeedsErase` holds; it is one of the screen width, the span's end or the previous frame's end |
| Compositor.ScanWritesInSpan | src/display/Gif.cpp:361-389 | every write of the run scan lies inside the visible span's columns |
| Compositor.RowWrites | src/display/Gif.cpp:248-394 | every write of a drawn row is a pixel write on the row's screen line and lies on the screen, so its address and length survive the `int16_t` and `uint16_t` casts of `writeAddrWindow` at lines 312, 333, 358 and 385 |
| Compositor.EndFrame | src/display/Gif.cpp:396-411 | after a frame's last row batch-write mode is closed and the current record becomes the previous one; the centering is kept |
| Compositor.DrawAll | src/display/Gif.cpp:169-413 | a frame's scanline callbacks in order keep every recorded background `LCD_BLACK` and write only on the screen |
| Compositor.NoCenteringOffRowZero | src/display/Gif.cpp:196-209 | a row other than row 0, or one arriving while the display is not ready, leaves the centering state alone |
| Player.FrameTarget | src/display/Gif.cpp:513-518 | the next interval is `max(33, delay)`: at least the 33 ms floor and the delay, and equal to one of them |
| Player.Tick | src/display/Gif.cpp:462-527 | `update` is a no-op when not playing, preserves the pacing invariant, and never changes the loop flag, the path or the decoder; only a loop reopen moves the start time, and the stored delay is kept or reset to 0 |
| Player.Start | src/display/Gif.cpp:443-452 | a started session is playing and requested, has no stop pending, plays the given path, has frame count 0, no target interval and stored delay 0, takes its last-frame time from the first clock reading and its start time from the second, and keeps the loop flag and the decoder |
| Player.PlayOneOutcome | src/display/Gif.cpp:422-455 | `playOne` succeeds iff the display is ready, a decoder exists or is allocated, and the file opens, whatever the current playing state; on success the new session plays the path from frame 0; on failure `playing` and the path are unchanged; once past the decoder check the centering is reset, and the previous-frame record is never touched |
| Player.StopHonouredOnNextTick | src/display/Gif.cpp:467-473 | a pending stop ends a playing session on the next `update`, clears the flag, and decodes nothing |
| Player.StopIsDeferred | src/display/Gif.cpp:467-473 | after the stop flag is raised the next `update` ends the session without decoding, so the compositor's memory is left alone |
| Player.PacerWaits | src/display/Gif.cpp:475-480 | while the target is set and the wrapped elapsed time is below it, `update` changes nothing |
| Player.FrameDecoded | src/display/Gif.cpp:482-526 | after a decoded frame the target is `max(33, delay)`, the frame count grows by one, and the session keeps playing iff at most 20 000 ms have passed since it started; the start time, stored delay, decoder, loop flag and path are kept and no stop is pending |
| Player.EndOfStream | src/display/Gif.cpp:487-511 | at end of stream the session continues iff looping is enabled, the path is non-empty and the reopen succeeds; a reopened session has frame count 0, no target and fresh clock readings |
| Player.UpdateMemory | src/display/Gif.cpp:462-483 | an `update` that stops, waits for the pacer or is not playing leaves the compositor's memory; every `update` keeps the recorded backgrounds `LCD_BLACK` |
| Player.ReopenKeepsCentering | src/display/Gif.cpp:483-503 | when the end of the stream reopens the file the session plays again from frame 0, and a centering offset already set survives the `update` |
| Player.FirstFrameCenters | src/display/Gif.cpp:196-209 | the first frame decoded while uncentered fixes the offset at `CenterOffset` of its first row |
| Player.StartTimeKept | src/display/Gif.cpp:462-527 | `update` calls without a reopen never move the start time |
| Player.CeilingEndsSession | src/display/Gif.cpp:443-527 | a session started at clock reading `t2` ends at the first decoded frame whose check reading is more than 20 000 ms after `t2`, whatever frames came before |
| Player.IdleIsAbsorbing | src/display/Gif.cpp:462-465 | once playback has ended, no number of `update` calls restarts it |
| Player.TicksPreserveInv | src/display/Gif.cpp:462-527 | the pacing invariant holds across any sequence of `update` calls |
| Player.Gif.constructor | src/display/Gif.cpp:14-16 | a fresh engine has no decoder and is not playing, stopping, looping, centered or inside a frame |
| Player.Gif.PlayOne | src/display/Gif.cpp:422-455 | the method's new session and memory and its result are those of `PlayOneOutcome` |
| Player.Gif.Update | src/display/Gif.cpp:462-527 | the new session is `Tick` of the old one; when `update` reaches `playFrame` the frame's scanlines go through `gifDraw` in order, so the memory and the display log are those of `DrawAll`; on every other path the memory and the display log are unchanged |
| Player.Gif.DrawFrame | src/display/Gif.cpp:483 | the decoder's scanline callbacks for one frame leave exactly `DrawAll`'s memory and append exactly its operations; the session is untouched |
| Player.Gif.DrawNext | src/display/Gif.cpp:169-413 | one scanline callback leaves what `DrawAll` still has to do from the next row |
| Player.Gif.Stop | src/display/Gif.cpp:598 | only the stop flag is raised |
| Player.Gif.IsPlaying | src/display/Gif.cpp:605 | returns the playing flag |
| Player.Gif.SetLoopEnabled | src/display/Gif.cpp:612 | only the loop flag is set |
| Player.Gif.GifDraw | src/display/Gif.cpp:169-413 | the callback appends exactly `Compositor.Draw`'s operations to the display log and leaves exactly `Draw`'s memory; the playback session is untouched |
| Player.Gif.StartRow | src/display/Gif.cpp:181-218 | row 0 opens batch-write mode, computes the offset only if none is set, and records the current frame with background `LCD_BLACK`; other rows change nothing |
| Player.Gif.DrawRow | src/display/Gif.cpp:220-246 | at the position `Geometry` gives, the row is drawn iff it is not skipped; a skipped row writes nothing, a drawn one writes `RowWrites` |
| Player.Gif.WriteRow | src/display/Gif.cpp:248-394 | a row with a visible span writes exactly `RowWrites`: the union window or the runs |
| Player.Gif.ComposeWindow | src/display/Gif.cpp:316-360 | the two fill loops leave the union window's cells in the line buffer, written once |
| Player.Gif.WriteRuns | src/display/Gif.cpp:361-389 | the nested loops issue exactly the run scan's writes |
| Player.Gif.SkipTransparent | src/display/Gif.cpp:367-369 | the skip loop stops at a non-transparent index or the end and skips no write |
| Player.Gif.CopyRun | src/display/Gif.cpp:375-381 | the copy loop ends at the run's end and leaves the run's palette colours at the start of the line buffer |
| Player.Gif.FinishRow | src/display/Gif.cpp:396-412 | on the last row batch-write mode is closed if it was open and the current record becomes the previous one; other rows change nothing |
| BackupOrder.Layout.ChunkCount | backup/fix_backup_order.py:40-41 | the chunk count is the number of whole chunks that fit in the flash: `count * chunk_size <= flash_size < (count + 1) * chunk_size` |
| BackupOrder.LayoutConsistent | backup/fix_backup_order.py:34-41 | `chunk_count()` is `flash_size // chunk_size`, which is 16, the declared number of chunks; the chunks tile the flash exactly |
| BackupOrder.Decimal | backup/fix_backup_order.py:45 | `str(i)` is a non-empty run of decimal digits, one digit exactly for `i < 10` |
| BackupOrder.DecimalInjective | backup/fix_backup_order.py:45 | distinct numbers have distinct decimal forms |
| BackupOrder.KeyInjective | backup/fix_backup_order.py:45 | distinct chunks have distinct file names |
| BackupOrder.LexTransitive | backup/fix_backup_order.py:45 | Python's string order is transitive |
| BackupOrder.LexTotal | backup/fix_backup_order.py:45 | Python's string order is total |
| BackupOrder.InsertByKey | backup/fix_backup_order.py:45 | inserting adds exactly the one element |
| BackupOrder.SortByKey | backup/fix_backup_order.py:45 | sorting keeps the elements, with multiplicity |
| BackupOrder.SortIsSorted | backup/fix_backup_order.py:45 | sorting distinct chunks orders them strictly by file name |
| BackupOrder.LexicographicCatOrder | backup/fix_backup_order.py:44-45 | the result is a rearrangement of `range(chunks)`, strictly ordered by file name |
| BackupOrder.SortedUnique | backup/fix_backup_order.py:44-45 | only one arrangement of a set of chunks is ordered by file name, so the sorted order is determined |
| BackupOrder.CatOrderIsPermutation | backup/fix_backup_order.py:44-45 | the glob order lists every chunk `0 .. chunks-1` exactly once |
| BackupOrder.CatOrderOf16 | backup/fix_backup_order.py:44-45 | for 16 chunks the order is `[0,1,10,11,12,13,14,15,2,3,4,5,6,7,8,9]` |
| BackupOrder.LastIndex | backup/fix_backup_order.py:49-51 | after the first k writes a slot holds the last position naming it, or its initial 0 if none did |
| BackupOrder.InvertOrder | backup/fix_backup_order.py:48-52 | returns a list iff every entry is an index Python accepts (negative ones counting from the end), and that list is `Inverse(order)` |
| BackupOrder.InverseOfPermutation | backup/fix_backup_order.py:48-52 | for a permutation the result is a permutation with `pos[order[p]] == p` and `order[pos[c]] == c` |
| BackupOrder.InverseFindsPosition | backup/fix_backup_order.py:48-52 | the position holding a chunk is the one recorded for it |
| BackupOrder.InverseInvolutive | backup/fix_backup_order.py:48-52 | inverting twice gives the order back |
| BackupOrder.CatOrder | backup/fix_backup_order.py:66 | the glob order of the dump's chunk files is a permutation of the 16 chunks |
| BackupOrder.GlobOrder | backup/fix_backup_order.py:66 | `lexicographic_cat_order(16)` is that order |
| BackupOrder.Rearranged | backup/fix_backup_order.py:69-74 | rearranging chunks keeps the image size |
| BackupOrder.RearrangedAt | backup/fix_backup_order.py:71-74 | byte k of output chunk c is byte k of input chunk `from[c]` |
| BackupOrder.RearrangedChunk | backup/fix_backup_order.py:71-74 | output chunk c is input chunk `from[c]`, as slices |
| BackupOrder.RearrangeUndone | backup/fix_backup_order.py:66-74 | rearranging by an order and then by a map that finds each chunk's position in it gives the data back |
| BackupOrder.RearrangeInverse | backup/fix_backup_order.py:66-74 | rearranging by an order and by its inverse undo each other, in both directions |
| BackupOrder.RepairOrder | backup/fix_backup_order.py:66-67 | the inverted glob order is a permutation of the 16 chunks |
| BackupOrder.Repaired | backup/fix_backup_order.py:69-74 | the repaired image has the flash size |
| BackupOrder.RepairRoundTrip | backup/fix_backup_order.py:6-14 | the dump `cat part_*.bin` made of an image repairs to that image, and every dump of the right size is the dump of its own repair |
| BackupOrder.GlobOrderOf | backup/fix_backup_order.py:66 | `main`'s call yields the glob order |
| BackupOrder.ChunkPositions | backup/fix_backup_order.py:66-67 | `main`'s `pos_of_chunk` is the inverse of the glob order |
| BackupOrder.RestoreChunk | backup/fix_backup_order.py:71-74 | one slice assignment fills output chunk c from dump chunk `pos_of_chunk[c]` and writes no byte outside that chunk |
| BackupOrder.Reassemble | backup/fix_backup_order.py:62-74 | a dump of the wrong size is rejected with its length and no image; a dump of the right size yields exactly the repaired image |

## Left out

- Storage: LittleFS open, read, seek and close, `File` allocation, and `gifCloseFile` are not modelled. `ReadFile` takes the count storage delivers as a parameter. The open failure of `gifOpenFile` is the `openOk` parameter of `PlayOne`.
- The `AnimatedGIF` decoder is not modelled: no LZW decoding and no GIF parsing. The results of `open`, `playFrame` and `close` and the frame delay are parameters. So are the `millis()` readings.
- `begin()`, the destructor and the `s_instance` singleton are not modelled. There is a single engine that always exists. The model's `Display.ready` stands for both `DisplayManager::isReady()` and a non-null `getGfx()`.
- `playAllFromLittleFS` is not modelled: it is directory enumeration, a `yield()` busy loop and filesystem mounting.
- The hardware calls are not modelled; they become an operation log. Each `writeAddrWindow`/`writePixels` pair is one `WritePixels` operation.
- The `volatile` semantics of the stop and loop flags are not modelled; they are cross-context concurrency, and the model keeps them as plain fields.
- Player.Tick: `m_frameCount` is an unbounded integer, so the signed overflow of `m_frameCount++` after 2^31 frames is not modelled.
- Player.Gif.Update: the scanlines the decoder hands to `gifDraw` during `playFrame` are an input of the tick, not decoded from the file. They are drawn whatever `playFrame` then returns. Like `GifDraw`, it requires a screen at most 240 columns wide.
- Player.Gif.GifDraw: requires a screen at most 240 columns wide, the size of the line buffer. On a wider screen the erase window can be longer than the buffer, and the fill loops at `Gif.cpp:308-340` would write past its end.
- Compositor.Draw: the row's palette is a 256-entry sequence and the row holds at least `iWidth` indices. The decoder guarantees both, and the model does not check them.
- The Python script's argparse handling, file reading and writing, `mkdir` and the mapping printout are not modelled. The message text of the size check's `SystemExit` is reduced to the length it reports.
- BackupOrder.InvertOrder: entries that are not integers are not modelled. Out-of-range entries are modelled: they end the function, standing in for `IndexError`.
- BackupOrder.Reassemble: fixed to the script's default layout of 16 chunks of 0x40000 bytes, as `main` uses it. Other layouts are reached only through `LayoutConsistent`.
