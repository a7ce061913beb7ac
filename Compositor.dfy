/** The scanline compositor `gifDraw` (src/display/Gif.cpp), stated as
    functions on values: what one decoded row does to the compositor's
    memory and which operations it issues to the display. The imperative
    version, which fills the 240-entry line buffer in place, is
    `Player.Gif.GifDraw`; it is proved to issue exactly `Draw(...).ops`. */
module Compositor {
  import opened Ints

  /** Entries of the line buffer `m_lineBuf`. */
  const LINEBUF_MAX: int := 240
  /** `LCD_BLACK`, the only background colour the compositor records. */
  const LCD_BLACK: uint16 := 0
  /** Disposal method 2 of the Graphic Control Extension, "restore to
      background colour" (section 23 of the GIF89a specification). */
  const RESTORE_TO_BACKGROUND: uint8 := 2

  /** What the display surface receives: batch-write bracketing and one
      addressed write of a row of pixels (`writeAddrWindow` with height 1
      followed by `writePixels`). */
  datatype DisplayOp =
    | StartWrite
    | EndWrite
    | WritePixels(x: int, y: int, pixels: seq<uint16>)

  /** One frame's placement as the compositor remembers it (the `m_cur*`
      and `m_prev*` field groups). */
  datatype FrameRecord = FrameRecord(
    disposal: uint8, hadTransparency: bool,
    x: int16, y: int16, w: int16, h: int16, bg: uint16)

  /** One scanline callback (GIFDRAW): the frame rectangle, the row index
      `y` inside the frame, the row's palette indices and the frame's
      palette, disposal method and transparency. */
  datatype Row = Row(
    iX: int, iY: int, iWidth: int, iHeight: int, y: int,
    pixels: seq<uint8>, palette: seq<uint16>,
    disposal: uint8, hasTransparency: bool, transparent: uint8)
  {
    /** The decoder hands over a 256-entry palette and a row of `iWidth`
        indices. */
    predicate WellFormed() {
      |palette| == 256 && iWidth <= |pixels|
    }

    predicate IsLastRow() {
      y == iHeight - 1
    }

    /** Whether index `i` of the row is drawn at all. */
    predicate Opaque(i: int)
      requires 0 <= i < |pixels|
    {
      !hasTransparency || pixels[i] != transparent
    }
  }

  /** The display as `gifDraw` sees it: its size, as the `int16_t` values
      `width()` and `height()` return, and whether it is ready. */
  datatype Screen = Screen(width: int16, height: int16, ready: bool)

  /** The compositor's memory across calls: the centering offset, the
      batch-write flag, the current frame's record and the previous one. */
  datatype Placement = Placement(
    centered: bool, offsetX: int16, offsetY: int16,
    inFrameWrite: bool,
    cur: FrameRecord,
    havePrev: bool, prev: FrameRecord)
  {
    /** Every record ever stored has background `LCD_BLACK`. */
    predicate BlackBackgrounds() {
      cur.bg == LCD_BLACK && prev.bg == LCD_BLACK
    }
  }

  /** The offset that puts the frame in the middle of the screen, taken
      relative to the frame's own origin and narrowed to `int16_t`. */
  function CenterOffset(scr: Screen, d: Row): (o: (int16, int16))
    ensures -0x8000 <= HalfTowardZero(scr.width - d.iWidth) - d.iX < 0x8000 ==>
              d.iX + o.0 == HalfTowardZero(scr.width - d.iWidth)
    ensures -0x8000 <= HalfTowardZero(scr.height - d.iHeight) - d.iY < 0x8000 ==>
              d.iY + o.1 == HalfTowardZero(scr.height - d.iHeight)
  {
    (ToInt16(HalfTowardZero(scr.width - d.iWidth) - d.iX),
     ToInt16(HalfTowardZero(scr.height - d.iHeight) - d.iY))
  }

  /** What a row does before any clipping: row 0 opens batch-write mode,
      computes the centering offset if none is set yet, and records the
      frame's placement as the current record. */
  function BeginRow(p: Placement, d: Row, scr: Screen): (q: Placement)
    ensures d.y != 0 ==> q == p
    ensures d.y == 0 ==> q.centered && q.inFrameWrite && q.cur.bg == LCD_BLACK
                         && q.cur.disposal == d.disposal && q.cur.hadTransparency == d.hasTransparency
    ensures d.y == 0 && p.centered ==> q.offsetX == p.offsetX && q.offsetY == p.offsetY
    ensures d.y == 0 && !p.centered ==> (q.offsetX, q.offsetY) == CenterOffset(scr, d)
    ensures d.y == 0 ==> q.cur.x == ToInt16(d.iX + q.offsetX) && q.cur.y == ToInt16(d.iY + q.offsetY)
                         && q.cur.w == ToInt16(d.iWidth) && q.cur.h == ToInt16(d.iHeight)
    ensures q.havePrev == p.havePrev && q.prev == p.prev
  {
    if d.y != 0 then p
    else
      var o := if p.centered then (p.offsetX, p.offsetY) else CenterOffset(scr, d);
      p.(centered := true, offsetX := o.0, offsetY := o.1, inFrameWrite := true,
         cur := FrameRecord(d.disposal, d.hasTransparency,
                            ToInt16(d.iX + o.0), ToInt16(d.iY + o.1),
                            ToInt16(d.iWidth), ToInt16(d.iHeight), LCD_BLACK))
  }

  /** Where a row lands on screen and which of its indices are visible:
      `visStart <= i < visEnd` are the visible ones. */
  datatype RowGeometry = RowGeometry(xPos: int, yPos: int, drawW: int, visStart: int, visEnd: int)
  {
    function CurStart(): int { xPos + visStart }
    function CurEnd(): int { xPos + visEnd }
  }

  /** The row lands at the frame's origin moved by the centering offset,
      `y` lines below the frame's top. */
  function Geometry(p: Placement, d: Row, scr: Screen): (g: RowGeometry)
    ensures g.xPos == d.iX + p.offsetX && g.yPos == d.iY + d.y + p.offsetY
    ensures g.drawW <= LINEBUF_MAX && g.drawW <= d.iWidth
    ensures g.drawW == LINEBUF_MAX || g.drawW == d.iWidth
    ensures 0 <= g.visStart && g.visEnd <= g.drawW
  {
    var xPos := d.iX + p.offsetX;
    var drawW := if d.iWidth > LINEBUF_MAX then LINEBUF_MAX else d.iWidth;
    var visStart := if xPos < 0 then -xPos else 0;
    var visEnd := if xPos + drawW > scr.width then scr.width - xPos else drawW;
    RowGeometry(xPos, d.iY + d.y + p.offsetY, drawW, visStart, visEnd)
  }

  /** The visible indices are exactly those inside the line buffer's width
      whose screen column is on screen. */
  lemma VisibleColumn(p: Placement, d: Row, scr: Screen, i: int)
    ensures var g := Geometry(p, d, scr);
      g.visStart <= i < g.visEnd <==> 0 <= i < g.drawW && 0 <= g.xPos + i < scr.width
  {
  }

  /** A row off the screen vertically, or with no visible column, returns
      before drawing and before the end-of-frame bookkeeping. */
  predicate RowSkipped(g: RowGeometry, scr: Screen) {
    g.yPos < 0 || g.yPos >= scr.height || g.visEnd <= g.visStart
  }

  /** The previous frame must be erased under this row: it asked for
      restore-to-background or had transparency, and it covered the row. */
  predicate NeedsErase(p: Placement, yPos: int) {
    p.havePrev
    && (p.prev.disposal == RESTORE_TO_BACKGROUND || p.prev.hadTransparency)
    && p.prev.y <= yPos <= p.prev.y + p.prev.h - 1
  }

  /** The window of the single write: the hull of the visible span and,
      when erasing, the previous frame's columns, clamped to the screen. */
  function UnionStart(p: Placement, g: RowGeometry): (s: int)
    ensures 0 <= s && (s <= g.CurStart() || g.CurStart() < 0)
    ensures NeedsErase(p, g.yPos) ==> s <= p.prev.x || p.prev.x < 0
    ensures s == 0 || s == g.CurStart() || (NeedsErase(p, g.yPos) && s == p.prev.x)
  {
    var s := if NeedsErase(p, g.yPos) && p.prev.x < g.CurStart() then p.prev.x else g.CurStart();
    if s < 0 then 0 else s
  }

  function UnionEnd(p: Placement, g: RowGeometry, scr: Screen): (e: int)
    ensures e <= scr.width && (g.CurEnd() <= e || scr.width < g.CurEnd())
    ensures NeedsErase(p, g.yPos) ==> p.prev.x + p.prev.w <= e || scr.width < p.prev.x + p.prev.w
    ensures e == scr.width || e == g.CurEnd() || (NeedsErase(p, g.yPos) && e == p.prev.x + p.prev.w)
  {
    var e := if NeedsErase(p, g.yPos) && p.prev.x + p.prev.w > g.CurEnd() then p.prev.x + p.prev.w else g.CurEnd();
    if e > scr.width then scr.width else e
  }

  /** Whether screen column `x` receives a pixel of this row: its index is
      inside the line buffer's width and is not transparent. */
  predicate Lands(d: Row, g: RowGeometry, x: int)
    requires d.WellFormed() && g.drawW <= d.iWidth
  {
    0 <= x - g.xPos < g.drawW && d.Opaque(x - g.xPos)
  }

  /** The union window's contents: the row's colour where a pixel lands,
      the previous frame's background everywhere else. */
  function UnionCells(p: Placement, d: Row, g: RowGeometry, start: int, end: int): (cells: seq<uint16>)
    requires d.WellFormed() && g.drawW <= d.iWidth && start <= end
    ensures |cells| == end - start
    ensures forall k :: 0 <= k < end - start ==> cells[k] == UnionCell(p, d, g, start, k)
  {
    var n: nat := end - start;
    seq(n, k requires 0 <= k < n => UnionCell(p, d, g, start, k))
  }

  /** The cell of column `start + k`. */
  function UnionCell(p: Placement, d: Row, g: RowGeometry, start: int, k: int): uint16
    requires d.WellFormed() && g.drawW <= d.iWidth
  {
    var x := start + k;
    if Lands(d, g, x) then d.palette[d.pixels[x - g.xPos]] else p.prev.bg
  }

  /** A run of indices `[start, start + len)` of a segment. */
  datatype Run = Run(start: int, len: int)

  /** A non-empty run of non-transparent indices that cannot be extended to
      the right. */
  predicate IsRun(seg: seq<uint8>, t: uint8, r: Run) {
    0 <= r.start && 0 < r.len && r.start + r.len <= |seg|
    && (forall j :: r.start <= j < r.start + r.len ==> seg[j] != t)
    && (r.start + r.len == |seg| || seg[r.start + r.len] == t)
  }

  /** A run that lies inside the segment. */
  predicate InSeg(seg: seq<uint8>, r: Run) {
    0 <= r.start && 0 <= r.len && r.start + r.len <= |seg|
  }

  /** The first transparent index at or after `i`, or the segment's end. */
  function RunEnd(seg: seq<uint8>, t: uint8, i: int): (e: int)
    requires 0 <= i <= |seg|
    ensures i <= e <= |seg|
    ensures forall j :: i <= j < e ==> seg[j] != t
    ensures e == |seg| || seg[e] == t
    decreases |seg| - i
  {
    if i == |seg| || seg[i] == t then i else RunEnd(seg, t, i + 1)
  }

  /** The maximal runs of non-transparent indices of `seg[i..]`, left to
      right. */
  function RunsFrom(seg: seq<uint8>, t: uint8, i: int): (runs: seq<Run>)
    requires 0 <= i <= |seg|
    ensures forall k :: 0 <= k < |runs| ==> InSeg(seg, runs[k]) && i <= runs[k].start
    decreases |seg| - i
  {
    if i == |seg| then []
    else if seg[i] == t then RunsFrom(seg, t, i + 1)
    else
      var e := RunEnd(seg, t, i);
      [Run(i, e - i)] + RunsFrom(seg, t, e)
  }

  /** Each of the runs is maximal: non-empty, free of transparent indices,
      and bounded by a transparent index or the segment's ends on both
      sides; and they are in order with a gap between neighbours. */
  lemma {:induction false} RunsAreMaximal(seg: seq<uint8>, t: uint8, i: int)
    requires 0 <= i <= |seg|
    ensures forall r | r in RunsFrom(seg, t, i) :: IsRun(seg, t, r) && (r.start == i || seg[r.start - 1] == t)
    ensures forall k, k' | 0 <= k < k' < |RunsFrom(seg, t, i)| ::
      RunsFrom(seg, t, i)[k].start + RunsFrom(seg, t, i)[k].len < RunsFrom(seg, t, i)[k'].start
    decreases |seg| - i
  {
    if i < |seg| {
      RunsAreMaximal(seg, t, i + 1);
      if seg[i] != t {
        var e := RunEnd(seg, t, i);
        RunsAreMaximal(seg, t, e);
        var rest := RunsFrom(seg, t, e);
        var runs := RunsFrom(seg, t, i);
        assert runs == [Run(i, e - i)] + rest;
        forall k | 0 < k < |runs|
          ensures runs[k] == rest[k - 1]
        {
        }
      }
    }
  }

  /** Number of non-transparent indices in `seg[i..]`. */
  function OpaqueCount(seg: seq<uint8>, t: uint8, i: int): (n: nat)
    requires 0 <= i <= |seg|
    ensures n <= |seg| - i
    decreases |seg| - i
  {
    if i == |seg| then 0
    else (if seg[i] == t then 0 else 1) + OpaqueCount(seg, t, i + 1)
  }

  function TotalLength(runs: seq<Run>): int {
    if runs == [] then 0 else runs[0].len + TotalLength(runs[1..])
  }

  predicate RunsCovers(r: Run, j: int) {
    r.start <= j < r.start + r.len
  }

  /** Every non-transparent index of `seg[i..]` lies in one of the runs. */
  lemma {:induction false} RunsCover(seg: seq<uint8>, t: uint8, i: int, j: int)
    requires 0 <= i <= j < |seg| && seg[j] != t
    ensures exists k :: 0 <= k < |RunsFrom(seg, t, i)| && RunsCovers(RunsFrom(seg, t, i)[k], j)
    decreases |seg| - i
  {
    var runs := RunsFrom(seg, t, i);
    if seg[i] == t {
      RunsCover(seg, t, i + 1, j);
    } else {
      var e := RunEnd(seg, t, i);
      if j < e {
        assert runs[0] == Run(i, e - i);
      } else {
        assert seg[e] == t;
        RunsCover(seg, t, e, j);
        var rest := RunsFrom(seg, t, e);
        var k :| 0 <= k < |rest| && RunsCovers(rest[k], j);
        assert runs[k + 1] == rest[k];
      }
    }
  }

  lemma {:induction false} OpaqueCountSplit(seg: seq<uint8>, t: uint8, i: int)
    requires 0 <= i <= |seg|
    ensures OpaqueCount(seg, t, i) == RunEnd(seg, t, i) - i + OpaqueCount(seg, t, RunEnd(seg, t, i))
    decreases |seg| - i
  {
    if i < |seg| && seg[i] != t {
      OpaqueCountSplit(seg, t, i + 1);
    }
  }

  /** The runs hold exactly the non-transparent indices: their lengths add
      up to the number of such indices. */
  lemma {:induction false} RunsCount(seg: seq<uint8>, t: uint8, i: int)
    requires 0 <= i <= |seg|
    ensures TotalLength(RunsFrom(seg, t, i)) == OpaqueCount(seg, t, i)
    decreases |seg| - i
  {
    if i < |seg| {
      if seg[i] == t {
        RunsCount(seg, t, i + 1);
      } else {
        var e := RunEnd(seg, t, i);
        OpaqueCountSplit(seg, t, i);
        RunsCount(seg, t, e);
        assert RunsFrom(seg, t, i)[1..] == RunsFrom(seg, t, e);
      }
    }
  }

  /** Palette colours of a sequence of indices. */
  function Colors(s: seq<uint8>, palette: seq<uint16>): (c: seq<uint16>)
    requires |palette| == 256
    ensures |c| == |s|
    ensures forall k :: 0 <= k < |s| ==> c[k] == palette[s[k]]
  {
    seq(|s|, k requires 0 <= k < |s| => palette[s[k]])
  }

  /** One addressed write per run; a run starting at index `start` of the
      segment goes to screen column `base + start`. */
  function RunWrites(runs: seq<Run>, seg: seq<uint8>, palette: seq<uint16>, base: int, y: int): (ops: seq<DisplayOp>)
    requires |palette| == 256
    requires forall k :: 0 <= k < |runs| ==> InSeg(seg, runs[k])
    ensures |ops| == |runs|
  {
    if runs == [] then []
    else
      var r := runs[0];
      assert InSeg(seg, runs[0]);
      [WritePixels(base + r.start, y, Colors(seg[r.start..r.start + r.len], palette))]
        + RunWrites(runs[1..], seg, palette, base, y)
  }

  /** The writes of a single left-to-right scan of `seg[i..]`: skip a
      transparent index, or write the run that starts here and continue
      after it. */
  function ScanWrites(seg: seq<uint8>, t: uint8, palette: seq<uint16>, base: int, y: int, i: int): (ops: seq<DisplayOp>)
    requires |palette| == 256 && 0 <= i <= |seg|
    ensures forall k :: 0 <= k < |ops| ==> ops[k].WritePixels? && ops[k].y == y
    decreases |seg| - i
  {
    if i == |seg| then []
    else if seg[i] == t then ScanWrites(seg, t, palette, base, y, i + 1)
    else
      var e := RunEnd(seg, t, i);
      [WritePixels(base + i, y, Colors(seg[i..e], palette))] + ScanWrites(seg, t, palette, base, y, e)
  }

  /** Every write in `ops` covers only columns in `[lo, hi)`. */
  predicate WithinColumns(ops: seq<DisplayOp>, lo: int, hi: int) {
    forall k :: 0 <= k < |ops| && ops[k].WritePixels? ==> lo <= ops[k].x && ops[k].x + |ops[k].pixels| <= hi
  }

  /** Every write of the scan of `seg[i..]` lies inside the columns
      `[base + i, base + |seg|)`. */
  lemma {:induction false} ScanWritesInSpan(seg: seq<uint8>, t: uint8, palette: seq<uint16>, base: int, y: int, i: int)
    requires |palette| == 256 && 0 <= i <= |seg|
    ensures WithinColumns(ScanWrites(seg, t, palette, base, y, i), base + i, base + |seg|)
    decreases |seg| - i
  {
    if i < |seg| {
      if seg[i] == t {
        ScanWritesInSpan(seg, t, palette, base, y, i + 1);
      } else {
        var e := RunEnd(seg, t, i);
        ScanWritesInSpan(seg, t, palette, base, y, e);
        var ops := ScanWrites(seg, t, palette, base, y, i);
        assert ops[1..] == ScanWrites(seg, t, palette, base, y, e);
        assert |ops[0].pixels| == e - i;
      }
    }
  }

  /** The `k`-th write carries the `k`-th run's colours to column
      `base + start`. */
  lemma {:induction false} RunWritesAt(runs: seq<Run>, seg: seq<uint8>, palette: seq<uint16>, base: int, y: int, k: int)
    requires |palette| == 256
    requires forall j :: 0 <= j < |runs| ==> InSeg(seg, runs[j])
    requires 0 <= k < |runs|
    ensures InSeg(seg, runs[k])
    ensures RunWrites(runs, seg, palette, base, y)[k]
      == WritePixels(base + runs[k].start, y, Colors(seg[runs[k].start..runs[k].start + runs[k].len], palette))
    decreases k
  {
    assert InSeg(seg, runs[k]);
    if k > 0 {
      assert forall j :: 0 <= j < |runs[1..]| ==> runs[1..][j] == runs[j + 1];
      RunWritesAt(runs[1..], seg, palette, base, y, k - 1);
    }
  }

  lemma RunWritesCons(r: Run, rest: seq<Run>, seg: seq<uint8>, palette: seq<uint16>, base: int, y: int)
    requires |palette| == 256 && InSeg(seg, r)
    requires forall k :: 0 <= k < |rest| ==> InSeg(seg, rest[k])
    ensures RunWrites([r] + rest, seg, palette, base, y)
      == [WritePixels(base + r.start, y, Colors(seg[r.start..r.start + r.len], palette))]
         + RunWrites(rest, seg, palette, base, y)
  {
    assert ([r] + rest)[1..] == rest;
  }

  /** One step of the scan: a transparent index is skipped, a run is
      written whole. */
  lemma ScanWritesStep(seg: seq<uint8>, t: uint8, palette: seq<uint16>, base: int, y: int, i: int)
    requires |palette| == 256 && 0 <= i < |seg|
    ensures seg[i] == t ==> ScanWrites(seg, t, palette, base, y, i) == ScanWrites(seg, t, palette, base, y, i + 1)
    ensures seg[i] != t ==>
      var e := RunEnd(seg, t, i);
      ScanWrites(seg, t, palette, base, y, i)
        == [WritePixels(base + i, y, Colors(seg[i..e], palette))] + ScanWrites(seg, t, palette, base, y, e)
  {
  }

  /** The scan issues one write per maximal run, in order. */
  lemma {:induction false} ScanWritesAreRunWrites(seg: seq<uint8>, t: uint8, palette: seq<uint16>, base: int, y: int, i: int)
    requires |palette| == 256 && 0 <= i <= |seg|
    ensures ScanWrites(seg, t, palette, base, y, i) == RunWrites(RunsFrom(seg, t, i), seg, palette, base, y)
    decreases |seg| - i
  {
    if i < |seg| {
      if seg[i] == t {
        ScanWritesAreRunWrites(seg, t, palette, base, y, i + 1);
      } else {
        var e := RunEnd(seg, t, i);
        ScanWritesAreRunWrites(seg, t, palette, base, y, e);
        var rest := RunsFrom(seg, t, e);
        assert RunsFrom(seg, t, i) == [Run(i, e - i)] + rest;
        RunWritesCons(Run(i, e - i), rest, seg, palette, base, y);
      }
    }
  }

  /** Total number of pixels carried by the writes. */
  function PixelsWritten(ops: seq<DisplayOp>): int {
    if ops == [] then 0
    else (if ops[0].WritePixels? then |ops[0].pixels| else 0) + PixelsWritten(ops[1..])
  }

  /** A write that lies on the screen: its columns inside `[0, width)` and
      its line inside `[0, height)`. Since the screen's size is an
      `int16_t`, its address and length then survive the `int16_t` and
      `uint16_t` casts of `writeAddrWindow`. */
  predicate OnScreen(op: DisplayOp, scr: Screen) {
    op.WritePixels? ==> 0 <= op.x && op.x + |op.pixels| <= scr.width && 0 <= op.y < scr.height
  }

  /** The display writes of a row that is not skipped. A transparent frame
      with nothing to erase writes its runs and skips transparent pixels;
      every other row is one write of the union window. */
  function RowWrites(p: Placement, d: Row, scr: Screen): (ops: seq<DisplayOp>)
    requires d.WellFormed()
    requires !RowSkipped(Geometry(p, d, scr), scr)
    ensures forall k :: 0 <= k < |ops| ==> ops[k].WritePixels? && ops[k].y == Geometry(p, d, scr).yPos
    ensures forall k :: 0 <= k < |ops| ==> OnScreen(ops[k], scr)
  {
    var g := Geometry(p, d, scr);
    if d.hasTransparency && !NeedsErase(p, g.yPos) then
      var seg := d.pixels[g.visStart..g.visEnd];
      ScanWritesInSpan(seg, d.transparent, d.palette, g.CurStart(), g.yPos, 0);
      assert 0 <= g.CurStart() && g.CurStart() + |seg| <= scr.width;
      ScanWrites(d.pixels[g.visStart..g.visEnd], d.transparent, d.palette, g.CurStart(), g.yPos, 0)
    else
      var start := UnionStart(p, g);
      var end := UnionEnd(p, g, scr);
      assert start <= g.CurStart() < g.CurEnd() <= end;
      [WritePixels(start, g.yPos, UnionCells(p, d, g, start, end))]
  }

  /** The end-of-frame bookkeeping: batch-write mode is closed and the
      current record becomes the previous one. */
  function EndFrame(q: Placement): (r: Placement)
    ensures r.havePrev && r.prev == q.cur && r.cur == q.cur && !r.inFrameWrite
    ensures r.centered == q.centered && r.offsetX == q.offsetX && r.offsetY == q.offsetY
  {
    q.(inFrameWrite := false, havePrev := true, prev := q.cur)
  }

  datatype DrawResult = DrawResult(placement: Placement, ops: seq<DisplayOp>)

  /** One call of the scanline callback. */
  function Draw(p: Placement, d: Row, scr: Screen): (r: DrawResult)
    requires d.WellFormed()
    ensures p.BlackBackgrounds() ==> r.placement.BlackBackgrounds()
    ensures forall k :: 0 <= k < |r.ops| ==> OnScreen(r.ops[k], scr)
    ensures !scr.ready ==> r.ops == []
    ensures scr.ready && d.y == 0 ==> |r.ops| > 0 && r.ops[0] == StartWrite
    ensures forall k :: 0 <= k < |r.ops| && r.ops[k].StartWrite? ==> k == 0 && d.y == 0
    ensures forall k :: 0 <= k < |r.ops| && r.ops[k].EndWrite? ==> k == |r.ops| - 1 && d.IsLastRow()
  {
    if !scr.ready then DrawResult(p, [])
    else
      var begun := if d.y == 0 then [StartWrite] else [];
      var q := BeginRow(p, d, scr);
      var g := Geometry(q, d, scr);
      if RowSkipped(g, scr) then DrawResult(q, begun)
      else
        var w := begun + RowWrites(q, d, scr);
        if d.IsLastRow() then
          DrawResult(EndFrame(q), w + if q.inFrameWrite then [EndWrite] else [])
        else
          DrawResult(q, w)
  }

  // ---------------------------------------------------------------------
  // Properties of the compositor.

  /** A row whose width is not positive is always skipped. */
  lemma NonPositiveWidthSkipped(p: Placement, d: Row, scr: Screen)
    requires d.iWidth <= 0
    ensures RowSkipped(Geometry(p, d, scr), scr)
  {
  }

  /** A skipped row writes no pixels and leaves the previous-frame record
      and the batch-write flag as row 0 left them, even on the last row. */
  lemma SkippedRowWritesNothing(p: Placement, d: Row, scr: Screen)
    requires d.WellFormed() && scr.ready
    requires RowSkipped(Geometry(BeginRow(p, d, scr), d, scr), scr)
    ensures var r := Draw(p, d, scr);
      (forall k :: 0 <= k < |r.ops| ==> !r.ops[k].WritePixels? && !r.ops[k].EndWrite?)
      && r.placement.havePrev == p.havePrev && r.placement.prev == p.prev
      && r.placement.inFrameWrite == (p.inFrameWrite || d.y == 0)
  {
  }

  /** Past the early returns the row always has a non-empty visible span
      that lies on screen, so the `skipDraw` conditions are all false and
      the union window is never empty. */
  lemma VisibleRowIsDrawn(p: Placement, d: Row, scr: Screen)
    requires !RowSkipped(Geometry(p, d, scr), scr)
    ensures var g := Geometry(p, d, scr);
      d.iWidth > 0 && g.xPos < scr.width && g.xPos + g.drawW > 0
      && 0 <= g.CurStart() < g.CurEnd() <= scr.width
      && UnionStart(p, g) <= g.CurStart() && g.CurEnd() <= UnionEnd(p, g, scr)
  {
  }

  /** Inside the union window a pixel lands exactly on the visible span's
      non-transparent columns. */
  lemma LandsOnVisibleSpan(p: Placement, d: Row, scr: Screen, x: int)
    requires d.WellFormed()
    requires var g := Geometry(p, d, scr); UnionStart(p, g) <= x < UnionEnd(p, g, scr)
    ensures var g := Geometry(p, d, scr);
      Lands(d, g, x) <==> g.CurStart() <= x < g.CurEnd() && d.Opaque(x - g.xPos)
  {
  }

  /** Erasing: one write of the whole window, from the leftmost to the
      rightmost column of the visible span and the previous frame's
      columns, clamped to the screen; a cell holds the row's colour where
      a visible non-transparent pixel falls and the recorded background
      everywhere else. */
  lemma EraseFillsUnion(p: Placement, d: Row, scr: Screen)
    requires d.WellFormed() && scr.ready
    requires var q := BeginRow(p, d, scr); var g := Geometry(q, d, scr);
      !RowSkipped(g, scr) && NeedsErase(q, g.yPos)
    ensures var q := BeginRow(p, d, scr); var g := Geometry(q, d, scr);
      var lo := if q.prev.x < g.CurStart() then q.prev.x else g.CurStart();
      var hi := if q.prev.x + q.prev.w > g.CurEnd() then q.prev.x + q.prev.w else g.CurEnd();
      var start := if lo < 0 then 0 else lo;
      var end := if hi > scr.width then scr.width else hi;
      exists cells: seq<uint16> ::
        RowWrites(q, d, scr) == [WritePixels(start, g.yPos, cells)]
        && |cells| == end - start > 0
        && forall k :: 0 <= k < |cells| ==>
             cells[k] == if g.CurStart() <= start + k < g.CurEnd() && d.Opaque(start + k - g.xPos)
                         then d.palette[d.pixels[start + k - g.xPos]] else p.prev.bg
  {
    var q := BeginRow(p, d, scr);
    var g := Geometry(q, d, scr);
    var start, end := UnionStart(q, g), UnionEnd(q, g, scr);
    var cells := UnionCells(q, d, g, start, end);
    VisibleRowIsDrawn(q, d, scr);
    forall k | 0 <= k < |cells|
      ensures cells[k] == if g.CurStart() <= start + k < g.CurEnd() && d.Opaque(start + k - g.xPos)
                          then d.palette[d.pixels[start + k - g.xPos]] else p.prev.bg
    {
      LandsOnVisibleSpan(q, d, scr, start + k);
    }
    assert RowWrites(q, d, scr) == [WritePixels(start, g.yPos, cells)];
  }

  /** A frame without transparency and nothing to erase writes every
      visible column exactly once, in one write, with its palette colour. */
  lemma OpaqueRowWritesVisibleSpan(p: Placement, d: Row, scr: Screen)
    requires d.WellFormed() && scr.ready && !d.hasTransparency
    requires var q := BeginRow(p, d, scr); var g := Geometry(q, d, scr);
      !RowSkipped(g, scr) && !NeedsErase(q, g.yPos)
    ensures var q := BeginRow(p, d, scr); var g := Geometry(q, d, scr);
      RowWrites(q, d, scr)
        == [WritePixels(g.CurStart(), g.yPos, Colors(d.pixels[g.visStart..g.visEnd], d.palette))]
  {
    var q := BeginRow(p, d, scr);
    var g := Geometry(q, d, scr);
    VisibleRowIsDrawn(q, d, scr);
    var start, end := UnionStart(q, g), UnionEnd(q, g, scr);
    assert start == g.CurStart() && end == g.CurEnd();
    var cells := UnionCells(q, d, g, start, end);
    var want := Colors(d.pixels[g.visStart..g.visEnd], d.palette);
    assert |cells| == |want|;
    forall k | 0 <= k < |cells| ensures cells[k] == want[k] {
      LandsOnVisibleSpan(q, d, scr, start + k);
    }
    assert cells == want;
    assert RowWrites(q, d, scr) == [WritePixels(start, g.yPos, cells)];
  }

  /** A transparent frame with nothing to erase writes what the run scan
      of its visible span writes, at the span's first column. */
  lemma TransparentRowWritesRuns(p: Placement, d: Row, scr: Screen)
    requires d.WellFormed() && scr.ready && d.hasTransparency
    requires var q := BeginRow(p, d, scr); var g := Geometry(q, d, scr);
      !RowSkipped(g, scr) && !NeedsErase(q, g.yPos)
    ensures var q := BeginRow(p, d, scr); var g := Geometry(q, d, scr);
      var seg := d.pixels[g.visStart..g.visEnd];
      RowWrites(q, d, scr) == ScanWrites(seg, d.transparent, d.palette, g.CurStart(), g.yPos, 0)
  {
  }

  /** The scan writes exactly the maximal non-transparent runs of the
      segment, left to right, without overlap, each at column
      `base + start`. */
  lemma ScanWritesMaximalRuns(seg: seq<uint8>, t: uint8, palette: seq<uint16>, base: int, y: int)
    requires |palette| == 256
    ensures var runs := RunsFrom(seg, t, 0);
      var ops := ScanWrites(seg, t, palette, base, y, 0);
      && |ops| == |runs|
      && (forall k :: 0 <= k < |runs| ==>
            && IsRun(seg, t, runs[k])
            && (runs[k].start == 0 || seg[runs[k].start - 1] == t)
            && ops[k] == WritePixels(base + runs[k].start, y, Colors(seg[runs[k].start..runs[k].start + runs[k].len], palette)))
      && (forall k, k' :: 0 <= k < k' < |runs| ==> runs[k].start + runs[k].len < runs[k'].start)
  {
    var runs := RunsFrom(seg, t, 0);
    RunsAreMaximal(seg, t, 0);
    ScanWritesAreRunWrites(seg, t, palette, base, y, 0);
    forall k | 0 <= k < |runs|
      ensures RunWrites(runs, seg, palette, base, y)[k]
        == WritePixels(base + runs[k].start, y, Colors(seg[runs[k].start..runs[k].start + runs[k].len], palette))
    {
      RunWritesAt(runs, seg, palette, base, y, k);
    }
  }

  /** The scan writes one pixel per non-transparent index of `seg[i..]`
      and none for a transparent one. */
  lemma {:induction false} ScanWritesPixels(seg: seq<uint8>, t: uint8, palette: seq<uint16>, base: int, y: int, i: int)
    requires |palette| == 256 && 0 <= i <= |seg|
    ensures PixelsWritten(ScanWrites(seg, t, palette, base, y, i)) == OpaqueCount(seg, t, i)
    decreases |seg| - i
  {
    if i < |seg| {
      if seg[i] == t {
        ScanWritesPixels(seg, t, palette, base, y, i + 1);
      } else {
        var e := RunEnd(seg, t, i);
        ScanWritesPixels(seg, t, palette, base, y, e);
        OpaqueCountSplit(seg, t, i);
        var ops := ScanWrites(seg, t, palette, base, y, i);
        assert ops[1..] == ScanWrites(seg, t, palette, base, y, e);
      }
    }
  }

  /** The runs of `[T, T, 5, 6, T, 7]` with `T` transparent: indices 2-3
      and index 5. */
  lemma ExampleRuns()
    ensures RunsFrom([9, 9, 5, 6, 9, 7], 9, 0) == [Run(2, 2), Run(5, 1)]
  {
    var seg: seq<uint8> := [9, 9, 5, 6, 9, 7];
    assert RunEnd(seg, 9, 4) == 4;
    assert RunEnd(seg, 9, 3) == 4;
    assert RunEnd(seg, 9, 2) == 4;
    assert RunEnd(seg, 9, 6) == 6;
    assert RunEnd(seg, 9, 5) == 6;
    assert RunsFrom(seg, 9, 6) == [];
    assert RunsFrom(seg, 9, 5) == [Run(5, 1)];
    assert RunsFrom(seg, 9, 4) == [Run(5, 1)];
    assert RunsFrom(seg, 9, 2) == [Run(2, 2), Run(5, 1)];
    assert RunsFrom(seg, 9, 1) == [Run(2, 2), Run(5, 1)];
  }

  /** The row `[T, T, 5, 6, T, 7]` at column 0 with `T` transparent is
      written as two runs: two pixels at column 2 and one at column 5. */
  lemma TransparentRowExample(palette: seq<uint16>)
    requires |palette| == 256
    ensures
      var p := Placement(true, 0, 0, true, FrameRecord(0, true, 0, 0, 6, 4, LCD_BLACK),
                         false, FrameRecord(0, false, 0, 0, 0, 0, LCD_BLACK));
      var d := Row(0, 0, 6, 4, 1, [9, 9, 5, 6, 9, 7], palette, 0, true, 9);
      Draw(p, d, Screen(240, 240, true)).ops
        == [WritePixels(2, 1, [palette[5], palette[6]]), WritePixels(5, 1, [palette[7]])]
  {
    var seg: seq<uint8> := [9, 9, 5, 6, 9, 7];
    var p := Placement(true, 0, 0, true, FrameRecord(0, true, 0, 0, 6, 4, LCD_BLACK),
                       false, FrameRecord(0, false, 0, 0, 0, 0, LCD_BLACK));
    var d := Row(0, 0, 6, 4, 1, seg, palette, 0, true, 9);
    var scr := Screen(240, 240, true);
    var g := Geometry(p, d, scr);
    assert g == RowGeometry(0, 1, 6, 0, 6);
    assert d.pixels[g.visStart..g.visEnd] == seg;
    var w2 := [WritePixels(2, 1, Colors(seg[2..4], palette))];
    var w5 := [WritePixels(5, 1, Colors(seg[5..6], palette))];
    assert RunEnd(seg, 9, 3) == 4;
    assert RunEnd(seg, 9, 5) == 6;
    assert ScanWrites(seg, 9, palette, 0, 1, 6) == [];
    assert ScanWrites(seg, 9, palette, 0, 1, 5) == w5;
    assert ScanWrites(seg, 9, palette, 0, 1, 4) == w5;
    assert ScanWrites(seg, 9, palette, 0, 1, 2) == w2 + w5;
    assert ScanWrites(seg, 9, palette, 0, 1, 0) == w2 + w5;
    assert Colors(seg[2..4], palette) == [palette[5], palette[6]];
    assert Colors(seg[5..6], palette) == [palette[7]];
    assert RowWrites(p, d, scr) == w2 + w5;
  }

  /** Some write of `ops` puts colour `c` at column `x` of line `y`. */
  predicate Paints(ops: seq<DisplayOp>, x: int, y: int, c: uint16) {
    exists k :: 0 <= k < |ops| && PaintsOp(ops[k], x, y, c)
  }

  predicate PaintsOp(op: DisplayOp, x: int, y: int, c: uint16) {
    op.WritePixels? && op.y == y && op.x <= x < op.x + |op.pixels| && op.pixels[x - op.x] == c
  }

  lemma PaintsInside(a: seq<DisplayOp>, b: seq<DisplayOp>, e: seq<DisplayOp>, x: int, y: int, c: uint16)
    requires Paints(b, x, y, c)
    ensures Paints(a + b + e, x, y, c)
  {
    var k :| 0 <= k < |b| && PaintsOp(b[k], x, y, c);
    assert (a + b + e)[|a| + k] == b[k];
  }

  /** The run scan puts every non-transparent index `j` of the segment at
      column `base + j`, in its palette colour. */
  lemma ScanPaints(seg: seq<uint8>, t: uint8, palette: seq<uint16>, base: int, y: int, j: int)
    requires |palette| == 256 && 0 <= j < |seg| && seg[j] != t
    ensures Paints(ScanWrites(seg, t, palette, base, y, 0), base + j, y, palette[seg[j]])
  {
    RunsCover(seg, t, 0, j);
    var runs := RunsFrom(seg, t, 0);
    var k :| 0 <= k < |runs| && RunsCovers(runs[k], j);
    ScanWritesAreRunWrites(seg, t, palette, base, y, 0);
    RunWritesAt(runs, seg, palette, base, y, k);
    var r := runs[k];
    var op := WritePixels(base + r.start, y, Colors(seg[r.start..r.start + r.len], palette));
    assert ScanWrites(seg, t, palette, base, y, 0)[k] == op;
    assert op.pixels[j - r.start] == palette[seg[j]];
    assert PaintsOp(op, base + j, y, palette[seg[j]]);
  }

  /** A drawn row puts each visible non-transparent index `i` at column
      `xPos + i` of its line, in its palette colour, whichever branch
      writes it. */
  lemma RowPaintsVisible(q: Placement, d: Row, scr: Screen, i: int)
    requires d.WellFormed()
    requires var g := Geometry(q, d, scr); !RowSkipped(g, scr) && g.visStart <= i < g.visEnd && d.Opaque(i)
    ensures var g := Geometry(q, d, scr);
      Paints(RowWrites(q, d, scr), g.xPos + i, g.yPos, d.palette[d.pixels[i]])
  {
    var g := Geometry(q, d, scr);
    var x := g.xPos + i;
    if d.hasTransparency && !NeedsErase(q, g.yPos) {
      var seg := d.pixels[g.visStart..g.visEnd];
      ScanPaints(seg, d.transparent, d.palette, g.CurStart(), g.yPos, i - g.visStart);
      assert seg[i - g.visStart] == d.pixels[i];
    } else {
      VisibleRowIsDrawn(q, d, scr);
      var start, end := UnionStart(q, g), UnionEnd(q, g, scr);
      LandsOnVisibleSpan(q, d, scr, x);
      var cells := UnionCells(q, d, g, start, end);
      assert cells[x - start] == UnionCell(q, d, g, start, x - start);
      assert PaintsOp(RowWrites(q, d, scr)[0], x, g.yPos, d.palette[d.pixels[i]]);
    }
  }

  /** One callback puts each visible non-transparent index `i` of its row
      at the frame's origin moved by the offset in force, `i` columns
      right and `y` lines down. */
  lemma DrawPaintsVisible(p: Placement, d: Row, scr: Screen, i: int)
    requires d.WellFormed() && scr.ready
    requires var g := Geometry(BeginRow(p, d, scr), d, scr);
      0 <= g.yPos < scr.height && g.visStart <= i < g.visEnd && d.Opaque(i)
    ensures var q := BeginRow(p, d, scr);
      Paints(Draw(p, d, scr).ops, d.iX + q.offsetX + i, d.iY + d.y + q.offsetY, d.palette[d.pixels[i]])
  {
    var q := BeginRow(p, d, scr);
    var g := Geometry(q, d, scr);
    RowPaintsVisible(q, d, scr, i);
    DrawnRowOps(p, d, scr);
    PaintsInside(if d.y == 0 then [StartWrite] else [], RowWrites(q, d, scr),
                 if d.IsLastRow() && q.inFrameWrite then [EndWrite] else [], g.xPos + i, g.yPos, d.palette[d.pixels[i]]);
  }

  /** The operations of a drawn row: `StartWrite` on row 0, the row's
      writes, and `EndWrite` after the last row when batch mode is open. */
  lemma DrawnRowOps(p: Placement, d: Row, scr: Screen)
    requires d.WellFormed() && scr.ready && !RowSkipped(Geometry(BeginRow(p, d, scr), d, scr), scr)
    ensures var q := BeginRow(p, d, scr);
      Draw(p, d, scr).ops == (if d.y == 0 then [StartWrite] else []) + RowWrites(q, d, scr)
                             + (if d.IsLastRow() && q.inFrameWrite then [EndWrite] else [])
  {
    var q := BeginRow(p, d, scr);
    var w := (if d.y == 0 then [StartWrite] else []) + RowWrites(q, d, scr);
    assert w + [] == w;
  }

  /** Once the offset is set, every row is drawn at it: a visible
      non-transparent index `i` of row `y` lands at column
      `iX + offsetX + i` of line `iY + y + offsetY`. */
  lemma CenteredRowLands(p: Placement, d: Row, scr: Screen, i: int)
    requires d.WellFormed() && scr.ready && p.centered
    requires 0 <= i < d.iWidth && i < LINEBUF_MAX && d.Opaque(i)
    requires 0 <= d.iX + p.offsetX + i < scr.width && 0 <= d.iY + d.y + p.offsetY < scr.height
    ensures Paints(Draw(p, d, scr).ops, d.iX + p.offsetX + i, d.iY + d.y + p.offsetY, d.palette[d.pixels[i]])
  {
    VisibleColumn(BeginRow(p, d, scr), d, scr, i);
    DrawPaintsVisible(p, d, scr, i);
  }

  /** The first frame is drawn centred: when its row 0 arrives with no
      offset set and no `int16_t` wrap occurs, the frame's index `i` lands
      at column `(width - iWidth) / 2 + i` of line `(height - iHeight) / 2`. */
  lemma FirstRowDrawnCentred(p: Placement, d: Row, scr: Screen, i: int)
    requires d.WellFormed() && scr.ready && !p.centered && d.y == 0
    requires -0x8000 <= HalfTowardZero(scr.width - d.iWidth) - d.iX < 0x8000
    requires -0x8000 <= HalfTowardZero(scr.height - d.iHeight) - d.iY < 0x8000
    requires 0 <= i < d.iWidth && i < LINEBUF_MAX && d.Opaque(i)
    requires 0 <= HalfTowardZero(scr.width - d.iWidth) + i < scr.width
    requires 0 <= HalfTowardZero(scr.height - d.iHeight) < scr.height
    ensures Paints(Draw(p, d, scr).ops, HalfTowardZero(scr.width - d.iWidth) + i,
                   HalfTowardZero(scr.height - d.iHeight), d.palette[d.pixels[i]])
  {
    var q := BeginRow(p, d, scr);
    var o := CenterOffset(scr, d);
    assert q.offsetX == o.0 && q.offsetY == o.1;
    assert d.iX + q.offsetX == HalfTowardZero(scr.width - d.iWidth);
    assert d.iY + d.y + q.offsetY == HalfTowardZero(scr.height - d.iHeight);
    VisibleColumn(q, d, scr, i);
    DrawPaintsVisible(p, d, scr, i);
  }

  /** On the last row of a frame, when it is drawn, the previous-frame
      record becomes the current one and batch-write mode is closed; the
      `EndWrite` is issued only if the mode was open. */
  lemma LastRowRecordsFrame(p: Placement, d: Row, scr: Screen)
    requires d.WellFormed() && scr.ready && d.IsLastRow()
    requires !RowSkipped(Geometry(BeginRow(p, d, scr), d, scr), scr)
    ensures var q := BeginRow(p, d, scr); var r := Draw(p, d, scr);
      r.placement.havePrev && r.placement.prev == q.cur && r.placement.cur == q.cur
      && !r.placement.inFrameWrite
      && (|r.ops| > 0 && r.ops[|r.ops| - 1] == EndWrite <==> q.inFrameWrite)
  {
  }

  /** A row that is not the last one leaves the previous-frame record. */
  lemma OtherRowsKeepPrevious(p: Placement, d: Row, scr: Screen)
    requires d.WellFormed() && !d.IsLastRow()
    ensures var r := Draw(p, d, scr);
      r.placement.havePrev == p.havePrev && r.placement.prev == p.prev
  {
  }

  // ---------------------------------------------------------------------
  // Sequences of rows: one decoded frame, and frames after frames.

  predicate AllWellFormed(rows: seq<Row>) {
    forall k :: 0 <= k < |rows| ==> rows[k].WellFormed()
  }

  /** A sequence of scanline callbacks, as the decoder makes them while it
      decodes a frame: the memory after the last one, and every operation
      issued, in order. */
  function DrawAll(p: Placement, rows: seq<Row>, scr: Screen): (r: DrawResult)
    requires AllWellFormed(rows)
    ensures p.BlackBackgrounds() ==> r.placement.BlackBackgrounds()
    ensures forall k :: 0 <= k < |r.ops| ==> OnScreen(r.ops[k], scr)
    decreases |rows|
  {
    if rows == [] then DrawResult(p, [])
    else
      var first := Draw(p, rows[0], scr);
      var rest := DrawAll(first.placement, rows[1..], scr);
      DrawResult(rest.placement, first.ops + rest.ops)
  }

  /** `DrawAll` from row `i` is the callback on row `i` followed by
      `DrawAll` from row `i + 1`. */
  lemma DrawAllFrom(p: Placement, rows: seq<Row>, scr: Screen, i: int)
    requires AllWellFormed(rows) && 0 <= i < |rows|
    ensures var first := Draw(p, rows[i], scr);
      var rest := DrawAll(first.placement, rows[i + 1..], scr);
      DrawAll(p, rows[i..], scr) == DrawResult(rest.placement, first.ops + rest.ops)
  {
    assert rows[i..][1..] == rows[i + 1..];
  }

  /** The rows of one whole frame, as the decoder delivers them: rows
      `0 .. iHeight - 1` in order, all with the same frame rectangle. */
  predicate IsFrame(rows: seq<Row>) {
    |rows| > 0 && rows[0].iHeight == |rows|
    && forall k :: 0 <= k < |rows| ==>
         rows[k].y == k && rows[k].iX == rows[0].iX && rows[k].iY == rows[0].iY
         && rows[k].iWidth == rows[0].iWidth && rows[k].iHeight == rows[0].iHeight
  }

  /** Rows after row 0 leave the memory alone until the last one, which,
      when drawn, turns the current record into the previous one. */
  lemma {:induction false} FrameTailRecords(m: Placement, rows: seq<Row>, scr: Screen)
    requires AllWellFormed(rows) && |rows| > 0 && scr.ready
    requires forall k :: 0 <= k < |rows| ==> rows[k].y != 0
    requires forall k :: 0 <= k < |rows| - 1 ==> !rows[k].IsLastRow()
    requires rows[|rows| - 1].IsLastRow() && !RowSkipped(Geometry(m, rows[|rows| - 1], scr), scr)
    ensures var r := DrawAll(m, rows, scr).placement;
      r.havePrev && r.prev == m.cur && r.centered == m.centered && r.offsetX == m.offsetX && r.offsetY == m.offsetY
    decreases |rows|
  {
    if |rows| == 1 {
      assert DrawAll(m, rows, scr).placement == Draw(m, rows[0], scr).placement;
    } else {
      assert Draw(m, rows[0], scr).placement == m;
      FrameTailRecords(m, rows[1..], scr);
    }
  }

  /** After a whole frame whose last row is drawn, the previous-frame
      record is the frame's footprint: the rectangle its rows were drawn
      in, at the offset in force. This is what the next frame erases. */
  lemma FrameRecordsFootprint(p: Placement, rows: seq<Row>, scr: Screen)
    requires AllWellFormed(rows) && IsFrame(rows) && scr.ready
    requires !RowSkipped(Geometry(BeginRow(p, rows[0], scr), rows[|rows| - 1], scr), scr)
    ensures var o := BeginRow(p, rows[0], scr); var g := Geometry(o, rows[0], scr);
      var r := DrawAll(p, rows, scr).placement;
      && r.havePrev
      && r.prev.x == ToInt16(g.xPos) && r.prev.y == ToInt16(g.yPos)
      && r.prev.w == ToInt16(rows[0].iWidth) && r.prev.h == ToInt16(rows[0].iHeight)
      && (forall k :: 0 <= k < |rows| ==>
            Geometry(o, rows[k], scr).xPos == g.xPos && Geometry(o, rows[k], scr).yPos == g.yPos + k)
  {
    var o := BeginRow(p, rows[0], scr);
    var last := rows[|rows| - 1];
    if |rows| == 1 {
      assert DrawAll(p, rows, scr).placement == Draw(p, rows[0], scr).placement;
    } else {
      assert !rows[0].IsLastRow();
      assert Draw(p, rows[0], scr).placement == o;
      assert rows[1..][|rows| - 2] == last;
      FrameTailRecords(o, rows[1..], scr);
    }
  }

  /** Once set, the centering offset survives every later row and frame. */
  lemma {:induction false} CenteringPersists(p: Placement, rows: seq<Row>, scr: Screen)
    requires AllWellFormed(rows) && p.centered
    ensures var r := DrawAll(p, rows, scr).placement;
      r.centered && r.offsetX == p.offsetX && r.offsetY == p.offsetY
    decreases |rows|
  {
    if rows != [] {
      CenteringPersists(Draw(p, rows[0], scr).placement, rows[1..], scr);
    }
  }

  /** The offset is computed from the first row 0 seen while uncentered,
      and is the one in force after any later rows. */
  lemma FirstRowCenters(p: Placement, rows: seq<Row>, scr: Screen)
    requires AllWellFormed(rows) && |rows| > 0 && !p.centered
    requires scr.ready && rows[0].y == 0
    ensures var r := DrawAll(p, rows, scr).placement;
      r.centered && (r.offsetX, r.offsetY) == CenterOffset(scr, rows[0])
  {
    CenteringPersists(Draw(p, rows[0], scr).placement, rows[1..], scr);
  }

  /** Rows that arrive before any row 0, or while the display is not
      ready, compute no offset. */
  lemma NoCenteringOffRowZero(p: Placement, d: Row, scr: Screen)
    requires d.WellFormed() && (d.y != 0 || !scr.ready)
    ensures var r := Draw(p, d, scr).placement;
      r.centered == p.centered && r.offsetX == p.offsetX && r.offsetY == p.offsetY
  {
  }
}
