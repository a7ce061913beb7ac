/** The playback engine `Gif` (src/display/Gif.cpp, include/display/Gif.h):
    the frame pacer and playback state machine (`playOne`, `update`,
    `stop`, `isPlaying`, `setLoopEnabled`) and the imperative scanline
    callback `gifDraw`, which fills the line buffer in place.

    The decoder (`open`, `playFrame`, `close`) and the millisecond clock
    are not modelled: their results, and the scanlines `playFrame` hands
    to `gifDraw`, are parameters of the methods. */
module Player {
  import opened Ints
  import opened Compositor

  /** Hard ceiling on the playing time of one file. */
  const GIF_MAX_MS_PER_FILE: uint32 := 20000
  const GIF_TARGET_FPS: uint32 := 30
  /** The shortest frame interval: 1000 / 30 = 33 ms. */
  const GIF_FRAME_MS: uint32 := 1000 / GIF_TARGET_FPS

  /** The interval before the next frame: the decoder's delay, but never
      less than the frame-rate floor. */
  function FrameTarget(delayMs: int32): (r: uint32)
    ensures r >= GIF_FRAME_MS && r >= delayMs
    ensures r == GIF_FRAME_MS || r == delayMs
  {
    if delayMs > 0 && delayMs > GIF_FRAME_MS then delayMs else GIF_FRAME_MS
  }

  /** The playback fields of `Gif`: `m_gif != nullptr`, the four flags,
      the current path and the pacing state. */
  datatype Session = Session(
    decoderReady: bool,
    playRequested: bool, playing: bool, loopEnabled: bool, stopRequested: bool,
    path: string,
    delayMsFromGif: int32, targetMs: uint32, lastFrameMs: uint32, startMs: uint32,
    frameCount: int)

  /** What the pacing state can hold: a session only plays with a decoder,
      and a target interval is either unset or at least the floor. */
  predicate SessionInv(s: Session) {
    (s.playing ==> s.decoderReady)
    && (s.targetMs == 0 || s.targetMs >= GIF_FRAME_MS)
    && s.frameCount >= 0
  }

  /** What the outside world answers during one `update`: the clock at the
      start; the scanlines the decoder hands to `gifDraw` while
      `playFrame` decodes the frame, and its result and delay; whether the
      reopen of a loop succeeded, and the clock readings taken after it. */
  datatype TickInput = TickInput(
    now: uint32, rows: seq<Row>, frameResult: int32, frameDelay: int32,
    reopenOk: bool, reopenMs1: uint32, reopenMs2: uint32, checkMs: uint32)

  /** Playback ends: `m_playing` and `m_playRequested` are cleared. */
  function Halt(s: Session): Session {
    s.(playing := false, playRequested := false)
  }

  /** Whether `update` gets as far as `playFrame`: a playing session with
      a decoder, no pending stop, and the target interval elapsed. */
  predicate Decodes(s: Session, inp: TickInput) {
    s.playing && s.decoderReady && !s.stopRequested
    && !(s.targetMs > 0 && ElapsedU32(inp.now, s.lastFrameMs) < s.targetMs)
  }

  /** One call of `update`. */
  function Tick(s: Session, inp: TickInput): (r: Session)
    ensures SessionInv(s) ==> SessionInv(r)
    ensures r.loopEnabled == s.loopEnabled && r.path == s.path && r.decoderReady == s.decoderReady
    ensures !s.playing ==> r == s
    ensures !Decodes(s, inp) && !(s.playing && s.decoderReady && s.stopRequested) ==> r == s
    ensures Decodes(s, inp) ==> r.frameCount == (if r.playing && inp.frameResult <= 0 then 0 else s.frameCount + 1)
    ensures r.startMs == s.startMs || (Decodes(s, inp) && inp.frameResult <= 0 && r.startMs == inp.reopenMs2)
    ensures r.delayMsFromGif == s.delayMsFromGif || r.delayMsFromGif == 0
  {
    if !s.playing || !s.decoderReady then s
    else if s.stopRequested then Halt(s).(stopRequested := false)
    else if s.targetMs > 0 && ElapsedU32(inp.now, s.lastFrameMs) < s.targetMs then s
    else
      var decoded := s.(frameCount := s.frameCount + 1, lastFrameMs := inp.now);
      if inp.frameResult <= 0 then
        if s.loopEnabled && !s.stopRequested && |s.path| > 0 then
          if !inp.reopenOk then Halt(decoded)
          else decoded.(delayMsFromGif := 0, targetMs := 0, lastFrameMs := inp.reopenMs1,
                        startMs := inp.reopenMs2, frameCount := 0)
        else Halt(decoded)
      else
        var paced := decoded.(targetMs := FrameTarget(inp.frameDelay));
        if ElapsedU32(inp.checkMs, s.startMs) > GIF_MAX_MS_PER_FILE then Halt(paced) else paced
  }

  /** The compositor's memory after one call of `update` from memory `m`:
      the scanline callbacks of the decoded frame when `update` reaches
      `playFrame`, and nothing otherwise. */
  function UpdateMemory(s: Session, m: Placement, inp: TickInput, scr: Screen): (r: Placement)
    requires AllWellFormed(inp.rows)
    ensures !Decodes(s, inp) ==> r == m
    ensures m.BlackBackgrounds() ==> r.BlackBackgrounds()
  {
    if Decodes(s, inp) then DrawAll(m, inp.rows, scr).placement else m
  }

  /** The session `playOne` starts once the decoder has opened `path`.
      Nothing in it depends on whether a session was already playing. */
  function Start(s: Session, path: string, t1: uint32, t2: uint32): (r: Session)
    ensures r.playing && r.playRequested && !r.stopRequested && r.path == path
    ensures r.frameCount == 0 && r.targetMs == 0 && r.delayMsFromGif == 0
    ensures r.lastFrameMs == t1 && r.startMs == t2
    ensures r.loopEnabled == s.loopEnabled && r.decoderReady == s.decoderReady
  {
    s.(path := path, stopRequested := false, playRequested := true, playing := true,
       delayMsFromGif := 0, targetMs := 0, lastFrameMs := t1, startMs := t2, frameCount := 0)
  }

  /** The outcome of `playOne` on the playback state `s` and the
      compositor's memory `m`: whether it started, and the new state. */
  function PlayOneOutcome(s: Session, m: Placement, path: string, ready: bool, allocOk: bool, openOk: bool,
                          t1: uint32, t2: uint32): (r: (bool, Session, Placement))
    ensures r.0 <==> ready && (s.decoderReady || allocOk) && openOk
    ensures r.0 ==> r.1.playing && !r.1.stopRequested && r.1.path == path && r.1.frameCount == 0
                    && r.1.targetMs == 0 && r.1.loopEnabled == s.loopEnabled
    ensures !r.0 ==> r.1.playing == s.playing && r.1.path == s.path
    ensures ready && (s.decoderReady || allocOk) ==> !r.2.centered && r.2.offsetX == 0 && r.2.offsetY == 0
    ensures !(ready && (s.decoderReady || allocOk)) ==> r.2 == m
    ensures r.2.havePrev == m.havePrev && r.2.prev == m.prev && r.2.cur == m.cur
  {
    if !ready || (!s.decoderReady && !allocOk) then (false, s, m)
    else
      var s1 := s.(decoderReady := true);
      var m1 := m.(centered := false, offsetX := 0, offsetY := 0);
      if !openOk then (false, s1, m1) else (true, Start(s1, path, t1, t2), m1)
  }

  // ---------------------------------------------------------------------
  // Properties of the state machine.

  /** A pending stop is honoured by the next `update` of a playing
      session, before any frame is decoded. */
  lemma StopHonouredOnNextTick(s: Session, inp: TickInput)
    requires s.playing && s.decoderReady && s.stopRequested
    ensures var r := Tick(s, inp);
      !r.playing && !r.stopRequested && r.frameCount == s.frameCount && r.lastFrameMs == s.lastFrameMs
  {
  }

  /** `stop()` only raises the flag; the session ends on the next `update`,
      which decodes nothing and leaves the compositor's memory alone. */
  lemma StopIsDeferred(s: Session, inp: TickInput, m: Placement, scr: Screen)
    requires s.playing && s.decoderReady && AllWellFormed(inp.rows)
    ensures UpdateMemory(s.(stopRequested := true), m, inp, scr) == m
    ensures !Tick(s.(stopRequested := true), inp).playing
  {
  }

  /** While the target interval has not elapsed (on the wrapping 32-bit
      clock) nothing is decoded and nothing changes. */
  lemma PacerWaits(s: Session, inp: TickInput)
    requires s.playing && s.decoderReady && !s.stopRequested
    requires s.targetMs > 0 && ElapsedU32(inp.now, s.lastFrameMs) < s.targetMs
    ensures Tick(s, inp) == s
  {
  }

  /** After a decoded frame the next interval is `max(33, delay)`, and the
      session ends once more than 20 000 ms have passed since it started. */
  lemma FrameDecoded(s: Session, inp: TickInput)
    requires s.playing && s.decoderReady && !s.stopRequested
    requires s.targetMs == 0 || ElapsedU32(inp.now, s.lastFrameMs) >= s.targetMs
    requires inp.frameResult > 0
    ensures var r := Tick(s, inp);
      r.targetMs == FrameTarget(inp.frameDelay) && r.targetMs >= GIF_FRAME_MS
      && r.lastFrameMs == inp.now && r.frameCount == s.frameCount + 1
      && (r.playing <==> ElapsedU32(inp.checkMs, s.startMs) <= GIF_MAX_MS_PER_FILE)
      && r.startMs == s.startMs && r.delayMsFromGif == s.delayMsFromGif && !r.stopRequested
      && r.decoderReady == s.decoderReady && r.loopEnabled == s.loopEnabled && r.path == s.path
  {
  }

  /** At the end of the stream (or on a decode error) the session either
      reopens the same file with fresh pacing, when looping is enabled and
      the path is known, or ends. */
  lemma EndOfStream(s: Session, inp: TickInput)
    requires s.playing && s.decoderReady && !s.stopRequested
    requires s.targetMs == 0 || ElapsedU32(inp.now, s.lastFrameMs) >= s.targetMs
    requires inp.frameResult <= 0
    ensures var r := Tick(s, inp);
      && (r.playing <==> s.loopEnabled && |s.path| > 0 && inp.reopenOk)
      && (r.playing ==> r.frameCount == 0 && r.targetMs == 0 && r.path == s.path
                        && r.lastFrameMs == inp.reopenMs1 && r.startMs == inp.reopenMs2)
  {
  }

  /** A loop that reopens the file keeps the centering offset the earlier
      frames fixed: the reopen branch of `update` restarts the pacing but
      leaves the compositor's memory to the scanlines of the frame. */
  lemma ReopenKeepsCentering(s: Session, m: Placement, inp: TickInput, scr: Screen)
    requires Decodes(s, inp) && inp.frameResult <= 0 && s.loopEnabled && |s.path| > 0 && inp.reopenOk
    requires AllWellFormed(inp.rows) && m.centered
    ensures Tick(s, inp).playing && Tick(s, inp).frameCount == 0
    ensures var q := UpdateMemory(s, m, inp, scr);
      q.centered && q.offsetX == m.offsetX && q.offsetY == m.offsetY
  {
    CenteringPersists(m, inp.rows, scr);
  }

  /** The first frame decoded after `playOne` cleared the centering fixes
      the offset that centres it, and every later frame keeps it. */
  lemma FirstFrameCenters(s: Session, m: Placement, inp: TickInput, scr: Screen)
    requires Decodes(s, inp) && AllWellFormed(inp.rows) && !m.centered
    requires scr.ready && |inp.rows| > 0 && inp.rows[0].y == 0
    ensures var q := UpdateMemory(s, m, inp, scr);
      q.centered && (q.offsetX, q.offsetY) == CenterOffset(scr, inp.rows[0])
  {
    FirstRowCenters(m, inp.rows, scr);
  }

  /** The state after a sequence of `update` calls. */
  function Ticks(s: Session, inps: seq<TickInput>): Session
    decreases |inps|
  {
    if inps == [] then s else Ticks(Tick(s, inps[0]), inps[1..])
  }

  /** Without a reopen, `update` calls never move the start time: the
      20 000 ms ceiling is measured from the time the session started. */
  lemma {:induction false} StartTimeKept(s: Session, inps: seq<TickInput>)
    requires forall k :: 0 <= k < |inps| ==> inps[k].frameResult > 0
    ensures Ticks(s, inps).startMs == s.startMs
    decreases |inps|
  {
    if inps != [] {
      StartTimeKept(Tick(s, inps[0]), inps[1..]);
    }
  }

  /** A session started by `playOne` at clock reading `t2` ends at the
      first decoded frame whose check reading is more than 20 000 ms after
      `t2`, however many frames came before (none of them a reopen). */
  lemma CeilingEndsSession(s: Session, path: string, t1: uint32, t2: uint32, inps: seq<TickInput>, inp: TickInput)
    requires forall k :: 0 <= k < |inps| ==> inps[k].frameResult > 0
    requires Decodes(Ticks(Start(s, path, t1, t2), inps), inp) && inp.frameResult > 0
    requires ElapsedU32(inp.checkMs, t2) > GIF_MAX_MS_PER_FILE
    ensures !Tick(Ticks(Start(s, path, t1, t2), inps), inp).playing
  {
    StartTimeKept(Start(s, path, t1, t2), inps);
  }

  /** Once playback has ended, no number of `update` calls restarts it:
      only `playOne` does. */
  lemma {:induction false} IdleIsAbsorbing(s: Session, inps: seq<TickInput>)
    requires !s.playing
    ensures Ticks(s, inps) == s
    decreases |inps|
  {
    if inps != [] {
      IdleIsAbsorbing(Tick(s, inps[0]), inps[1..]);
    }
  }

  /** The pacing invariant holds across any sequence of `update` calls. */
  lemma {:induction false} TicksPreserveInv(s: Session, inps: seq<TickInput>)
    requires SessionInv(s)
    ensures SessionInv(Ticks(s, inps))
    decreases |inps|
  {
    if inps != [] {
      TicksPreserveInv(Tick(s, inps[0]), inps[1..]);
    }
  }

  /** The display surface: its size, whether it is ready, and the log of
      everything written to it. */
  class Display {
    const width: int16
    const height: int16
    const ready: bool
    var ops: seq<DisplayOp>

    constructor (w: int16, h: int16, isReady: bool)
      ensures width == w && height == h && ready == isReady && ops == []
    {
      width, height, ready := w, h, isReady;
      ops := [];
    }

    function Screen(): Screen {
      Compositor.Screen(width, height, ready)
    }
  }

  /** The engine. The fields of `Gif` are held in two groups: `session`
      (whether the decoder exists, the four flags, the current path and
      the pacing state) and `memory` (what the scanline callback keeps from
      row to row: the frame-write flag, the centering offset and the
      `m_cur*`/`m_prev*` frame records). `lineBuf` is the fixed line buffer. */
  class Gif {
    var session: Session
    var memory: Placement
    const lineBuf: array<uint16>

    ghost predicate Valid()
      reads this
    {
      lineBuf.Length == LINEBUF_MAX && SessionInv(session) && memory.BlackBackgrounds()
    }

    /** A fresh engine: no decoder yet, nothing playing, no frame drawn. */
    constructor ()
      ensures Valid() && fresh(lineBuf)
      ensures !session.playing && !session.stopRequested && !session.loopEnabled && !session.decoderReady
      ensures !memory.centered && !memory.havePrev && !memory.inFrameWrite
    {
      session := Session(false, false, false, false, false, "", 0, 0, 0, 0, 0);
      var blank := FrameRecord(0, false, 0, 0, 0, 0, LCD_BLACK);
      memory := Placement(false, 0, 0, false, blank, false, blank);
      lineBuf := new uint16[LINEBUF_MAX];
    }

    /** `playOne`: needs a ready display and a decoder (allocated here if
        missing, `allocOk` being the allocation's outcome), resets the
        centering offset, and starts a session when the decoder opens the
        file (`openOk`). `t1` and `t2` are the two clock readings. */
    method PlayOne(path: string, gfx: Display, allocOk: bool, openOk: bool, t1: uint32, t2: uint32)
      returns (ok: bool)
      requires Valid()
      modifies this
      ensures Valid()
      ensures (ok, session, memory) == PlayOneOutcome(old(session), old(memory), path, gfx.ready, allocOk, openOk, t1, t2)
    {
      if !gfx.ready {
        return false;
      }
      if !session.decoderReady {
        session := session.(decoderReady := allocOk);
        if !session.decoderReady {
          return false;
        }
      }
      memory := memory.(offsetX := 0, offsetY := 0, centered := false);
      if !openOk {
        return false;
      }
      session := session.(path := path, stopRequested := false, playRequested := true, playing := true);
      session := session.(delayMsFromGif := 0, targetMs := 0, lastFrameMs := t1, startMs := t2, frameCount := 0);
      ok := true;
    }

    /** `update`: one step of the state machine. When it reaches
        `playFrame`, the decoder's scanline callbacks run `gifDraw` on each
        row of the frame, in order, before the result is looked at; on
        every other path the compositor's memory and the display are left
        alone. A loop that reopens the file does not reset the centering. */
    method Update(gfx: Display, inp: TickInput)
      requires Valid() && AllWellFormed(inp.rows) && 0 <= gfx.width <= LINEBUF_MAX
      modifies this, lineBuf, gfx
      ensures Valid()
      ensures session == Tick(old(session), inp)
      ensures memory == UpdateMemory(old(session), old(memory), inp, gfx.Screen())
      ensures gfx.ops == old(gfx.ops) + if Decodes(old(session), inp) then DrawAll(old(memory), inp.rows, gfx.Screen()).ops else []
    {
      if !session.playing || !session.decoderReady {
        return;
      }
      if session.stopRequested {
        session := session.(playing := false, playRequested := false, stopRequested := false);
        return;
      }
      var now := inp.now;
      if session.targetMs > 0 {
        if ElapsedU32(now, session.lastFrameMs) < session.targetMs {
          return;
        }
      }
      DrawFrame(gfx, inp.rows);
      var result := inp.frameResult;
      session := session.(frameCount := session.frameCount + 1, lastFrameMs := now);
      if result <= 0 {
        if session.loopEnabled && !session.stopRequested && |session.path| > 0 {
          if !inp.reopenOk {
            session := session.(playing := false, playRequested := false);
            return;
          }
          session := session.(delayMsFromGif := 0, targetMs := 0, lastFrameMs := inp.reopenMs1,
                              startMs := inp.reopenMs2, frameCount := 0);
          return;
        }
        session := session.(playing := false, playRequested := false);
        return;
      }
      var target := GIF_FRAME_MS;
      if inp.frameDelay > 0 && inp.frameDelay > target {
        target := inp.frameDelay;
      }
      session := session.(targetMs := target);
      if ElapsedU32(inp.checkMs, session.startMs) > GIF_MAX_MS_PER_FILE {
        session := session.(playing := false, playRequested := false);
        return;
      }
    }

    /** The scanline callbacks of one `playFrame`: `gifDraw` on each row in
        turn, each one continuing from the memory the previous one left. */
    method DrawFrame(gfx: Display, rows: seq<Row>)
      requires Valid() && AllWellFormed(rows) && 0 <= gfx.width <= LINEBUF_MAX
      modifies this, lineBuf, gfx
      ensures Valid()
      ensures memory == DrawAll(old(memory), rows, gfx.Screen()).placement
      ensures gfx.ops == old(gfx.ops) + DrawAll(old(memory), rows, gfx.Screen()).ops
      ensures session == old(session)
    {
      ghost var scr := gfx.Screen();
      ghost var all := DrawAll(memory, rows, scr);
      for i := 0 to |rows|
        invariant Valid() && session == old(session)
        invariant DrawAll(memory, rows[i..], scr).placement == all.placement
        invariant gfx.ops + DrawAll(memory, rows[i..], scr).ops == old(gfx.ops) + all.ops
      {
        DrawNext(gfx, rows, i);
      }
    }

    /** One step of `DrawFrame`: the callback on row `i` leaves what
        `DrawAll` still has to do from row `i + 1`. */
    method DrawNext(gfx: Display, rows: seq<Row>, i: int)
      requires Valid() && AllWellFormed(rows) && 0 <= i < |rows| && 0 <= gfx.width <= LINEBUF_MAX
      modifies this, lineBuf, gfx
      ensures Valid() && session == old(session)
      ensures DrawAll(memory, rows[i + 1..], gfx.Screen()).placement == DrawAll(old(memory), rows[i..], gfx.Screen()).placement
      ensures gfx.ops + DrawAll(memory, rows[i + 1..], gfx.Screen()).ops
        == old(gfx.ops) + DrawAll(old(memory), rows[i..], gfx.Screen()).ops
    {
      ghost var scr := gfx.Screen();
      ghost var before, m := gfx.ops, memory;
      DrawAllFrom(m, rows, scr, i);
      GifDraw(gfx, rows[i]);
      ghost var first := Draw(m, rows[i], scr);
      ghost var rest := DrawAll(memory, rows[i + 1..], scr);
      assert (before + first.ops) + rest.ops == before + (first.ops + rest.ops);
    }

    /** `stop`: raises the flag and nothing else; `playing` is unchanged
        until the next `Update`. */
    method Stop()
      modifies this
      ensures session == old(session).(stopRequested := true)
      ensures memory == old(memory)
    {
      session := session.(stopRequested := true);
    }

    method IsPlaying() returns (r: bool)
      ensures r == session.playing
    {
      r := session.playing;
    }

    method SetLoopEnabled(enabled: bool)
      modifies this
      ensures session == old(session).(loopEnabled := enabled)
      ensures memory == old(memory)
    {
      session := session.(loopEnabled := enabled);
    }

    /** `gifDraw`: one scanline callback. It issues exactly the operations
        of `Compositor.Draw` and leaves the compositor's memory as that
        function says; the playback state is untouched. */
    method GifDraw(gfx: Display, d: Row)
      requires Valid() && d.WellFormed()
      requires 0 <= gfx.width <= LINEBUF_MAX
      modifies this, lineBuf, gfx
      ensures Valid()
      ensures memory == Compositor.Draw(old(memory), d, gfx.Screen()).placement
      ensures gfx.ops == old(gfx.ops) + Compositor.Draw(old(memory), d, gfx.Screen()).ops
      ensures session == old(session)
    {
      if !gfx.ready {
        return;
      }
      ghost var p0, ops0, scr := memory, gfx.ops, gfx.Screen();
      ghost var want := Compositor.Draw(p0, d, scr);
      ghost var begun: seq<DisplayOp> := if d.y == 0 then [StartWrite] else [];
      StartRow(gfx, d);
      ghost var q := memory;
      var rawY := d.iY + d.y;
      var rawX := d.iX;
      var width := d.iWidth;
      var drawn := DrawRow(gfx, d, rawX + memory.offsetX, rawY + memory.offsetY, width);
      if !drawn {
        assert want == DrawResult(q, begun);
        return;
      }
      ghost var w := begun + RowWrites(q, d, scr);
      assert gfx.ops == ops0 + w by {
        assert (ops0 + begun) + RowWrites(q, d, scr) == ops0 + w;
      }
      ghost var e: seq<DisplayOp> := if d.IsLastRow() && q.inFrameWrite then [EndWrite] else [];
      FinishRow(gfx, d);
      assert gfx.ops == ops0 + (w + e) by {
        assert (ops0 + w) + e == ops0 + (w + e);
      }
    }

    /** The end of `gifDraw` for a row that was drawn: after the frame's
        last row, close batch-write mode if it is open and remember the
        frame's placement as the previous one. */
    method FinishRow(gfx: Display, d: Row)
      modifies this, gfx
      ensures memory == if d.IsLastRow() then EndFrame(old(memory)) else old(memory)
      ensures gfx.ops == old(gfx.ops) + if d.IsLastRow() && old(memory).inFrameWrite then [EndWrite] else []
      ensures session == old(session)
    {
      if d.y == d.iHeight - 1 {
        if memory.inFrameWrite {
          gfx.ops := gfx.ops + [EndWrite];
          memory := memory.(inFrameWrite := false);
        }
        memory := memory.(havePrev := true, prev := memory.cur);
      }
    }

    /** The start of `gifDraw`: on row 0 open batch-write mode, compute
        the centering offset unless it is already set, and record the
        frame's placement in `cur`. */
    method StartRow(gfx: Display, d: Row)
      requires d.WellFormed() && memory.BlackBackgrounds()
      modifies this, gfx
      ensures memory == BeginRow(old(memory), d, gfx.Screen())
      ensures gfx.ops == old(gfx.ops) + if d.y == 0 then [StartWrite] else []
      ensures session == old(session)
    {
      ghost var scr := gfx.Screen();
      if d.y == 0 {
        gfx.ops := gfx.ops + [StartWrite];
        var offX, offY := memory.offsetX, memory.offsetY;
        if !memory.centered {
          var centerX := HalfTowardZero(gfx.width - d.iWidth);
          var centerY := HalfTowardZero(gfx.height - d.iHeight);
          offX, offY := ToInt16(centerX - d.iX), ToInt16(centerY - d.iY);
          assert (offX, offY) == CenterOffset(scr, d);
        }
        var cur := FrameRecord(d.disposal, d.hasTransparency, ToInt16(d.iX + offX), ToInt16(d.iY + offY),
                               ToInt16(d.iWidth), ToInt16(d.iHeight), LCD_BLACK);
        memory := memory.(inFrameWrite := true, centered := true, offsetX := offX, offsetY := offY, cur := cur);
      }
    }

    /** The middle of `gifDraw`, once the frame's placement is settled:
        clip the row to the screen and the line buffer, then either write
        the union of the previous frame's erase span and the row, or write
        the row's non-transparent runs. */
    method DrawRow(gfx: Display, d: Row, xPos: int, yPos: int, width: int) returns (drawn: bool)
      requires lineBuf.Length == LINEBUF_MAX && d.WellFormed() && memory.BlackBackgrounds()
      requires 0 <= gfx.width <= LINEBUF_MAX && gfx.ready
      requires xPos == Geometry(memory, d, gfx.Screen()).xPos && yPos == Geometry(memory, d, gfx.Screen()).yPos
      requires width == d.iWidth
      modifies lineBuf, gfx
      ensures drawn <==> !RowSkipped(Geometry(memory, d, gfx.Screen()), gfx.Screen())
      ensures !drawn ==> gfx.ops == old(gfx.ops)
      ensures drawn ==> gfx.ops == old(gfx.ops) + RowWrites(memory, d, gfx.Screen())
    {
      ghost var scr := gfx.Screen();
      ghost var g := Geometry(memory, d, scr);
      if yPos < 0 || yPos >= gfx.height {
        return false;
      }
      var maxW := lineBuf.Length;
      var drawW := if width > maxW then maxW else width;
      var visStart := 0;
      var visEnd := drawW;
      if xPos < 0 {
        visStart := -xPos;
      }
      if xPos + visEnd > gfx.width {
        visEnd := gfx.width - xPos;
      }
      if visEnd <= visStart {
        return false;
      }
      assert g == RowGeometry(xPos, yPos, drawW, visStart, visEnd);
      WriteRow(gfx, d, xPos, yPos, width, drawW, visStart, visEnd, g);
      drawn := true;
    }

    /** The writing half of `gifDraw` for a row that has a visible span:
        decide whether the previous frame must be erased under it, then
        either write the union window or the row's runs. */
    method WriteRow(gfx: Display, d: Row, xPos: int, yPos: int, width: int, drawW: int, visStart: int, visEnd: int,
                    ghost g: RowGeometry)
      requires lineBuf.Length == LINEBUF_MAX && d.WellFormed() && gfx.ready && 0 <= gfx.width <= LINEBUF_MAX
      requires g == Geometry(memory, d, gfx.Screen()) && g == RowGeometry(xPos, yPos, drawW, visStart, visEnd)
      requires !RowSkipped(g, gfx.Screen()) && width == d.iWidth
      modifies lineBuf, gfx
      ensures gfx.ops == old(gfx.ops) + RowWrites(memory, d, gfx.Screen())
    {
      ghost var scr := gfx.Screen();
      var curStart := xPos + visStart;
      var curEnd := xPos + visEnd;
      var screenW := gfx.width;
      var skipDraw := false;
      if width <= 0 {
        skipDraw := true;
      }
      if xPos >= screenW || xPos + drawW <= 0 {
        skipDraw := true;
      }

      var prev := memory.prev;
      var needClearLine := false;
      var clearStart := 0;
      var clearEnd := 0;
      if memory.havePrev && (prev.disposal == RESTORE_TO_BACKGROUND || prev.hadTransparency) {
        var prevTop := prev.y;
        var prevBot := prev.y + prev.h - 1;
        if yPos >= prevTop && yPos <= prevBot {
          needClearLine := true;
          clearStart := prev.x;
          clearEnd := prev.x + prev.w;
        }
      }
      assert needClearLine == NeedsErase(memory, yPos);

      var curValid := !skipDraw;
      if needClearLine || curValid {
        var uStart := if curValid then curStart else clearStart;
        var uEnd := if curValid then curEnd else clearEnd;
        if needClearLine {
          if clearStart < uStart {
            uStart := clearStart;
          }
          if clearEnd > uEnd {
            uEnd := clearEnd;
          }
        }
        if uStart < 0 {
          uStart := 0;
        }
        if uEnd > screenW {
          uEnd := screenW;
        }
        var uLen := uEnd - uStart;
        if uLen > 0 {
          var fillBg := prev.bg;
          if !curValid {
            // The background-only fill: a row with a visible span never has
            // `skipDraw` set, so this branch is never taken.
            assert false;
          } else if !d.hasTransparency || needClearLine {
            assert uStart == UnionStart(memory, g) && uEnd == UnionEnd(memory, g, scr);
            ComposeWindow(gfx, d, xPos, yPos, drawW, uStart, uLen, fillBg, memory, g);
          } else {
            WriteRuns(gfx, d, xPos, yPos, visStart, visEnd);
          }
        }
      }
    }

    /** The union-window write of `gifDraw` (the opaque case, and the
        transparent case with an erase pending): fill the window with the
        background, lay the row's landing pixels over it, write it once. */
    method ComposeWindow(gfx: Display, d: Row, xPos: int, yPos: int, drawW: int, uStart: int, uLen: int,
                         fillBg: uint16, ghost p: Placement, ghost g: RowGeometry)
      requires lineBuf.Length == LINEBUF_MAX && d.WellFormed()
      requires 0 < uLen <= LINEBUF_MAX && 0 <= drawW <= d.iWidth
      requires g.xPos == xPos && g.drawW == drawW && p.prev.bg == fillBg
      modifies lineBuf, gfx
      ensures gfx.ops == old(gfx.ops) + [WritePixels(uStart, yPos, UnionCells(p, d, g, uStart, uStart + uLen))]
    {
      for i := 0 to uLen
        modifies lineBuf
        invariant forall k :: 0 <= k < i ==> lineBuf[k] == fillBg
      {
        lineBuf[i] := fillBg;
      }
      var baseX := xPos - uStart;
      for i := 0 to drawW
        modifies lineBuf
        invariant forall k :: 0 <= k < uLen ==>
          lineBuf[k] == if 0 <= k - baseX < i && d.Opaque(k - baseX) then d.palette[d.pixels[k - baseX]] else fillBg
      {
        var idx := d.pixels[i];
        if !d.hasTransparency || idx != d.transparent {
          var dstIndex := baseX + i;
          if dstIndex >= 0 && dstIndex < uLen {
            lineBuf[dstIndex] := d.palette[idx];
          }
        }
      }
      ghost var cells := UnionCells(p, d, g, uStart, uStart + uLen);
      forall k | 0 <= k < uLen
        ensures lineBuf[k] == cells[k]
      {
        assert cells[k] == UnionCell(p, d, g, uStart, k);
      }
      assert lineBuf[..uLen] == cells;
      gfx.ops := gfx.ops + [WritePixels(uStart, yPos, lineBuf[..uLen])];
    }

    /** The transparent case of `gifDraw` with nothing to erase: scan the
        visible span, skip transparent indices, and write each run of
        non-transparent ones from the start of the line buffer. */
    method WriteRuns(gfx: Display, d: Row, xPos: int, yPos: int, visStart: int, visEnd: int)
      requires lineBuf.Length == LINEBUF_MAX && d.WellFormed()
      requires 0 <= visStart < visEnd <= d.iWidth && visEnd <= LINEBUF_MAX
      modifies lineBuf, gfx
      ensures gfx.ops == old(gfx.ops) + ScanWrites(d.pixels[visStart..visEnd], d.transparent, d.palette, xPos + visStart, yPos, 0)
    {
      var t := d.transparent;
      var n := visEnd - visStart;
      ghost var seg := d.pixels[visStart..visEnd];
      ghost var base := xPos + visStart;
      ghost var all := ScanWrites(seg, t, d.palette, base, yPos, 0);
      var idx := 0;
      while idx < n
        invariant 0 <= idx <= n
        invariant gfx.ops + ScanWrites(seg, t, d.palette, base, yPos, idx) == old(gfx.ops) + all
      {
        idx := SkipTransparent(d, visStart, n, idx, base, yPos);
        if idx >= n {
          break;
        }
        var runLen;
        ghost var runStart := idx;
        ghost var before := gfx.ops;
        ScanWritesStep(seg, t, d.palette, base, yPos, idx);
        runLen, idx := CopyRun(d, visStart, n, idx);
        var dstX := xPos + visStart + (idx - runLen);
        ghost var w := WritePixels(dstX, yPos, lineBuf[..runLen]);
        ghost var rest := ScanWrites(seg, t, d.palette, base, yPos, idx);
        assert ScanWrites(seg, t, d.palette, base, yPos, runStart) == [w] + rest;
        assert (before + [w]) + rest == before + ([w] + rest);
        gfx.ops := gfx.ops + [WritePixels(dstX, yPos, lineBuf[..runLen])];
      }
    }

    /** The first inner loop of the run scan: step over transparent
        indices, which the scan writes nothing for. */
    method SkipTransparent(d: Row, visStart: int, n: int, start: int, ghost base: int, ghost y: int) returns (next: int)
      requires d.WellFormed() && 0 <= visStart && visStart + n <= d.iWidth && 0 <= start <= n
      ensures start <= next <= n && (next == n || d.pixels[visStart + next] != d.transparent)
      ensures var seg := d.pixels[visStart..visStart + n];
        ScanWrites(seg, d.transparent, d.palette, base, y, next) == ScanWrites(seg, d.transparent, d.palette, base, y, start)
    {
      ghost var seg := d.pixels[visStart..visStart + n];
      var t := d.transparent;
      next := start;
      while next < n && d.pixels[visStart + next] == t
        invariant start <= next <= n
        invariant ScanWrites(seg, t, d.palette, base, y, next) == ScanWrites(seg, t, d.palette, base, y, start)
      {
        ScanWritesStep(seg, t, d.palette, base, y, next);
        next := next + 1;
      }
    }

    /** The inner loop of the run scan: copy the colours of the run that
        starts at `start` into the line buffer; `next` is where it ends. */
    method CopyRun(d: Row, visStart: int, n: int, start: int) returns (runLen: int, next: int)
      requires lineBuf.Length == LINEBUF_MAX && d.WellFormed()
      requires 0 <= visStart && visStart + n <= d.iWidth && n <= LINEBUF_MAX && 0 <= start < n
      modifies lineBuf
      ensures next == RunEnd(d.pixels[visStart..visStart + n], d.transparent, start) && runLen == next - start
      ensures lineBuf[..runLen] == Colors(d.pixels[visStart..visStart + n][start..next], d.palette)
    {
      ghost var seg := d.pixels[visStart..visStart + n];
      var t := d.transparent;
      runLen := 0;
      next := start;
      while next < n && d.pixels[visStart + next] != t
        invariant start <= next <= n && runLen == next - start
        invariant RunEnd(seg, t, start) == RunEnd(seg, t, next)
        invariant forall k :: 0 <= k < runLen ==> lineBuf[k] == d.palette[seg[start + k]]
      {
        lineBuf[runLen] := d.palette[d.pixels[visStart + next]];
        runLen := runLen + 1;
        next := next + 1;
      }
      assert lineBuf[..runLen] == Colors(seg[start..next], d.palette);
    }
  }
}
