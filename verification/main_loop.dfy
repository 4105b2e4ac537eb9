/**
 The per-frame decisions of the demo application's main loop: whether this
 frame redraws the jitter table, whether the target buffers follow a window
 resize, which source resolution a picked style uses, and how one frame
 feeds them into styleblit().

 Time is the caller-supplied number of milliseconds since start-up,
 non-decreasing from frame to frame.
 */
module MainLoop {
  import Controls
  import JitterTable
  import Styleblit

  // ---------------------------------------------------------------------
  // Jitter cadence.

  /** The jitter mode that redraws on a fixed cadence of 12 per second. */
  const CadenceMode := 12

  /** A jitter decision: whether this frame redraws, and the time of the
      last redraw kept for the next frame. */
  datatype JitterDecision = JitterDecision(jitterThisFrame: bool, lastJitterTime: int)

  /** More than 1000/12 ms have passed since `last`; with integer
      milliseconds this is `elapsed * 12 > 1000`. */
  predicate CadenceElapsed(now: int, last: int) {
    (now - last) * 12 > 1000
  }

  /** Mode -1 redraws every frame, mode 0 never, mode 12 once the cadence
      has elapsed (recording the time), any other mode never. */
  function DecideJitter(jitter: int, now: int, lastJitterTime: int): (d: JitterDecision)
    ensures d.jitterThisFrame <==> jitter == -1 || (jitter == CadenceMode && CadenceElapsed(now, lastJitterTime))
    ensures d.lastJitterTime == (if jitter == CadenceMode && d.jitterThisFrame then now else lastJitterTime)
  {
    if jitter == -1 then JitterDecision(true, lastJitterTime)
    else if jitter == 0 then JitterDecision(false, lastJitterTime)
    else if jitter == CadenceMode then
      if CadenceElapsed(now, lastJitterTime) then JitterDecision(true, now)
      else JitterDecision(false, lastJitterTime)
    else JitterDecision(false, lastJitterTime)
  }

  /** The cadence threshold in whole milliseconds: the strict float
      comparison against 1000/12 holds exactly from 84 ms on. */
  lemma CadenceInMilliseconds(now: int, last: int)
    ensures CadenceElapsed(now, last) <==> now - last >= 84
  {
  }

  /** The times at which cadence mode redraws over a sequence of frame
      times, starting from the recorded time `last`. */
  function RedrawTimes(last: int, times: seq<int>): seq<int>
    decreases |times|
  {
    if |times| == 0 then []
    else
      var d := DecideJitter(CadenceMode, times[0], last);
      (if d.jitterThisFrame then [times[0]] else []) + RedrawTimes(d.lastJitterTime, times[1..])
  }

  /** In cadence mode, consecutive redraws are at least 84 ms apart (and the
      first at least 84 ms after `last`), so no more than one redraw happens
      per 84 ms of frame time. */
  lemma {:induction false} RedrawsAreSpaced(last: int, times: seq<int>)
    ensures var r := RedrawTimes(last, times);
      && (|r| > 0 ==> r[0] - last >= 84)
      && (forall i :: 0 <= i < |r| - 1 ==> r[i + 1] - r[i] >= 84)
      && (|r| > 0 ==> r[|r| - 1] - last >= 84 * |r|)
    decreases |times|
  {
    if |times| > 0 {
      var d := DecideJitter(CadenceMode, times[0], last);
      var rest := RedrawTimes(d.lastJitterTime, times[1..]);
      RedrawsAreSpaced(d.lastJitterTime, times[1..]);
      if d.jitterThisFrame {
        var r := [times[0]] + rest;
        assert RedrawTimes(last, times) == r;
        assert forall i :: 1 <= i < |r| ==> r[i] == rest[i - 1];
      }
    }
  }

  // ---------------------------------------------------------------------
  // Target resize detection.

  /** The target buffer size kept by the application. */
  datatype Target = Target(width: int, height: int)

  /** Before the first frame the target is -1 x -1, a size no window has. */
  const InitialTarget := Target(-1, -1)

  /** The target follows the window framebuffer; the boolean says whether the
      target texture and depth buffer are recreated. */
  function DetectResize(t: Target, windowWidth: int, windowHeight: int): (r: (Target, bool))
    ensures r.0 == Target(windowWidth, windowHeight)
    ensures r.1 <==> t != r.0
  {
    if t.width != windowWidth || t.height != windowHeight
    then (Target(windowWidth, windowHeight), true)
    else (t, false)
  }

  /** The first frame always allocates the target buffers, and a second
      detection at the same window size allocates nothing. */
  lemma ResizeIdempotent(t: Target, w: int, h: int)
    requires w >= 0 && h >= 0
    ensures DetectResize(InitialTarget, w, h).1
    ensures !DetectResize(DetectResize(t, w, h).0, w, h).1
  {
  }

  // ---------------------------------------------------------------------
  // Source resolution.

  /** The style images offered by the icon bar. */
  const StyleCount := 12

  /** Styles rendered at a quarter of the window height; the others use a
      third. */
  predicate QuarterHeightStyle(style: int) {
    style == 0 || style == 1 || style == 2 || style == 5 || style == 9
  }

  /** C's `/` on int: the quotient truncated towards zero. */
  function CDiv(a: int, b: int): (q: int)
    requires b > 0
    ensures a >= 0 ==> q * b <= a < (q + 1) * b
    ensures a < 0 ==> (q - 1) * b < a <= q * b
  {
    if a >= 0 then a / b else -((-a) / b)
  }

  /** The square source resolution used after picking `style`: the
      quotient of the window height by 4 for a quarter-height style and by 3
      otherwise, truncated towards zero. */
  function SourceSizeFor(style: int, windowHeight: int): (n: int)
    requires 0 <= style < StyleCount
    ensures var d := if QuarterHeightStyle(style) then 4 else 3;
      && (windowHeight >= 0 ==> 0 <= n && n * d <= windowHeight < (n + 1) * d)
      && (windowHeight < 0 ==> n <= 0 && (n - 1) * d < windowHeight <= n * d)
  {
    if QuarterHeightStyle(style) then CDiv(windowHeight, 4) else CDiv(windowHeight, 3)
  }

  /** The resolution set at start-up, when style 0 is loaded. */
  function InitialSourceSize(windowHeight: int): int {
    CDiv(windowHeight, 4)
  }

  /** Five of the twelve styles use a quarter of the window height, the other
      seven a third; for a non-negative height the size is the largest one
      whose multiple by 4 (or 3) fits, and a third-height size is never
      below a quarter-height one. The start-up size is that of style 0. */
  lemma SourceSizeBounds(style: int, windowHeight: int)
    requires 0 <= style < StyleCount
    requires windowHeight >= 0
    ensures var n := SourceSizeFor(style, windowHeight);
      var d := if QuarterHeightStyle(style) then 4 else 3;
      && 0 <= n && n * d <= windowHeight < (n + 1) * d
      && n >= SourceSizeFor(0, windowHeight)
    ensures InitialSourceSize(windowHeight) == SourceSizeFor(0, windowHeight)
    ensures |set i | 0 <= i < StyleCount && QuarterHeightStyle(i)| == 5
  {
    assert (set i | 0 <= i < StyleCount && QuarterHeightStyle(i)) == {0, 1, 2, 5, 9};
  }

  // ---------------------------------------------------------------------
  // One frame.

  /** The application state carried between frames. */
  datatype App = App(
    params: Controls.Params,
    target: Target,
    sourceSize: int,
    lastJitterTime: int,
    blit: Styleblit.State)

  /** The state main() hands to the first frame. */
  function InitialApp(windowHeight: int): App {
    App(Controls.InitialParams, InitialTarget, InitialSourceSize(windowHeight), 0, Styleblit.Initial)
  }

  /** What one frame reads from the window system, the clock, the icon bar,
      the driver and rand(). `picks` are the icons the click hit, in the
      order the icon loop tests them; adjacent icons can share a border
      column when the window is narrow, so a click can hit more than one. */
  datatype FrameInput = FrameInput(
    windowWidth: int,
    windowHeight: int,
    now: int,
    shouldClose: bool,
    picks: seq<int>,
    blendHandle: nat,
    draws: seq<int>)

  predicate ValidInput(f: FrameInput) {
    && JitterTable.ValidDraws(f.draws)
    && (forall j :: 0 <= j < |f.picks| ==> 0 <= f.picks[j] < StyleCount)
    && (forall j, j' :: 0 <= j < j' < |f.picks| ==> f.picks[j] < f.picks[j'])
  }

  /** Opaque effects of a frame. */
  datatype FrameEvent =
    | ReallocTarget(width: int, height: int)
    | Blit(event: Styleblit.Event)
    | LoadSource(style: int, size: int)

  /** What one frame leaves behind: the new application state and the
      frame's effects in order. */
  datatype FrameOutcome = FrameOutcome(app: App, trace: seq<FrameEvent>)

  /** The styleblit() arguments of a frame: the target as resized to the
      window, the square source chosen before this frame, the controls, and
      this frame's jitter decision. */
  function FrameCall(a: App, f: FrameInput): Styleblit.Call {
    var d := DecideJitter(a.params.jitter, f.now, a.lastJitterTime);
    var t := DetectResize(a.target, f.windowWidth, f.windowHeight).0;
    Styleblit.Call(t.width, t.height, a.sourceSize, a.sourceSize,
                   a.params.threshold, a.params.blendRadius, d.jitterThisFrame)
  }

  function Lift(t: seq<Styleblit.Event>): (r: seq<FrameEvent>)
    ensures |r| == |t| && forall i :: 0 <= i < |t| ==> r[i] == Blit(t[i])
  {
    seq(|t|, i requires 0 <= i < |t| => Blit(t[i]))
  }

  /** The target buffer recreation of a frame, if any. */
  function ResizeEvents(a: App, f: FrameInput): (r: seq<FrameEvent>)
    ensures forall i :: 0 <= i < |r| ==> r[i].ReallocTarget?
  {
    var r := DetectResize(a.target, f.windowWidth, f.windowHeight);
    if r.1 then [ReallocTarget(r.0.width, r.0.height)] else []
  }

  /** The source reloads of a frame, one per picked icon. */
  function PickEvents(f: FrameInput): (r: seq<FrameEvent>)
    requires ValidInput(f)
    ensures |r| == |f.picks|
    ensures forall j :: 0 <= j < |f.picks| ==>
      r[j] == LoadSource(f.picks[j], SourceSizeFor(f.picks[j], f.windowHeight))
  {
    seq(|f.picks|, j requires 0 <= j < |f.picks| && ValidInput(f) =>
      LoadSource(f.picks[j], SourceSizeFor(f.picks[j], f.windowHeight)))
  }

  /** The source size a frame leaves: that of the last icon picked, or the
      current one when nothing was picked. */
  function SourceSizeAfter(current: int, f: FrameInput): int
    requires ValidInput(f)
  {
    if |f.picks| == 0 then current else SourceSizeFor(f.picks[|f.picks| - 1], f.windowHeight)
  }

  /** One iteration of the main loop: jitter decision, quit request, target
      resize, styleblit() on the target, then the icon picks, which take
      effect from the next frame on. */
  function Frame(a: App, f: FrameInput): (r: FrameOutcome)
    requires ValidInput(f)
    ensures r.app.lastJitterTime == DecideJitter(a.params.jitter, f.now, a.lastJitterTime).lastJitterTime
    ensures |f.picks| > 0 ==> r.app.sourceSize == SourceSizeFor(f.picks[|f.picks| - 1], f.windowHeight)
    ensures |f.picks| == 0 ==> r.app.sourceSize == a.sourceSize
    ensures r.app.params.jitter == a.params.jitter
  {
    var d := DecideJitter(a.params.jitter, f.now, a.lastJitterTime);
    var params := if f.shouldClose then a.params.(done := true) else a.params;
    var t := DetectResize(a.target, f.windowWidth, f.windowHeight).0;
    var o := Styleblit.Step(a.blit, FrameCall(a, f), f.blendHandle, f.draws);
    FrameOutcome(App(params, t, SourceSizeAfter(a.sourceSize, f), d.lastJitterTime, o.state),
                 ResizeEvents(a, f) + Lift(o.trace) + PickEvents(f))
  }

  /** A frame's trace: the target recreation, the styleblit() call with the
      frame's arguments, then the reloads. */
  lemma FrameTrace(a: App, f: FrameInput)
    requires ValidInput(f)
    ensures Frame(a, f).trace
         == ResizeEvents(a, f) + Lift(Styleblit.Step(a.blit, FrameCall(a, f), f.blendHandle, f.draws).trace) + PickEvents(f)
  {
  }

  /** The styleblit() call of a frame gets the controls' blend radius, the
      frame's jitter decision and the handle program creation returns:
      afterwards the blend program is the one for the current radius, it is
      the new handle exactly when a rebuild was due and the kept one
      otherwise, and the table was redrawn exactly when the decision asked
      for it or on the stylizer's first call. */
  lemma FrameArguments(a: App, f: FrameInput)
    requires ValidInput(f)
    ensures var r := Frame(a, f);
      && r.app.blit.initialized
      && r.app.blit.oldBlendRadius == a.params.blendRadius
      && r.app.blit.progBlend ==
           (if Styleblit.NeedsRebuild(a.blit, FrameCall(a, f)) then f.blendHandle else a.blit.progBlend)
      && r.app.blit.jitterTable ==
           if DecideJitter(a.params.jitter, f.now, a.lastJitterTime).jitterThisFrame || !a.blit.initialized
           then JitterTable.Regenerate(f.draws) else a.blit.jitterTable
  {
  }

  /** After a frame the target and the NNF both have the window's size, the
      target buffers were recreated exactly when the window size changed,
      and the controls are untouched except for a quit request. The source
      size becomes that of the last icon picked, and is kept when none was;
      the time of the last redraw follows the frame's jitter decision. */
  lemma FrameFollowsWindow(a: App, f: FrameInput)
    requires ValidInput(f)
    requires Styleblit.Inv(a.blit)
    ensures var r := Frame(a, f);
      && r.app.target == Target(f.windowWidth, f.windowHeight)
      && r.app.blit.nnfWidth == f.windowWidth && r.app.blit.nnfHeight == f.windowHeight
      && Styleblit.Inv(r.app.blit)
      && (|r.trace| > 0 && r.trace[0].ReallocTarget? <==> a.target != r.app.target)
      && r.app.params == a.params.(done := a.params.done || f.shouldClose)
      && (|f.picks| == 0 ==> r.app.sourceSize == a.sourceSize)
      && (|f.picks| > 0 ==> r.app.sourceSize == SourceSizeFor(f.picks[|f.picks| - 1], f.windowHeight))
      && r.app.lastJitterTime == DecideJitter(a.params.jitter, f.now, a.lastJitterTime).lastJitterTime
  {
    Styleblit.StepPreservesInv(a.blit, FrameCall(a, f), f.blendHandle, f.draws);
  }

  /** The frame's styleblit() call renders the current target with the
      square source chosen before this frame's pick and the current
      controls, and ends with the matching pass then the blending pass,
      followed only by one source reload per picked icon, in icon order,
      each at that icon's source size. */
  lemma FramePasses(a: App, f: FrameInput)
    requires ValidInput(f)
    ensures var r := Frame(a, f);
      var n := |r.trace| - |f.picks|;
      && 2 <= n
      && r.trace[n - 2] == Blit(Styleblit.MainPass(f.windowWidth, f.windowHeight, a.sourceSize, a.sourceSize,
                                                   a.params.threshold))
      && r.trace[n - 1] == Blit(Styleblit.BlendPass(f.windowWidth, f.windowHeight, a.sourceSize, a.sourceSize))
      && forall j :: 0 <= j < |f.picks| ==>
           r.trace[n + j] == LoadSource(f.picks[j], SourceSizeFor(f.picks[j], f.windowHeight))
  {
    var o := Styleblit.Step(a.blit, FrameCall(a, f), f.blendHandle, f.draws);
    FrameTrace(a, f);
    PassesStayLast(ResizeEvents(a, f), o.trace, PickEvents(f), FrameCall(a, f));
    PicksLast(ResizeEvents(a, f) + Lift(o.trace), f);
  }

  /** A frame's reloads are its last events, one per pick in pick order. */
  lemma PicksLast(pre: seq<FrameEvent>, f: FrameInput)
    requires ValidInput(f)
    ensures forall j :: 0 <= j < |f.picks| ==>
      (pre + PickEvents(f))[|pre| + j] == LoadSource(f.picks[j], SourceSizeFor(f.picks[j], f.windowHeight))
  {
  }

  /** Lifting a styleblit() trace into a frame keeps its two passes right
      before the frame's trailing events. */
  lemma PassesStayLast(pre: seq<FrameEvent>, t: seq<Styleblit.Event>, post: seq<FrameEvent>, c: Styleblit.Call)
    requires |t| >= 2 && t[|t| - 2..] == Styleblit.Passes(c)
    ensures var trace := pre + Lift(t) + post;
      var n := |pre| + |t|;
      && trace[n - 2] == Blit(Styleblit.Passes(c)[0])
      && trace[n - 1] == Blit(Styleblit.Passes(c)[1])
  {
    var m := |t|;
    assert t[m - 2] == t[m - 2..][0];
    assert t[m - 1] == t[m - 2..][1];
  }

  /** The target, the NNF and a real blend program are all in place for a
      window of `width` by `height` pixels and the controls' radius. */
  predicate Settled(a: App, width: int, height: int) {
    && a.target == Target(width, height)
    && a.blit.initialized && a.blit.progBlend != 0
    && a.blit.oldBlendRadius == a.params.blendRadius
    && a.blit.oldTargetWidth == width && a.blit.oldTargetHeight == height
  }

  /** No target buffers, NNF or blend program are recreated. */
  predicate RecreatesNothing(t: seq<FrameEvent>) {
    forall i :: 0 <= i < |t| ==>
      !t[i].ReallocTarget?
      && (t[i].Blit? ==> !t[i].event.ReallocNNF? && !t[i].event.BuildBlendProgram?
                         && !t[i].event.DeleteBlendProgram?)
  }

  /** In a steady state, a frame at an unchanged window size with unchanged
      controls recreates nothing: no target buffers, no NNF, no blend
      program. */
  lemma SteadyFrame(a: App, f: FrameInput)
    requires ValidInput(f)
    requires Settled(a, f.windowWidth, f.windowHeight)
    ensures RecreatesNothing(Frame(a, f).trace)
  {
    var c := FrameCall(a, f);
    FrameTrace(a, f);
    Styleblit.StepCached(a.blit, c, f.blendHandle, f.draws);
    assert ResizeEvents(a, f) == [];
  }

  /** Any frame that gets a real program handle settles the loop: the next
      frame at the same window size recreates nothing. */
  lemma FrameSettles(a: App, f: FrameInput, g: FrameInput)
    requires ValidInput(f) && ValidInput(g) && f.blendHandle != 0
    requires g.windowWidth == f.windowWidth && g.windowHeight == f.windowHeight
    ensures Settled(Frame(a, f).app, g.windowWidth, g.windowHeight)
    ensures RecreatesNothing(Frame(Frame(a, f).app, g).trace)
  {
    var r := Frame(a, f).app;
    FrameArguments(a, f);
    assert Settled(r, g.windowWidth, g.windowHeight);
    SteadyFrame(r, g);
  }

  /** With the controls as the key callback leaves them, the jitter mode is
      0 or 12, so the every-frame mode -1 is never in effect; the radius
      handed to styleblit() lies in [0, 8]. */
  lemma ReachableModes(keys: seq<Controls.KeyEvent>, now: int, last: int)
    ensures var p := Controls.ApplyKeys(Controls.InitialParams, keys);
      && 0 <= p.blendRadius <= 8
      && (DecideJitter(p.jitter, now, last).jitterThisFrame <==> p.jitter == CadenceMode && CadenceElapsed(now, last))
  {
    Controls.ReachableValid(keys);
  }
  // ---------------------------------------------------------------------
  // Runs of frames.

  /** The clock readings of a sequence of frames. */
  function FrameTimes(fs: seq<FrameInput>): (ts: seq<int>)
    ensures |ts| == |fs| && forall j :: 0 <= j < |fs| ==> ts[j] == fs[j].now
  {
    seq(|fs|, j requires 0 <= j < |fs| => fs[j].now)
  }

  predicate ValidInputs(fs: seq<FrameInput>) {
    forall j :: 0 <= j < |fs| ==> ValidInput(fs[j])
  }

  /** A trace that uploads a jitter table. */
  predicate UploadsTable(t: seq<FrameEvent>) {
    exists i :: 0 <= i < |t| && t[i].Blit? && t[i].event.UploadJitterTable?
  }

  /** Only the lifted styleblit() events of a frame can be uploads. */
  lemma UploadsInLift(pre: seq<FrameEvent>, t: seq<Styleblit.Event>, post: seq<FrameEvent>)
    requires forall i :: 0 <= i < |pre| ==> !pre[i].Blit?
    requires forall i :: 0 <= i < |post| ==> !post[i].Blit?
    ensures UploadsTable(pre + Lift(t) + post) <==> exists i :: 0 <= i < |t| && t[i].UploadJitterTable?
  {
    var all := pre + Lift(t) + post;
    assert forall k :: 0 <= k < |pre| ==> all[k] == pre[k];
    assert forall k :: |pre| <= k < |pre| + |t| ==> all[k] == Blit(t[k - |pre|]);
    assert forall k :: |pre| + |t| <= k < |all| ==> all[k] == post[k - |pre| - |t|];
    if i :| 0 <= i < |t| && t[i].UploadJitterTable? {
      assert all[|pre| + i].Blit? && all[|pre| + i].event.UploadJitterTable?;
    }
    if UploadsTable(all) {
      var k :| 0 <= k < |all| && all[k].Blit? && all[k].event.UploadJitterTable?;
      assert |pre| <= k < |pre| + |t|;
      assert t[k - |pre|].UploadJitterTable?;
    }
  }

  /** A frame uploads a jitter table exactly when its jitter decision says
      so, or when it is the stylizer's first call. */
  lemma FrameUploads(a: App, f: FrameInput)
    requires ValidInput(f)
    ensures UploadsTable(Frame(a, f).trace)
        <==> DecideJitter(a.params.jitter, f.now, a.lastJitterTime).jitterThisFrame || !a.blit.initialized
  {
    var c := FrameCall(a, f);
    var o := Styleblit.Step(a.blit, c, f.blendHandle, f.draws);
    FrameTrace(a, f);
    UploadsInLift(ResizeEvents(a, f), o.trace, PickEvents(f));
    Styleblit.StepUploads(a.blit, c, f.blendHandle, f.draws);
  }

  /** One frame of a cadence run: it uploads a table exactly when the
      cadence fires, and the next frame starts in the same mode with the
      stylizer set up and the cadence's new redraw time. */
  lemma CadenceFrame(a: App, f: FrameInput)
    requires ValidInput(f)
    requires a.params.jitter == CadenceMode && a.blit.initialized
    ensures var r := Frame(a, f);
      var d := DecideJitter(CadenceMode, f.now, a.lastJitterTime);
      && r.app.params.jitter == CadenceMode
      && r.app.blit.initialized
      && r.app.lastJitterTime == d.lastJitterTime
      && (UploadsTable(r.trace) <==> d.jitterThisFrame)
  {
    FrameUploads(a, f);
    FrameArguments(a, f);
  }

  /** The times of the frames, run from `a` on, that upload a jitter
      table. */
  function JitteredFrameTimes(a: App, fs: seq<FrameInput>): seq<int>
    requires ValidInputs(fs)
    decreases |fs|
  {
    if |fs| == 0 then []
    else
      (if UploadsTable(Frame(a, fs[0]).trace) then [fs[0].now] else [])
        + JitteredFrameTimes(Frame(a, fs[0]).app, fs[1..])
  }

  /** In cadence mode, once the stylizer is initialized, the frames of a run
      that upload a jitter table are exactly the redraw times of the
      cadence, so they are at least 84 ms apart and the first is at least
      84 ms after the recorded time. */
  lemma {:induction false} FrameJitterCadence(a: App, fs: seq<FrameInput>)
    requires ValidInputs(fs)
    requires a.params.jitter == CadenceMode && a.blit.initialized
    ensures JitteredFrameTimes(a, fs) == RedrawTimes(a.lastJitterTime, FrameTimes(fs))
    ensures var r := JitteredFrameTimes(a, fs);
      && (|r| > 0 ==> r[0] - a.lastJitterTime >= 84)
      && (forall i :: 0 <= i < |r| - 1 ==> r[i + 1] - r[i] >= 84)
    decreases |fs|
  {
    if |fs| > 0 {
      var a' := Frame(a, fs[0]).app;
      CadenceFrame(a, fs[0]);
      assert forall j :: 0 <= j < |fs| - 1 ==> fs[1..][j] == fs[j + 1];
      FrameJitterCadence(a', fs[1..]);
      assert FrameTimes(fs)[1..] == FrameTimes(fs[1..]);
    }
    RedrawsAreSpaced(a.lastJitterTime, FrameTimes(fs));
  }

  /** The first frame after start-up: the initialisers satisfy the
      stylizer's invariant, the target buffers are allocated, the main
      program, the NNF and the jitter texture are created at the window
      size, and a table is drawn even when the cadence has not yet elapsed.
      The start-up source size is that of style 0. */
  lemma FirstFrame(windowHeight: int, f: FrameInput)
    requires ValidInput(f)
    requires f.windowWidth >= 0 && f.windowHeight >= 0
    ensures Styleblit.Inv(InitialApp(windowHeight).blit)
    ensures InitialApp(windowHeight).sourceSize == SourceSizeFor(0, windowHeight)
    ensures var r := Frame(InitialApp(windowHeight), f);
      && r.trace[0] == ReallocTarget(f.windowWidth, f.windowHeight)
      && r.trace[1] == Blit(Styleblit.CreateMainProgram)
      && r.trace[2] == Blit(Styleblit.CreateNNF(f.windowWidth, f.windowHeight))
      && r.trace[3] == Blit(Styleblit.CreateJitterTexture(JitterTable.Width, JitterTable.Height))
      && r.app.blit.jitterTable == JitterTable.Regenerate(f.draws)
  {
    var a := InitialApp(windowHeight);
    var c := FrameCall(a, f);
    Styleblit.FirstCall(c, f.blendHandle, f.draws);
    var o := Styleblit.Step(a.blit, c, f.blendHandle, f.draws);
    FrameTrace(a, f);
    assert ResizeEvents(a, f) == [ReallocTarget(f.windowWidth, f.windowHeight)];
    var t := ResizeEvents(a, f) + Lift(o.trace) + PickEvents(f);
    assert t[1] == Lift(o.trace)[0] && t[2] == Lift(o.trace)[1] && t[3] == Lift(o.trace)[2];
  }
}
