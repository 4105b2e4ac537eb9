/**
 The per-call orchestration of styleblit(): a memoising cache over the
 function's static variables. Every call decides whether the
 radius-specialised blend program is (re)built, whether the NNF texture is
 re-specified for a new target size, whether the jitter table is redrawn,
 and then issues the matching pass followed by the blending pass.

 GL calls are opaque: each becomes an Event in the call's trace. The handle
 that program creation returns and the values rand() yields are supplied by
 the caller, since they come from the driver and the C library.
 */
module Styleblit {
  import opened Wrappers
  import opened Decimal
  import JitterTable

  /** The static variables of styleblit() that influence later calls. */
  datatype State = State(
    initialized: bool,
    /** Handle of the blend program; 0 means none has been created. */
    progBlend: nat,
    oldBlendRadius: int,
    oldTargetWidth: int,
    oldTargetHeight: int,
    /** Dimensions the NNF texture was last specified with. */
    nnfWidth: int,
    nnfHeight: int,
    /** The jitter table bytes; empty until first allocated. */
    jitterTable: seq<int>)

  /** The static initialisers. */
  const Initial := State(false, 0, 0, 0, 0, 0, 0, [])

  /** The arguments of one styleblit() call that the orchestration reads.
      Texture handles are left out: they are only bound, never inspected. */
  datatype Call = Call(
    targetWidth: int,
    targetHeight: int,
    sourceWidth: int,
    sourceHeight: int,
    threshold: int,
    blendRadius: int,
    jitter: bool)

  /** The opaque GL effects of a call, in issue order. */
  datatype Event =
    | CreateMainProgram
    | CreateNNF(width: int, height: int)
    | CreateJitterTexture(width: int, height: int)
    | DeleteBlendProgram(program: nat)
    | BuildBlendProgram(prefix: string)
    | ReallocNNF(width: int, height: int)
    | UploadJitterTable(table: seq<int>)
    | MainPass(targetWidth: int, targetHeight: int, sourceWidth: int, sourceHeight: int, threshold: int)
    | BlendPass(targetWidth: int, targetHeight: int, sourceWidth: int, sourceHeight: int)
  {
    function Kind(): EventKind {
      match this
      case BuildBlendProgram(_) => Build
      case ReallocNNF(_, _) => Realloc
      case UploadJitterTable(_) => Upload
      case MainPass(_, _, _, _, _) => Matching
      case BlendPass(_, _, _, _) => Blending
      case DeleteBlendProgram(_) => Delete
      case _ => Create
    }

    predicate IsPass() {
      MainPass? || BlendPass?
    }
  }

  /** Event kinds: the three first-call creations, deletion of the old blend
      program, a blend build, an NNF re-specification, a table upload, and
      the two passes. */
  datatype EventKind = Create | Delete | Build | Realloc | Upload | Matching | Blending

  /** What one call leaves behind: the new static state and its trace. */
  datatype Outcome = Outcome(state: State, trace: seq<Event>)

  /** Number of events of kind k in a trace. */
  function Count(t: seq<Event>, k: EventKind): nat
  {
    if |t| == 0 then 0 else (if t[0].Kind() == k then 1 else 0) + Count(t[1..], k)
  }

  lemma {:induction false} CountAppend(a: seq<Event>, b: seq<Event>, k: EventKind)
    ensures Count(a + b, k) == Count(a, k) + Count(b, k)
    decreases |a|
  {
    if |a| == 0 {
      assert a + b == b;
    } else {
      assert (a + b)[0] == a[0];
      assert (a + b)[1..] == a[1..] + b;
      CountAppend(a[1..], b, k);
    }
  }

  /** Count is zero exactly when no event of the trace has kind k. */
  lemma {:induction false} CountZero(t: seq<Event>, k: EventKind)
    ensures Count(t, k) == 0 <==> forall i :: 0 <= i < |t| ==> t[i].Kind() != k
    decreases |t|
  {
    if |t| > 0 {
      CountZero(t[1..], k);
      assert forall j :: 0 <= j < |t| - 1 ==> t[1..][j] == t[j + 1];
    }
  }

  // ---------------------------------------------------------------------
  // The shader prefix of the blend program.

  const PrefixHead := "#define BLEND_RADIUS "

  /** `sprintf(votePrefix, "#define BLEND_RADIUS %d\n", blendRadius)`. */
  function BlendPrefix(radius: int): (p: string)
    ensures |p| == |PrefixHead| + |IntToDecimal(radius)| + 1
    ensures p[..|PrefixHead|] == PrefixHead && p[|p| - 1] == '\n'
  {
    PrefixHead + IntToDecimal(radius) + "\n"
  }

  /** Reads the radius back out of a prefix; None for anything BlendPrefix
      cannot produce. */
  function ParseBlendPrefix(p: string): Option<int>
  {
    if |p| >= |PrefixHead| + 1 && p[..|PrefixHead|] == PrefixHead && p[|p| - 1] == '\n'
    then ParseInt(p[|PrefixHead|..|p| - 1])
    else None
  }

  /** The digits of a prefix sit between the head and the newline. */
  lemma PrefixDigits(radius: int)
    ensures var p := BlendPrefix(radius);
      p[|PrefixHead|..|p| - 1] == IntToDecimal(radius)
  {
  }

  /** The radius can be read back from the prefix built for it. */
  lemma BlendPrefixParses(radius: int)
    ensures ParseBlendPrefix(BlendPrefix(radius)) == Some(radius)
  {
    PrefixDigits(radius);
    IntToDecimalRoundTrip(radius);
  }

  /** Every parsable prefix is exactly the one built for its radius, so
      distinct radii give distinct prefixes. */
  lemma BlendPrefixUnique(p: string)
    requires ParseBlendPrefix(p).Some?
    ensures BlendPrefix(ParseBlendPrefix(p).value) == p
  {
    var h := |PrefixHead|;
    var d := p[h..|p| - 1];
    ParseIntRoundTrip(d);
    assert p == p[..h] + d + [p[|p| - 1]];
  }

  /** For every 32-bit radius the prefix and its terminating NUL fit the
      256-byte buffer it is printed into. */
  lemma BlendPrefixFitsBuffer(radius: int)
    requires -0x8000_0000 <= radius < 0x8000_0000
    ensures |BlendPrefix(radius)| + 1 <= 256
  {
    Int32DecimalLength(radius);
  }

  // ---------------------------------------------------------------------
  // One call.

  /** The two passes every call ends with: matching writes the NNF, blending
      reads it. */
  function Passes(c: Call): seq<Event>
  {
    [ MainPass(c.targetWidth, c.targetHeight, c.sourceWidth, c.sourceHeight, c.threshold),
      BlendPass(c.targetWidth, c.targetHeight, c.sourceWidth, c.sourceHeight) ]
  }

  /** The call rebuilds the blend program. */
  predicate NeedsRebuild(s: State, c: Call) {
    s.progBlend == 0 || c.blendRadius != s.oldBlendRadius
  }

  /** The rebuild deletes an existing blend program first. */
  predicate ReplacesProgram(s: State, c: Call) {
    NeedsRebuild(s, c) && s.progBlend != 0
  }

  /** The call re-specifies the NNF texture. */
  predicate NeedsRealloc(s: State, c: Call) {
    c.targetWidth != s.oldTargetWidth || c.targetHeight != s.oldTargetHeight
  }

  /** The call redraws the jitter table: the first call forces it. */
  predicate RedrawsJitter(s: State, c: Call) {
    c.jitter || !s.initialized
  }

  /** First-call set-up: main program, NNF texture at the target size and
      jitter texture. */
  function Initialize(s: State, c: Call): (o: Outcome)
  {
    if s.initialized then Outcome(s, [])
    else Outcome(s.(initialized := true, nnfWidth := c.targetWidth, nnfHeight := c.targetHeight),
                 [ CreateMainProgram,
                   CreateNNF(c.targetWidth, c.targetHeight),
                   CreateJitterTexture(JitterTable.Width, JitterTable.Height) ])
  }

  /** Rebuild of the blend program for the call's radius, deleting the old
      program when there is one. */
  function RebuildBlend(s: State, c: Call, blendHandle: nat): (o: Outcome)
  {
    if NeedsRebuild(s, c) then
      Outcome(s.(progBlend := blendHandle, oldBlendRadius := c.blendRadius),
              (if s.progBlend != 0 then [DeleteBlendProgram(s.progBlend)] else [])
              + [BuildBlendProgram(BlendPrefix(c.blendRadius))])
    else Outcome(s, [])
  }

  /** Re-specification of the NNF texture at a changed target size. */
  function ResizeNNF(s: State, c: Call): (o: Outcome)
  {
    if NeedsRealloc(s, c) then
      Outcome(s.(oldTargetWidth := c.targetWidth, oldTargetHeight := c.targetHeight,
                 nnfWidth := c.targetWidth, nnfHeight := c.targetHeight),
              [ReallocNNF(c.targetWidth, c.targetHeight)])
    else Outcome(s, [])
  }

  /** Redraw and upload of the jitter table when `jitter` is set. */
  function RefreshJitter(s: State, jitter: bool, draws: seq<int>): (o: Outcome)
    requires JitterTable.ValidDraws(draws)
  {
    if jitter then
      var t := JitterTable.Regenerate(draws);
      Outcome(s.(jitterTable := t), [UploadJitterTable(t)])
    else Outcome(s, [])
  }

  /** One styleblit() call. `blendHandle` is what program creation returns
      if the blend program is built; `draws` are the rand() values a
      regeneration would consume. */
  function Step(s: State, c: Call, blendHandle: nat, draws: seq<int>): (o: Outcome)
    requires JitterTable.ValidDraws(draws)
    ensures o.state.initialized
    ensures o.state.oldBlendRadius == c.blendRadius
    ensures NeedsRebuild(s, c) ==> o.state.progBlend == blendHandle
    ensures !NeedsRebuild(s, c) ==> o.state.progBlend == s.progBlend
    ensures o.state.oldTargetWidth == c.targetWidth && o.state.oldTargetHeight == c.targetHeight
    ensures (!s.initialized || NeedsRealloc(s, c)) ==>
              o.state.nnfWidth == c.targetWidth && o.state.nnfHeight == c.targetHeight
    ensures (s.initialized && !NeedsRealloc(s, c)) ==>
              o.state.nnfWidth == s.nnfWidth && o.state.nnfHeight == s.nnfHeight
    ensures RedrawsJitter(s, c) ==> o.state.jitterTable == JitterTable.Regenerate(draws)
    ensures !RedrawsJitter(s, c) ==> o.state.jitterTable == s.jitterTable
    ensures |o.trace| >= 2 && o.trace[|o.trace| - 2..] == Passes(c)
  {
    var o1 := Initialize(s, c);
    var o2 := RebuildBlend(o1.state, c, blendHandle);
    var o3 := ResizeNNF(o2.state, c);
    var o4 := RefreshJitter(o3.state, RedrawsJitter(s, c), draws);
    Outcome(o4.state, o1.trace + o2.trace + o3.trace + o4.trace + Passes(c))
  }

  /** The set-up events of a call, in order, before its passes. */
  function SetupEvents(s: State, c: Call, blendHandle: nat, draws: seq<int>): seq<Event>
    requires JitterTable.ValidDraws(draws)
  {
    var o1 := Initialize(s, c);
    var o2 := RebuildBlend(o1.state, c, blendHandle);
    var o3 := ResizeNNF(o2.state, c);
    var o4 := RefreshJitter(o3.state, RedrawsJitter(s, c), draws);
    o1.trace + o2.trace + o3.trace + o4.trace
  }

  lemma CountSingle(e: Event, k: EventKind)
    ensures Count([e], k) == (if e.Kind() == k then 1 else 0)
  {
  }

  lemma CountPair(e: Event, e': Event, k: EventKind)
    ensures Count([e, e'], k) == (if e.Kind() == k then 1 else 0) + (if e'.Kind() == k then 1 else 0)
  {
    assert [e, e'] == [e] + [e'];
    CountAppend([e], [e'], k);
  }

  lemma InitializeCount(s: State, c: Call, k: EventKind)
    ensures Count(Initialize(s, c).trace, k) == (if !s.initialized && k == Create then 3 else 0)
  {
    if !s.initialized {
      var t := Initialize(s, c).trace;
      assert t == [t[0]] + [t[1], t[2]];
      CountAppend([t[0]], [t[1], t[2]], k);
      CountPair(t[1], t[2], k);
    }
  }

  lemma RebuildCount(s: State, c: Call, blendHandle: nat, k: EventKind)
    ensures Count(RebuildBlend(s, c, blendHandle).trace, k) ==
              (if NeedsRebuild(s, c) && k == Build then 1 else 0)
              + (if ReplacesProgram(s, c) && k == Delete then 1 else 0)
  {
    if NeedsRebuild(s, c) {
      var b := BuildBlendProgram(BlendPrefix(c.blendRadius));
      if s.progBlend != 0 {
        CountPair(DeleteBlendProgram(s.progBlend), b, k);
      } else {
        CountSingle(b, k);
      }
    }
  }

  lemma ResizeCount(s: State, c: Call, k: EventKind)
    ensures Count(ResizeNNF(s, c).trace, k) == (if NeedsRealloc(s, c) && k == Realloc then 1 else 0)
  {
    if NeedsRealloc(s, c) {
      CountSingle(ReallocNNF(c.targetWidth, c.targetHeight), k);
    }
  }

  lemma RefreshCount(s: State, jitter: bool, draws: seq<int>, k: EventKind)
    requires JitterTable.ValidDraws(draws)
    ensures Count(RefreshJitter(s, jitter, draws).trace, k) == (if jitter && k == Upload then 1 else 0)
  {
    if jitter {
      CountSingle(UploadJitterTable(JitterTable.Regenerate(draws)), k);
    }
  }

  lemma PassesCount(c: Call, k: EventKind)
    ensures Count(Passes(c), k) == (if k == Matching || k == Blending then 1 else 0)
  {
    var p := Passes(c);
    CountPair(p[0], p[1], k);
  }

  /** How many events of kind k one call issues, as the guards of
      styleblit() decide: the three creations only on the first call, a
      deletion when a rebuild replaces an existing program, a build when a
      rebuild is due, a reallocation when the size changed, an upload when
      the table is redrawn, and one of each pass. */
  function CallCount(s: State, c: Call, k: EventKind): nat {
    match k
    case Create => if s.initialized then 0 else 3
    case Delete => if ReplacesProgram(s, c) then 1 else 0
    case Build => if NeedsRebuild(s, c) then 1 else 0
    case Realloc => if NeedsRealloc(s, c) then 1 else 0
    case Upload => if RedrawsJitter(s, c) then 1 else 0
    case Matching => 1
    case Blending => 1
  }

  /** The trace of one call holds exactly CallCount events of every kind. */
  lemma StepCounts(s: State, c: Call, blendHandle: nat, draws: seq<int>, k: EventKind)
    requires JitterTable.ValidDraws(draws)
    ensures Count(Step(s, c, blendHandle, draws).trace, k) == CallCount(s, c, k)
  {
    StepIsSetupThenPasses(s, c, blendHandle, draws);
    SetupCounts(s, c, blendHandle, draws, k);
    CountAppend(SetupEvents(s, c, blendHandle, draws), Passes(c), k);
    PassesCount(c, k);
  }

  lemma StepIsSetupThenPasses(s: State, c: Call, blendHandle: nat, draws: seq<int>)
    requires JitterTable.ValidDraws(draws)
    ensures Step(s, c, blendHandle, draws).trace == SetupEvents(s, c, blendHandle, draws) + Passes(c)
  {
  }

  lemma SetupCounts(s: State, c: Call, blendHandle: nat, draws: seq<int>, k: EventKind)
    requires JitterTable.ValidDraws(draws)
    ensures Count(SetupEvents(s, c, blendHandle, draws), k) + (if k == Matching || k == Blending then 1 else 0)
            == CallCount(s, c, k)
  {
    SetupSplit(s, c, blendHandle, draws, k);
    InitializeCount(s, c, k);
    RebuildAfterInitCount(s, c, blendHandle, k);
    ResizeAfterRebuildCount(s, c, blendHandle, k);
    RefreshCount(ResizeNNF(RebuildBlend(Initialize(s, c).state, c, blendHandle).state, c).state,
                 RedrawsJitter(s, c), draws, k);
  }

  lemma RebuildAfterInitCount(s: State, c: Call, blendHandle: nat, k: EventKind)
    ensures Count(RebuildBlend(Initialize(s, c).state, c, blendHandle).trace, k) ==
              (if NeedsRebuild(s, c) && k == Build then 1 else 0)
              + (if ReplacesProgram(s, c) && k == Delete then 1 else 0)
  {
    PhasesKeepGuards(s, c, blendHandle);
    RebuildCount(Initialize(s, c).state, c, blendHandle, k);
  }

  lemma ResizeAfterRebuildCount(s: State, c: Call, blendHandle: nat, k: EventKind)
    ensures Count(ResizeNNF(RebuildBlend(Initialize(s, c).state, c, blendHandle).state, c).trace, k) ==
              (if NeedsRealloc(s, c) && k == Realloc then 1 else 0)
  {
    PhasesKeepGuards(s, c, blendHandle);
    ResizeCount(RebuildBlend(Initialize(s, c).state, c, blendHandle).state, c, k);
  }

  /** The first two phases leave the guards of the later ones as the call
      found them. */
  lemma PhasesKeepGuards(s: State, c: Call, blendHandle: nat)
    ensures var o1 := Initialize(s, c);
      var o2 := RebuildBlend(o1.state, c, blendHandle);
      && (NeedsRebuild(o1.state, c) <==> NeedsRebuild(s, c))
      && (ReplacesProgram(o1.state, c) <==> ReplacesProgram(s, c))
      && (NeedsRealloc(o2.state, c) <==> NeedsRealloc(s, c))
  {
  }

  /** The set-up count of a call is the sum over its four phases. */
  lemma SetupSplit(s: State, c: Call, blendHandle: nat, draws: seq<int>, k: EventKind)
    requires JitterTable.ValidDraws(draws)
    ensures var o1 := Initialize(s, c);
      var o2 := RebuildBlend(o1.state, c, blendHandle);
      var o3 := ResizeNNF(o2.state, c);
      var o4 := RefreshJitter(o3.state, RedrawsJitter(s, c), draws);
      Count(SetupEvents(s, c, blendHandle, draws), k)
        == Count(o1.trace, k) + Count(o2.trace, k) + Count(o3.trace, k) + Count(o4.trace, k)
  {
    var o1 := Initialize(s, c);
    var o2 := RebuildBlend(o1.state, c, blendHandle);
    var o3 := ResizeNNF(o2.state, c);
    var o4 := RefreshJitter(o3.state, RedrawsJitter(s, c), draws);
    CountAppend(o1.trace + o2.trace + o3.trace, o4.trace, k);
    CountAppend(o1.trace + o2.trace, o3.trace, k);
    CountAppend(o1.trace, o2.trace, k);
  }

  /** A set-up event as call c leaving table tbl issues it: not a pass, the
      NNF created or re-specified at c's target size, every build for c's
      radius, every upload of tbl. */
  predicate FitsCall(e: Event, c: Call, tbl: seq<int>) {
    && !e.IsPass()
    && (e.CreateNNF? ==> e.width == c.targetWidth && e.height == c.targetHeight)
    && (e.ReallocNNF? ==> e.width == c.targetWidth && e.height == c.targetHeight)
    && (e.BuildBlendProgram? ==> e.prefix == BlendPrefix(c.blendRadius))
    && (e.UploadJitterTable? ==> e.table == tbl)
  }

  predicate SetupOnly(t: seq<Event>, c: Call, tbl: seq<int>) {
    forall i :: 0 <= i < |t| ==> FitsCall(t[i], c, tbl)
  }

  lemma SetupOnlyAppend(a: seq<Event>, b: seq<Event>, c: Call, tbl: seq<int>)
    requires SetupOnly(a, c, tbl) && SetupOnly(b, c, tbl)
    ensures SetupOnly(a + b, c, tbl)
  {
    forall i | 0 <= i < |a + b|
      ensures FitsCall((a + b)[i], c, tbl)
    {
      if i < |a| {
        assert (a + b)[i] == a[i];
      } else {
        assert (a + b)[i] == b[i - |a|];
      }
    }
  }

  /** Every set-up event of a call fits the call and the table it leaves. */
  lemma SetupFits(s: State, c: Call, blendHandle: nat, draws: seq<int>)
    requires JitterTable.ValidDraws(draws)
    ensures SetupOnly(SetupEvents(s, c, blendHandle, draws), c, Step(s, c, blendHandle, draws).state.jitterTable)
  {
    var tbl := Step(s, c, blendHandle, draws).state.jitterTable;
    var o1 := Initialize(s, c);
    var o2 := RebuildBlend(o1.state, c, blendHandle);
    var o3 := ResizeNNF(o2.state, c);
    var o4 := RefreshJitter(o3.state, RedrawsJitter(s, c), draws);
    assert tbl == o4.state.jitterTable;
    assert SetupOnly(o1.trace, c, tbl);
    assert SetupOnly(o2.trace, c, tbl);
    assert SetupOnly(o3.trace, c, tbl);
    assert SetupOnly(o4.trace, c, tbl);
    SetupOnlyAppend(o1.trace, o2.trace, c, tbl);
    SetupOnlyAppend(o1.trace + o2.trace, o3.trace, c, tbl);
    SetupOnlyAppend(o1.trace + o2.trace + o3.trace, o4.trace, c, tbl);
  }

  /** The passes come strictly after every set-up event of the call, the
      matching pass before the blending pass; the NNF is created and
      re-specified only at the call's target size, every build uses the
      prefix for the call's radius and every upload carries the table the
      call leaves behind. */
  lemma StepOrder(s: State, c: Call, blendHandle: nat, draws: seq<int>)
    requires JitterTable.ValidDraws(draws)
    ensures var o := Step(s, c, blendHandle, draws);
      && SetupOnly(o.trace[..|o.trace| - 2], c, o.state.jitterTable)
      && o.trace[|o.trace| - 2].MainPass? && o.trace[|o.trace| - 1].BlendPass?
  {
    var o := Step(s, c, blendHandle, draws);
    var setup := SetupEvents(s, c, blendHandle, draws);
    StepIsSetupThenPasses(s, c, blendHandle, draws);
    SetupFits(s, c, blendHandle, draws);
    assert o.trace[..|o.trace| - 2] == setup;
  }

  /** A call uploads a table exactly when it redraws one. */
  lemma StepUploads(s: State, c: Call, blendHandle: nat, draws: seq<int>)
    requires JitterTable.ValidDraws(draws)
    ensures var t := Step(s, c, blendHandle, draws).trace;
      (exists i :: 0 <= i < |t| && t[i].UploadJitterTable?) <==> RedrawsJitter(s, c)
  {
    StepCounts(s, c, blendHandle, draws, Upload);
    HasUpload(Step(s, c, blendHandle, draws).trace);
  }

  lemma HasUpload(t: seq<Event>)
    ensures (exists i :: 0 <= i < |t| && t[i].UploadJitterTable?) <==> Count(t, Upload) > 0
  {
    CountZero(t, Upload);
    assert forall i | 0 <= i < |t| :: t[i].Kind() == Upload <==> t[i].UploadJitterTable?;
  }

  /** A call that finds its radius and size already in place issues only
      the optional upload and the two passes. */
  lemma StepCached(s: State, c: Call, blendHandle: nat, draws: seq<int>)
    requires JitterTable.ValidDraws(draws)
    requires s.initialized && s.progBlend != 0 && s.oldBlendRadius == c.blendRadius
    requires s.oldTargetWidth == c.targetWidth && s.oldTargetHeight == c.targetHeight
    ensures Step(s, c, blendHandle, draws).trace ==
              (if c.jitter then [UploadJitterTable(JitterTable.Regenerate(draws))] else []) + Passes(c)
  {
    assert Initialize(s, c) == Outcome(s, []);
    assert RebuildBlend(s, c, blendHandle) == Outcome(s, []);
    assert ResizeNNF(s, c) == Outcome(s, []);
  }

  /** All counts of one call at once. */
  lemma StepTrace(s: State, c: Call, blendHandle: nat, draws: seq<int>)
    requires JitterTable.ValidDraws(draws)
    ensures var o := Step(s, c, blendHandle, draws);
      && Count(o.trace, Create) == (if s.initialized then 0 else 3)
      && Count(o.trace, Delete) == (if NeedsRebuild(s, c) && s.progBlend != 0 then 1 else 0)
      && Count(o.trace, Build) == (if NeedsRebuild(s, c) then 1 else 0)
      && Count(o.trace, Realloc) == (if NeedsRealloc(s, c) then 1 else 0)
      && Count(o.trace, Upload) == (if RedrawsJitter(s, c) then 1 else 0)
      && Count(o.trace, Matching) == 1
      && Count(o.trace, Blending) == 1
  {
    StepCounts(s, c, blendHandle, draws, Create);
    StepCounts(s, c, blendHandle, draws, Delete);
    StepCounts(s, c, blendHandle, draws, Build);
    StepCounts(s, c, blendHandle, draws, Realloc);
    StepCounts(s, c, blendHandle, draws, Upload);
    StepCounts(s, c, blendHandle, draws, Matching);
    StepCounts(s, c, blendHandle, draws, Blending);
  }

  // ---------------------------------------------------------------------
  // The state invariant and the cache behaviour across calls.

  /** Once initialized, the NNF texture has the recorded target size and the
      jitter table holds TableSize bytes. */
  predicate Inv(s: State) {
    s.initialized ==>
      && s.nnfWidth == s.oldTargetWidth
      && s.nnfHeight == s.oldTargetHeight
      && JitterTable.IsByteTable(s.jitterTable)
  }

  lemma InitialInv()
    ensures Inv(Initial) && !Initial.initialized && Initial.progBlend == 0
  {
  }

  /** Every call keeps the invariant and leaves the NNF sized exactly to its
      target, whatever the previous size was; the jitter table keeps its
      fixed size whatever the target. */
  lemma StepPreservesInv(s: State, c: Call, blendHandle: nat, draws: seq<int>)
    requires JitterTable.ValidDraws(draws)
    requires Inv(s)
    ensures var o := Step(s, c, blendHandle, draws);
      && Inv(o.state)
      && o.state.nnfWidth == c.targetWidth && o.state.nnfHeight == c.targetHeight
      && |o.state.jitterTable| == JitterTable.TableSize
  {
  }

  /** The first call builds everything: the main program, the NNF texture at
      the target size, the jitter texture, the blend program, and a fresh
      jitter table even when the caller asked for no jitter. Because the
      recorded size starts at 0 x 0, the NNF texture is also re-specified
      right after its creation unless the target is 0 x 0. */
  lemma FirstCall(c: Call, blendHandle: nat, draws: seq<int>)
    requires JitterTable.ValidDraws(draws)
    ensures var o := Step(Initial, c, blendHandle, draws);
      && o.state.initialized
      && o.trace[..3] == [ CreateMainProgram,
                           CreateNNF(c.targetWidth, c.targetHeight),
                           CreateJitterTexture(JitterTable.Width, JitterTable.Height) ]
      && o.trace[3] == BuildBlendProgram(BlendPrefix(c.blendRadius))
      && Count(o.trace, Upload) == 1
      && o.state.jitterTable == JitterTable.Regenerate(draws)
      && (Count(o.trace, Realloc) == 1 <==> (c.targetWidth, c.targetHeight) != (0, 0))
  {
    StepTrace(Initial, c, blendHandle, draws);
  }

  /** Two calls with the same target size and radius: the second rebuilds
      nothing and reallocates nothing, provided the first obtained a real
      program handle. Its only setup is the optional table upload. */
  lemma RepeatedCallIsCached(s: State, c: Call, c': Call, h: nat, h': nat, d: seq<int>, d': seq<int>)
    requires JitterTable.ValidDraws(d) && JitterTable.ValidDraws(d')
    requires h != 0
    requires c'.targetWidth == c.targetWidth && c'.targetHeight == c.targetHeight
    requires c'.blendRadius == c.blendRadius
    ensures var o := Step(s, c, h, d);
      var o' := Step(o.state, c', h', d');
      && Count(o'.trace, Build) == 0
      && Count(o'.trace, Realloc) == 0
      && o'.state.progBlend == o.state.progBlend
      && o'.trace == (if c'.jitter then [UploadJitterTable(o'.state.jitterTable)] else []) + Passes(c')
  {
    var o := Step(s, c, h, d);
    StepTrace(o.state, c', h', d');
  }

  /** Changing the radius r to r2 and back to r rebuilds on each change and
      ends with the program built for r. */
  lemma RadiusChangeAndBack(s: State, c: Call, r2: int, h1: nat, h2: nat, h3: nat,
                            d1: seq<int>, d2: seq<int>, d3: seq<int>)
    requires JitterTable.ValidDraws(d1) && JitterTable.ValidDraws(d2) && JitterTable.ValidDraws(d3)
    requires h1 != 0 && h2 != 0
    requires r2 != c.blendRadius
    ensures var o1 := Step(s, c, h1, d1);
      var o2 := Step(o1.state, c.(blendRadius := r2), h2, d2);
      var o3 := Step(o2.state, c, h3, d3);
      && o1.state.progBlend != 0
      && o2.trace[0] == DeleteBlendProgram(o1.state.progBlend)
      && o2.trace[1] == BuildBlendProgram(BlendPrefix(r2))
      && o3.trace[0] == DeleteBlendProgram(h2)
      && o3.trace[1] == BuildBlendProgram(BlendPrefix(c.blendRadius))
      && o3.state.progBlend == h3
      && o3.state.oldBlendRadius == c.blendRadius
      && ParseBlendPrefix(o3.trace[1].prefix) == Some(c.blendRadius)
  {
    var c2 := c.(blendRadius := r2);
    var o1 := Step(s, c, h1, d1);
    var o2 := Step(o1.state, c2, h2, d2);
    RebuildStartsTrace(o1.state, c2, h2, d2);
    RebuildStartsTrace(o2.state, c, h3, d3);
    BlendPrefixParses(c.blendRadius);
  }

  /** On an initialized state holding a program, a due rebuild opens the
      call's trace: the old program is deleted, then the new one built. */
  lemma RebuildStartsTrace(s: State, c: Call, h: nat, d: seq<int>)
    requires JitterTable.ValidDraws(d)
    requires s.initialized && s.progBlend != 0 && c.blendRadius != s.oldBlendRadius
    ensures var o := Step(s, c, h, d);
      && o.trace[0] == DeleteBlendProgram(s.progBlend)
      && o.trace[1] == BuildBlendProgram(BlendPrefix(c.blendRadius))
  {
    assert Initialize(s, c) == Outcome(s, []);
    assert RebuildBlend(s, c, h).trace == [DeleteBlendProgram(s.progBlend), BuildBlendProgram(BlendPrefix(c.blendRadius))];
  }

  /** The jitter table never depends on the target size: two calls that
      differ only in their targets leave the same table. */
  lemma TableIndependentOfTarget(s: State, c: Call, w: int, h: int, bh: nat, d: seq<int>)
    requires JitterTable.ValidDraws(d)
    ensures Step(s, c, bh, d).state.jitterTable
         == Step(s, c.(targetWidth := w, targetHeight := h), bh, d).state.jitterTable
  {
  }

  // ---------------------------------------------------------------------
  // A sequence of calls.

  /** One call together with what the driver and rand() supply to it. */
  datatype Invocation = Invocation(call: Call, blendHandle: nat, draws: seq<int>)

  predicate ValidInvocations(fs: seq<Invocation>) {
    forall i :: 0 <= i < |fs| ==> JitterTable.ValidDraws(fs[i].draws)
  }

  /** Calls styleblit() once per invocation, concatenating the traces. */
  function Run(s: State, fs: seq<Invocation>): (o: Outcome)
    requires ValidInvocations(fs)
    decreases |fs|
  {
    if |fs| == 0 then Outcome(s, [])
    else
      var o1 := Step(s, fs[0].call, fs[0].blendHandle, fs[0].draws);
      var o2 := Run(o1.state, fs[1..]);
      Outcome(o2.state, o1.trace + o2.trace)
  }

  /** Number of positions where the radius differs from the one before it. */
  function RadiusChanges(prev: int, fs: seq<Invocation>): nat
    decreases |fs|
  {
    if |fs| == 0 then 0
    else (if fs[0].call.blendRadius != prev then 1 else 0) + RadiusChanges(fs[0].call.blendRadius, fs[1..])
  }

  /** Number of positions where the target size differs from the one before. */
  function SizeChanges(w: int, h: int, fs: seq<Invocation>): nat
    decreases |fs|
  {
    if |fs| == 0 then 0
    else
      var c := fs[0].call;
      (if c.targetWidth != w || c.targetHeight != h then 1 else 0)
        + SizeChanges(c.targetWidth, c.targetHeight, fs[1..])
  }

  /** Number of invocations that ask for jitter. */
  function JitterRequests(fs: seq<Invocation>): nat
    decreases |fs|
  {
    if |fs| == 0 then 0 else (if fs[0].call.jitter then 1 else 0) + JitterRequests(fs[1..])
  }

  predicate NonzeroHandles(fs: seq<Invocation>) {
    forall i :: 0 <= i < |fs| ==> fs[i].blendHandle != 0
  }

  lemma RunTail(fs: seq<Invocation>)
    requires ValidInvocations(fs) && |fs| > 0
    ensures ValidInvocations(fs[1..])
    ensures NonzeroHandles(fs) ==> NonzeroHandles(fs[1..])
  {
    assert forall i :: 0 <= i < |fs| - 1 ==> fs[1..][i] == fs[i + 1];
  }

  /** A run keeps the invariant and leaves the NNF sized to the last call's
      target; a run of calls that all obtain real handles keeps a real
      blend program. */
  lemma {:induction false} RunPreservesInv(s: State, fs: seq<Invocation>)
    requires ValidInvocations(fs)
    requires Inv(s)
    ensures var o := Run(s, fs);
      && Inv(o.state)
      && (|fs| > 0 ==> o.state.initialized
                       && o.state.nnfWidth == fs[|fs| - 1].call.targetWidth
                       && o.state.nnfHeight == fs[|fs| - 1].call.targetHeight)
      && (NonzeroHandles(fs) && s.progBlend != 0 ==> o.state.progBlend != 0)
    decreases |fs|
  {
    if |fs| > 0 {
      var f := fs[0];
      var o1 := Step(s, f.call, f.blendHandle, f.draws);
      StepPreservesInv(s, f.call, f.blendHandle, f.draws);
      RunTail(fs);
      RunPreservesInv(o1.state, fs[1..]);
      if |fs| > 1 {
        assert fs[1..][|fs| - 2] == fs[|fs| - 1];
      }
    }
  }

  /** Over a run from an initialized state holding a real program, when
      every call obtains a real handle: nothing is created, the blend
      program is deleted and rebuilt once per radius change, the NNF is
      reallocated once per size change, the table is redrawn once per jitter
      request, and each call issues one matching and one blending pass. */
  lemma {:induction false} RunCounts(s: State, fs: seq<Invocation>, k: EventKind)
    requires ValidInvocations(fs) && NonzeroHandles(fs)
    requires s.initialized && s.progBlend != 0
    ensures var n := Count(Run(s, fs).trace, k);
      && (k == Create ==> n == 0)
      && (k == Delete || k == Build ==> n == RadiusChanges(s.oldBlendRadius, fs))
      && (k == Realloc ==> n == SizeChanges(s.oldTargetWidth, s.oldTargetHeight, fs))
      && (k == Upload ==> n == JitterRequests(fs))
      && (k == Matching || k == Blending ==> n == |fs|)
    decreases |fs|
  {
    if |fs| > 0 {
      var f := fs[0];
      var o1 := Step(s, f.call, f.blendHandle, f.draws);
      RunTail(fs);
      var rest := Run(o1.state, fs[1..]);
      RunUnfold(s, fs);
      CachedStepCounts(s, f, k);
      RunCounts(o1.state, fs[1..], k);
      CountAppend(o1.trace, rest.trace, k);
    }
  }

  /** One call after the first, with a real program before and after: its
      counts in terms of what changed since the recorded call. */
  lemma CachedStepCounts(s: State, f: Invocation, k: EventKind)
    requires JitterTable.ValidDraws(f.draws) && f.blendHandle != 0
    requires s.initialized && s.progBlend != 0
    ensures var o := Step(s, f.call, f.blendHandle, f.draws);
      var c := f.call;
      var n := Count(o.trace, k);
      && o.state.initialized && o.state.progBlend != 0
      && (k == Create ==> n == 0)
      && (k == Delete || k == Build ==> n == if c.blendRadius != s.oldBlendRadius then 1 else 0)
      && (k == Realloc ==> n == if c.targetWidth != s.oldTargetWidth || c.targetHeight != s.oldTargetHeight then 1 else 0)
      && (k == Upload ==> n == if c.jitter then 1 else 0)
      && (k == Matching || k == Blending ==> n == 1)
  {
    StepCounts(s, f.call, f.blendHandle, f.draws, k);
  }

  lemma RunUnfold(s: State, fs: seq<Invocation>)
    requires ValidInvocations(fs) && |fs| > 0
    ensures ValidInvocations(fs[1..])
    ensures var o1 := Step(s, fs[0].call, fs[0].blendHandle, fs[0].draws);
      Run(s, fs).trace == o1.trace + Run(o1.state, fs[1..]).trace
  {
    RunTail(fs);
  }

  /** From the static initialisers, a run creates the main program, the NNF
      texture and the jitter texture once, builds the blend program once plus
      once per later radius change and deletes it once per later radius
      change, re-specifies the NNF once per size change counting the start
      from 0 x 0, and redraws the table on the first call and on every later
      jitter request. */
  lemma RunFromInitial(fs: seq<Invocation>, k: EventKind)
    requires ValidInvocations(fs) && NonzeroHandles(fs)
    requires |fs| >= 1
    ensures var n := Count(Run(Initial, fs).trace, k);
      && (k == Create ==> n == 3)
      && (k == Delete ==> n == RadiusChanges(fs[0].call.blendRadius, fs[1..]))
      && (k == Build ==> n == 1 + RadiusChanges(fs[0].call.blendRadius, fs[1..]))
      && (k == Realloc ==> n == SizeChanges(0, 0, fs))
      && (k == Upload ==> n == 1 + JitterRequests(fs[1..]))
      && (k == Matching || k == Blending ==> n == |fs|)
  {
    var f := fs[0];
    var o1 := Step(Initial, f.call, f.blendHandle, f.draws);
    RunTail(fs);
    StepCounts(Initial, f.call, f.blendHandle, f.draws, k);
    RunCounts(o1.state, fs[1..], k);
    CountAppend(o1.trace, Run(o1.state, fs[1..]).trace, k);
  }

  /** Every blend program but the current one is deleted: from the static
      initialisers, when every build obtains a real handle, a run deletes
      exactly one program fewer than it builds. */
  lemma NoProgramLeak(fs: seq<Invocation>)
    requires ValidInvocations(fs) && NonzeroHandles(fs)
    requires |fs| >= 1
    ensures Count(Run(Initial, fs).trace, Delete) + 1 == Count(Run(Initial, fs).trace, Build)
  {
    RunFromInitial(fs, Delete);
    RunFromInitial(fs, Build);
  }
}
